/** What the database receives: the statements of a push, read back into table, columns and rows. */
module PushedStatements {
  import opened Text
  import opened Lines
  import opened Merge
  import opened QuotedText
  import opened Dump
  import opened Pusher
  import opened PushTheorems
  import opened PushedRows
  import opened GtidText
  import Schema

  // ---------- the reader ----------

  datatype Insert = Insert(table: string, cols: seq<string>, rows: seq<seq<Field>>)

  /** Fields up to a closing parenthesis. */
  function ReadTuple(t: string): Option<(seq<Field>, string)>
    decreases |t|
  {
    match ReadField(t)
    case None => None
    case Some((f, rest)) =>
      if rest == "" || |rest| > |t| then None
      else if rest[0] == ')' then Some(([f], rest[1..]))
      else if rest[0] != ',' then None
      else match ReadTuple(rest[1..]) case None => None case Some((fs, more)) => Some(([f] + fs, more))
  }

  /** Tuples in parentheses, separated by commas, to the end of the text. */
  function ReadTuples(t: string): Option<seq<seq<Field>>>
    decreases |t|
  {
    if t == "" || t[0] != '(' then None
    else match ReadTuple(t[1..])
      case None => None
      case Some((fs, rest)) =>
        if rest == "" then Some([fs])
        else if rest[0] != ',' || |rest| > |t| then None
        else match ReadTuples(rest[1..]) case None => None case Some(more) => Some([fs] + more)
  }

  /** The rest of the text behind a word. */
  function Behind(word: string, t: string): Option<string> {
    if word <= t then Some(t[|word|..]) else None
  }

  function ReadInsert(sql: string): Option<Insert> {
    match Behind("INSERT INTO `", sql)
    case None => None
    case Some(a) =>
      var table := a[..IndexOf(a, '`')];
      match Behind("` (", a[|table|..])
      case None => None
      case Some(b) =>
        var names := b[..IndexOf(b, ')')];
        match Behind(") VALUES ", b[|names|..])
        case None => None
        case Some(c) =>
          match ReadTuples(c) case None => None case Some(rows) => Some(Insert(table, SplitAll(names, ','), rows))
  }

  // ---------- tuples ----------

  lemma TupleLast(c: Cell, after: string)
    requires GoodCell(c)
    ensures ReadTuple(SentText(c) + (")" + after)) == Some(([Meant(c)], after))
  {
    ReadFieldOf(c, ")" + after);
    assert (")" + after)[1..] == after;
  }

  lemma TupleNext(c: Cell, more: string)
    requires GoodCell(c)
    ensures ReadTuple(SentText(c) + ("," + more)) == match ReadTuple(more)
                                                     case None => None
                                                     case Some((fs, rest)) => Some(([Meant(c)] + fs, rest))
  {
    ReadFieldOf(c, "," + more);
    assert ("," + more)[1..] == more;
  }

  /** The text of a tuple, and what comes behind its parenthesis. */
  function TupleText(cs: seq<Cell>, after: string): string {
    ReplaceAll(RowText(cs)) + ")" + after
  }

  lemma TupleTextIs(cs: seq<Cell>, after: string)
    requires cs != [] && GoodCell(cs[0])
    ensures TupleText(cs, after) ==
              SentText(cs[0]) + (if |cs| == 1 then ")" + after else "," + TupleText(cs[1..], after))
  {
    SentLine(cs);
  }

  lemma MeantCons(cs: seq<Cell>)
    requires cs != []
    ensures AllMeant(cs) == [Meant(cs[0])] + AllMeant(cs[1..]) && (|cs| == 1 ==> AllMeant(cs) == [Meant(cs[0])])
  {
  }

  lemma {:induction false} TupleIsRead(cs: seq<Cell>, after: string)
    requires cs != [] && GoodCells(cs)
    ensures ReadTuple(TupleText(cs, after)) == Some((AllMeant(cs), after))
    decreases |cs|
  {
    GoodCellsCons(cs);
    TupleTextIs(cs, after);
    MeantCons(cs);
    if |cs| == 1 {
      TupleLast(cs[0], after);
    } else {
      TupleIsRead(cs[1..], after);
      TupleNext(cs[0], TupleText(cs[1..], after));
    }
  }

  function RowTexts(rows: seq<seq<Cell>>): (ts: seq<string>)
    ensures |ts| == |rows| && forall i :: 0 <= i < |rows| ==> ts[i] == RowText(rows[i])
  {
    seq(|rows|, i requires 0 <= i < |rows| => RowText(rows[i]))
  }

  function AllRowsMeant(rows: seq<seq<Cell>>): (fs: seq<seq<Field>>)
    ensures |fs| == |rows| && forall i :: 0 <= i < |rows| ==> fs[i] == AllMeant(rows[i])
  {
    seq(|rows|, i requires 0 <= i < |rows| => AllMeant(rows[i]))
  }

  lemma TuplesParts(rows: seq<seq<Cell>>)
    requires rows != []
    ensures TupleList(RowTexts(rows)) ==
              "(" + TupleText(rows[0], if |rows| == 1 then "" else "," + TupleList(RowTexts(rows[1..])))
  {
    var ts := Tuples(RowTexts(rows));
    assert ts[0] == "(" + ReplaceAll(RowText(rows[0])) + ")";
    assert ts[1..] == Tuples(RowTexts(rows[1..]));
  }

  lemma RowsMeantCons(rows: seq<seq<Cell>>)
    requires rows != []
    ensures AllRowsMeant(rows) == [AllMeant(rows[0])] + AllRowsMeant(rows[1..])
    ensures |rows| == 1 ==> AllRowsMeant(rows) == [AllMeant(rows[0])]
  {
  }

  lemma TuplesLast(cs: seq<Cell>)
    requires cs != [] && GoodCells(cs)
    ensures ReadTuples("(" + TupleText(cs, "")) == Some([AllMeant(cs)])
  {
    TupleIsRead(cs, "");
    assert ("(" + TupleText(cs, ""))[1..] == TupleText(cs, "");
  }

  lemma TuplesNext(cs: seq<Cell>, more: string)
    requires cs != [] && GoodCells(cs)
    ensures ReadTuples("(" + TupleText(cs, "," + more)) ==
              match ReadTuples(more) case None => None case Some(rows) => Some([AllMeant(cs)] + rows)
  {
    TupleIsRead(cs, "," + more);
    assert ("(" + TupleText(cs, "," + more))[1..] == TupleText(cs, "," + more) && ("," + more)[1..] == more;
  }

  ghost predicate Readable(cs: seq<Cell>) {
    cs != [] && GoodCells(cs)
  }

  lemma {:induction false} TuplesAreRead(rows: seq<seq<Cell>>)
    requires rows != [] && forall i :: 0 <= i < |rows| ==> Readable(rows[i])
    ensures ReadTuples(TupleList(RowTexts(rows))) == Some(AllRowsMeant(rows))
    decreases |rows|
  {
    assert Readable(rows[0]);
    TuplesParts(rows);
    RowsMeantCons(rows);
    if |rows| == 1 {
      TuplesLast(rows[0]);
    } else {
      TuplesAreRead(rows[1..]);
      TuplesNext(rows[0], TupleList(RowTexts(rows[1..])));
    }
  }

  // ---------- a statement ----------

  predicate PlainHeader(table: string, names: seq<string>) {
    Free(table, '`') && names != [] && AllFree(names, ',') && AllFree(names, ')')
  }

  lemma BehindOf(word: string, t: string)
    ensures Behind(word, word + t) == Some(t)
  {
  }

  lemma UpTo(s: string, c: char, t: string)
    requires Free(s, c) && t != "" && t[0] == c
    ensures var all := s + t; all[..IndexOf(all, c)] == s && all[|s|..] == t
  {
    IndexOfFirst(s, c, t[1..]);
    assert s + [c] + t[1..] == s + t;
  }

  lemma HeaderIs(table: string, names: seq<string>, c: string)
    ensures Header(table, names) + c == "INSERT INTO `" + (table + ("` (" + (Join(names, ',') + (") VALUES " + c))))
  {
  }

  lemma NamesAreRead(names: seq<string>, c: string)
    requires names != [] && AllFree(names, ',') && AllFree(names, ')')
    ensures var b, list := Join(names, ',') + (") VALUES " + c), Join(names, ',');
            b[..IndexOf(b, ')')] == list && b[|list|..] == ") VALUES " + c && SplitAll(list, ',') == names
  {
    JoinFree(names, ',', ')');
    UpTo(Join(names, ','), ')', ") VALUES " + c);
    SplitJoin(names, ',');
  }

  lemma StatementIsRead(table: string, names: seq<string>, rows: seq<seq<Cell>>)
    requires PlainHeader(table, names)
    requires rows != [] && forall i :: 0 <= i < |rows| ==> Readable(rows[i])
    ensures ReadInsert(Header(table, names) + TupleList(RowTexts(rows))) ==
              Some(Insert(table, names, AllRowsMeant(rows)))
  {
    var c := TupleList(RowTexts(rows));
    var b := Join(names, ',') + (") VALUES " + c);
    HeaderIs(table, names, c);
    BehindOf("INSERT INTO `", table + ("` (" + b));
    UpTo(table, '`', "` (" + b);
    BehindOf("` (", b);
    NamesAreRead(names, c);
    BehindOf(") VALUES ", c);
    TuplesAreRead(rows);
  }

  // ---------- all statements of a push ----------

  /** All of them are for the table and its columns. */
  predicate AllFor(sent: seq<string>, table: string, names: seq<string>) {
    forall k :: 0 <= k < |sent| ==> IsFor(sent[k], table, names)
  }

  predicate IsFor(sql: string, table: string, names: seq<string>) {
    ReadInsert(sql).Some? && ReadInsert(sql).value.table == table && ReadInsert(sql).value.cols == names
  }

  /** The rows they bring, in order. */
  function RowsOf(sent: seq<string>): seq<seq<Field>> {
    if sent == [] then []
    else (match ReadInsert(sent[0]) case None => [] case Some(i) => i.rows) + RowsOf(sent[1..])
  }

  ghost predicate Brings(sent: seq<string>, table: string, names: seq<string>, rows: seq<seq<Field>>) {
    AllFor(sent, table, names) && RowsOf(sent) == rows
  }

  lemma BringsMore(sql: string, more: seq<string>, table: string, names: seq<string>, rows: seq<seq<Field>>,
                   rest: seq<seq<Field>>)
    requires ReadInsert(sql) == Some(Insert(table, names, rows)) && Brings(more, table, names, rest)
    ensures Brings([sql] + more, table, names, rows + rest)
  {
    assert ([sql] + more)[1..] == more;
    forall k | 0 <= k <= |more|
      ensures IsFor(([sql] + more)[k], table, names)
    {
      assert k > 0 ==> IsFor(more[k - 1], table, names);
    }
  }

  ghost predicate AllReadable(rows: seq<seq<Cell>>) {
    forall i :: 0 <= i < |rows| ==> Readable(rows[i])
  }

  lemma BatchesParts(rows: seq<seq<Cell>>, n: nat)
    requires 0 < n < |rows|
    ensures Batches(RowTexts(rows), n) == [RowTexts(rows[..n])] + Batches(RowTexts(rows[n..]), n)
    ensures AllRowsMeant(rows) == AllRowsMeant(rows[..n]) + AllRowsMeant(rows[n..])
  {
    assert RowTexts(rows)[..n] == RowTexts(rows[..n]) && RowTexts(rows)[n..] == RowTexts(rows[n..]);
  }

  lemma InsertAllCons(header: string, b: seq<string>, bs: seq<seq<string>>)
    ensures Pusher.InsertAll(header, [b] + bs) == [header + TupleList(b)] + Pusher.InsertAll(header, bs)
  {
    assert ([b] + bs)[1..] == bs;
  }

  /** The rows of the first batch, and the others. */
  function FirstRows(rows: seq<seq<Cell>>, n: nat): seq<seq<Cell>> {
    if |rows| <= n then rows else rows[..n]
  }

  function OtherRows(rows: seq<seq<Cell>>, n: nat): seq<seq<Cell>> {
    if |rows| <= n then [] else rows[n..]
  }

  lemma {:induction false} BatchesAreRead(table: string, names: seq<string>, rows: seq<seq<Cell>>, n: nat)
    requires PlainHeader(table, names) && AllReadable(rows) && n > 0
    ensures Brings(Pusher.InsertAll(Header(table, names), Batches(RowTexts(rows), n)), table, names, AllRowsMeant(rows))
    decreases |rows|
  {
    if rows == [] {
      NoneBrought(table, names, n);
    } else {
      FirstBatch(rows, n);
      StatementIsRead(table, names, FirstRows(rows, n));
      BatchesAreRead(table, names, OtherRows(rows, n), n);
      FirstSent(table, names, FirstRows(rows, n), OtherRows(rows, n), n);
    }
  }

  lemma NoneBrought(table: string, names: seq<string>, n: nat)
    requires n > 0
    ensures Brings(Pusher.InsertAll(Header(table, names), Batches(RowTexts([]), n)), table, names, AllRowsMeant([]))
  {
  }

  lemma FirstSent(table: string, names: seq<string>, first: seq<seq<Cell>>, rest: seq<seq<Cell>>, n: nat)
    requires n > 0
    requires ReadInsert(Header(table, names) + TupleList(RowTexts(first))) ==
               Some(Insert(table, names, AllRowsMeant(first)))
    requires Brings(Pusher.InsertAll(Header(table, names), Batches(RowTexts(rest), n)), table, names,
               AllRowsMeant(rest))
    ensures Brings(Pusher.InsertAll(Header(table, names), [RowTexts(first)] + Batches(RowTexts(rest), n)), table, names,
              AllRowsMeant(first) + AllRowsMeant(rest))
  {
    var header, bs := Header(table, names), Batches(RowTexts(rest), n);
    InsertAllCons(header, RowTexts(first), bs);
    BringsMore(header + TupleList(RowTexts(first)), Pusher.InsertAll(header, bs), table, names, AllRowsMeant(first),
      AllRowsMeant(rest));
  }

  lemma FirstBatch(rows: seq<seq<Cell>>, n: nat)
    requires rows != [] && n > 0
    ensures FirstRows(rows, n) != [] && |OtherRows(rows, n)| < |rows|
    ensures AllReadable(rows) ==> AllReadable(FirstRows(rows, n)) && AllReadable(OtherRows(rows, n))
    ensures Batches(RowTexts(rows), n) == [RowTexts(FirstRows(rows, n))] + Batches(RowTexts(OtherRows(rows, n)), n)
    ensures AllRowsMeant(rows) == AllRowsMeant(FirstRows(rows, n)) + AllRowsMeant(OtherRows(rows, n))
  {
    if |rows| <= n {
      assert RowTexts([]) == [] && [RowTexts(rows)] + [] == [RowTexts(rows)];
      assert AllRowsMeant([]) == [] && AllRowsMeant(rows) + [] == AllRowsMeant(rows);
    } else {
      BatchesParts(rows, n);
    }
  }

  // ---------- a table ----------

  /** The stored rows, in the order of the slots. */
  function StoredRows(slots: Slots): seq<Record> {
    if slots == [] then []
    else
      var n := |slots| - 1;
      StoredRows(slots[..n]) + (if slots[n].Some? then [slots[n].value] else [])
  }

  function CellRows(cols: seq<Schema.Column>, rs: seq<Record>): (cs: seq<seq<Cell>>)
    ensures |cs| == |rs| && forall i :: 0 <= i < |rs| ==> cs[i] == CellsOf(cols, rs[i])
  {
    seq(|rs|, i requires 0 <= i < |rs| => CellsOf(cols, rs[i]))
  }

  lemma {:induction false} DumpedCells(cols: seq<Schema.Column>, slots: Slots)
    ensures DumpLines(cols, slots) == RowTexts(CellRows(cols, StoredRows(slots)))
    decreases |slots|
  {
    if slots != [] {
      var n := |slots| - 1;
      DumpedCells(cols, slots[..n]);
      if slots[n].Some? {
        var rs, r := StoredRows(slots[..n]), slots[n].value;
        assert RowTexts(CellRows(cols, rs + [r])) == RowTexts(CellRows(cols, rs)) + [RowText(CellsOf(cols, r))];
      }
    }
  }

  lemma {:induction false} MeantAt(cs: seq<Cell>, i: nat)
    requires i < |cs|
    ensures |AllMeant(cs)| == |cs| && AllMeant(cs)[i] == Meant(cs[i])
    decreases |cs|
  {
    if |cs| > 1 {
      MeantAt(cs[1..], if i > 0 then i - 1 else 0);
    }
  }

  lemma MeantArrives(cols: seq<Schema.Column>, r: Record)
    requires |r.vals| == |cols| > 0
    ensures Arrived(cols, r.vals, AllMeant(CellsOf(cols, r)))
  {
    var cs := CellsOf(cols, r);
    MeantAt(cs, 0);
    forall i | 0 <= i < |cols|
      ensures InDatabase(cols[i], AllMeant(cs)[i]) == Wanted(cols[i], r.vals[i])
    {
      MeantAt(cs, i);
      GoodIsGood(cols[i], r.vals[i]);
    }
  }

  /** A stored row has a value for each column, and all of them are good. */
  ghost predicate GoodStored(cols: seq<Schema.Column>, r: Record) {
    |r.vals| == |cols| && GoodValues(cols, r.vals)
  }

  lemma GoodReadable(cols: seq<Schema.Column>, r: Record)
    requires cols != [] && GoodStored(cols, r)
    ensures Readable(CellsOf(cols, r))
  {
    forall i | 0 <= i < |cols|
      ensures GoodCell(CellsOf(cols, r)[i])
    {
      assert GoodValue(cols[i], r.vals[i]);
      GoodIsGood(cols[i], r.vals[i]);
    }
  }

  /** Statement k has as many rows as batch k. */
  predicate SameSize(sent: seq<string>, bs: seq<seq<string>>, k: nat) {
    k < |sent| == |bs| && ReadInsert(sent[k]).Some? && |ReadInsert(sent[k]).value.rows| == |bs[k]|
  }

  lemma SizeBehind(sql: string, sent: seq<string>, b: seq<string>, bs: seq<seq<string>>, k: nat)
    requires SameSize(sent, bs, k)
    ensures SameSize([sql] + sent, [b] + bs, k + 1)
  {
  }

  lemma SizeFirst(sql: string, sent: seq<string>, b: seq<string>, bs: seq<seq<string>>)
    requires |sent| == |bs| && ReadInsert(sql).Some? && |ReadInsert(sql).value.rows| == |b|
    ensures SameSize([sql] + sent, [b] + bs, 0)
  {
  }

  lemma {:induction false} StatementSize(table: string, names: seq<string>, rows: seq<seq<Cell>>, n: nat, k: nat)
    requires PlainHeader(table, names) && AllReadable(rows) && n > 0 && k < |Batches(RowTexts(rows), n)|
    ensures SameSize(Pusher.InsertAll(Header(table, names), Batches(RowTexts(rows), n)), Batches(RowTexts(rows), n), k)
    decreases |rows|
  {
    FirstBatch(rows, n);
    if k == 0 {
      FirstSize(table, names, FirstRows(rows, n), Batches(RowTexts(OtherRows(rows, n)), n));
    } else {
      StatementSize(table, names, OtherRows(rows, n), n, k - 1);
      LaterSize(table, names, FirstRows(rows, n), Batches(RowTexts(OtherRows(rows, n)), n), k - 1);
    }
  }

  lemma FirstSize(table: string, names: seq<string>, rows: seq<seq<Cell>>, bs: seq<seq<string>>)
    requires PlainHeader(table, names) && AllReadable(rows) && rows != []
    ensures SameSize(Pusher.InsertAll(Header(table, names), [RowTexts(rows)] + bs), [RowTexts(rows)] + bs, 0)
  {
    var header := Header(table, names);
    StatementIsRead(table, names, rows);
    InsertAllCons(header, RowTexts(rows), bs);
    SizeFirst(header + TupleList(RowTexts(rows)), Pusher.InsertAll(header, bs), RowTexts(rows), bs);
  }

  lemma LaterSize(table: string, names: seq<string>, rows: seq<seq<Cell>>, bs: seq<seq<string>>, k: nat)
    requires SameSize(Pusher.InsertAll(Header(table, names), bs), bs, k)
    ensures SameSize(Pusher.InsertAll(Header(table, names), [RowTexts(rows)] + bs), [RowTexts(rows)] + bs, k + 1)
  {
    var header := Header(table, names);
    InsertAllCons(header, RowTexts(rows), bs);
    SizeBehind(header + TupleList(RowTexts(rows)), Pusher.InsertAll(header, bs), RowTexts(rows), bs, k);
  }

  lemma AllSized(table: string, names: seq<string>, rows: seq<seq<Cell>>, threshold: int)
    requires PlainHeader(table, names) && AllReadable(rows)
    ensures Sized(Pusher.InsertAll(Header(table, names), Batches(RowTexts(rows), BatchSize(threshold))), threshold)
  {
    var n := BatchSize(threshold);
    var bs := Batches(RowTexts(rows), n);
    var sent := Pusher.InsertAll(Header(table, names), bs);
    BatchesAre(RowTexts(rows), n);
    forall k: nat | k < |sent|
      ensures SizedAt(sent, threshold, k)
    {
      StatementSize(table, names, rows, n, k);
    }
  }

  /** Every statement has as many rows as the threshold asks for, but at least one; the last may have fewer. */
  predicate Sized(sent: seq<string>, threshold: int) {
    forall k :: 0 <= k < |sent| ==> SizedAt(sent, threshold, k)
  }

  predicate SizedAt(sent: seq<string>, threshold: int, k: nat)
    requires k < |sent|
  {
    && ReadInsert(sent[k]).Some?
    && var n := |ReadInsert(sent[k]).value.rows|;
    0 < n && (if threshold > 1 then n <= threshold else n == 1) && (k < |sent| - 1 && threshold > 1 ==> n == threshold)
  }

  /**
   The statements of a push, for a table whose stored values are good and have no line breaks where they are written:
   all are for the table and its columns, and together they bring each stored row once, in order, with its values.
   */
  lemma TableArrives(table: string, names: seq<string>, cols: seq<Schema.Column>, slots: Slots, threshold: int)
    requires PlainHeader(table, names) && cols != [] && GoodRows(cols, slots)
    requires forall i :: 0 <= i < |StoredRows(slots)| ==> GoodStored(cols, StoredRows(slots)[i])
    ensures var lines := UntilBlank(Split(Unlines(DumpLines(cols, slots))));
            var sent := Pusher.InsertAll(Header(table, names), Batches(lines, BatchSize(threshold)));
            var rs := StoredRows(slots);
            && AllFor(sent, table, names) && Sized(sent, threshold) && |RowsOf(sent)| == |rs|
            && forall i :: 0 <= i < |rs| ==> |rs[i].vals| == |cols| && Arrived(cols, rs[i].vals, RowsOf(sent)[i])
  {
    var rs := StoredRows(slots);
    AllRowsPushed(cols, slots);
    DumpedCells(cols, slots);
    forall i | 0 <= i < |rs|
      ensures Readable(CellRows(cols, rs)[i]) && Arrived(cols, rs[i].vals, AllRowsMeant(CellRows(cols, rs))[i])
    {
      GoodReadable(cols, rs[i]);
      MeantArrives(cols, rs[i]);
    }
    BatchesAreRead(table, names, CellRows(cols, rs), BatchSize(threshold));
    AllSized(table, names, CellRows(cols, rs), threshold);
  }
}
