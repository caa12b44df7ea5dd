/** Pushing a dumped table: the sentinel becomes null, and rows go out in batches. */
module Pusher {
  import opened Text
  import opened Lines
  import opened LineReader
  import opened QuotedText
  import opened Dump

  const SENTINEL := "_NUll_&"
  const QUOTED_SENTINEL := "'_NUll_&'"

  /** As boost::replace_all: from the left, without looking at what was put in; null replaces the quoted sentinel. */
  function ReplaceAll(s: string): string
    decreases |s|
  {
    if |s| < |QUOTED_SENTINEL| then s
    else if QUOTED_SENTINEL <= s then "null" + ReplaceAll(s[|QUOTED_SENTINEL|..])
    else [s[0]] + ReplaceAll(s[1..])
  }

  // ---------- null ----------

  /** What a cell should be sent as. */
  function SentText(c: Cell): string {
    if c == Literal(SENTINEL) then "null" else CellText(c)
  }

  function SentTexts(cs: seq<Cell>): (ts: seq<string>)
    ensures |ts| == |cs| && forall i :: 0 <= i < |cs| ==> ts[i] == SentText(cs[i])
  {
    seq(|cs|, i requires 0 <= i < |cs| => SentText(cs[i]))
  }

  /** A literal whose value ends in a quote and the sentinel. */
  predicate Tricky(v: string) {
    |v| > |SENTINEL| && v[|v| - |SENTINEL| - 1..] == "'" + SENTINEL
  }

  predicate TrickyCell(c: Cell) {
    c.Literal? && Tricky(c.value)
  }

  lemma Skip(s: string)
    requires s != "" && s[0] != '\''
    ensures ReplaceAll(s) == [s[0]] + ReplaceAll(s[1..])
  {
    if |s| < |QUOTED_SENTINEL| {
      assert [s[0]] + s[1..] == s;
    }
  }

  lemma HeadOf(p: string, t: string)
    requires p != ""
    ensures p[0] in p && p + t != "" && (p + t)[0] == p[0] && (p + t)[1..] == p[1..] + t
    ensures [p[0]] + (p[1..] + t) == p + t
  {
  }

  lemma {:induction false} SkipPlain(p: string, t: string)
    requires '\'' !in p
    ensures ReplaceAll(p + t) == p + ReplaceAll(t)
  {
    if p == "" {
      assert p + t == t && "" + ReplaceAll(t) == ReplaceAll(t);
    } else {
      HeadOf(p, t);
      HeadOf(p, ReplaceAll(t));
      Skip(p + t);
      SkipPlain(p[1..], t);
    }
  }

  lemma PrefixCons(a: char, s: string, b: char, t: string)
    ensures [a] + s <= [b] + t <==> a == b && s <= t
  {
    var left, right := [a] + s, [b] + t;
    assert |left| == 1 + |s| && |right| == 1 + |t|;
    if left <= right {
      assert right[..|left|] == left && left[0] == right[0];
      assert t[..|s|] == right[1..|left|] == s;
    }
    if a == b && s <= t {
      assert right[..|left|] == left;
    }
  }

  /** A quote that does not begin the quoted sentinel. */
  lemma SkipQuote(t: string)
    requires !(SENTINEL + "'" <= t)
    ensures ReplaceAll("'" + t) == "'" + ReplaceAll(t)
  {
    var s := "'" + t;
    assert s[1..] == t;
    assert QUOTED_SENTINEL == "'" + (SENTINEL + "'");
    PrefixCons('\'', SENTINEL + "'", '\'', t);
    if |s| < |QUOTED_SENTINEL| {
      assert "'" + t == s;
    }
  }

  lemma TakeQuoted(t: string)
    ensures ReplaceAll("'" + (SENTINEL + "'" + t)) == "null" + ReplaceAll(t)
  {
    var s := "'" + (SENTINEL + "'" + t);
    assert s == QUOTED_SENTINEL + t;
    assert s[|QUOTED_SENTINEL|..] == t;
  }

  /** A quoted value begins like the sentinel only if it is the sentinel. */
  lemma {:induction false} BeginsLike(p: string, v: string, rest: string)
    requires '\'' !in p && '\\' !in p
    ensures p + "'" <= Closed(v, rest) <==> v == p
  {
    ClosedParts(v, rest);
    var t := Closed(v, rest);
    if p == "" {
      FirstOfClosed(v, rest);
      assert p + "'" == "'" && ("'" <= t <==> t[0] == '\'');
    } else if v == "" || v[0] == '\'' {
      assert t[0] != p[0] by {
        assert p[0] in p;
      }
      assert (p + "'")[0] == p[0];
    } else {
      BeginsLike(p[1..], v[1..], rest);
      assert p + "'" == [p[0]] + (p[1..] + "'");
      PrefixCons(p[0], p[1..] + "'", v[0], Closed(v[1..], rest));
      assert v == [v[0]] + v[1..] && p == [p[0]] + p[1..];
    }
  }

  /** What becomes of a value's text, its opening quote left out. */
  function Shortened(v: string): string
    requires Tricky(v)
  {
    Escape(v[..|v| - |SENTINEL| - 1]) + "\\null"
  }

  lemma TrickyTail(v: string)
    requires v != ""
    ensures Tricky(v) <==> v == "'" + SENTINEL || Tricky(v[1..])
    ensures Tricky(v[1..]) ==> v[..|v| - |SENTINEL| - 1] == [v[0]] + v[1..][..|v| - |SENTINEL| - 2]
  {
    if Tricky(v) && |v| > |SENTINEL| + 1 {
      assert v[1..][|v| - 1 - |SENTINEL| - 1..] == v[|v| - |SENTINEL| - 1..];
    }
    if Tricky(v[1..]) {
      assert v[1..][|v| - 1 - |SENTINEL| - 1..] == v[|v| - |SENTINEL| - 1..];
    }
    if v == "'" + SENTINEL {
      assert v[0..] == v;
    }
    if Tricky(v) && |v| == |SENTINEL| + 1 {
      assert v[0..] == v;
    }
  }

  predicate FieldEnd(rest: string) {
    rest == "" || rest[0] == ','
  }

  lemma ValueStep(v: string, rest: string)
    requires v != "" && v[0] == '\'' && v != "'" + SENTINEL
    ensures ReplaceAll(Closed(v, rest)) == "\\'" + ReplaceAll(Closed(v[1..], rest))
  {
    var t := Closed(v[1..], rest);
    ClosedParts(v, rest);
    assert Closed(v, rest) == "\\" + ("'" + t);
    SkipPlain("\\", "'" + t);
    BeginsLike(SENTINEL, v[1..], rest);
    assert v == "'" + v[1..];
    SkipQuote(t);
  }

  lemma QuoteThen(p: string, rest: string)
    requires '\'' !in p
    ensures Closed("'" + p, rest) == "\\" + ("'" + (p + "'" + rest)) && Escape("'" + p) == "\\'" + p
  {
    EscapePlain(p);
    assert ("'" + p)[1..] == p;
    ClosedParts("'" + p, rest);
  }

  lemma SentinelEnds(rest: string)
    ensures ReplaceAll(Closed("'" + SENTINEL, rest)) == "\\" + ("null" + ReplaceAll(rest))
  {
    QuoteThen(SENTINEL, rest);
    SkipPlain("\\", "'" + (SENTINEL + "'" + rest));
    TakeQuoted(rest);
  }

  lemma EmptyEnds(rest: string)
    requires FieldEnd(rest)
    ensures ReplaceAll(Closed("", rest)) == "'" + ReplaceAll(rest)
  {
    ClosedParts("", rest);
    assert SENTINEL[0] == '_' && (SENTINEL + "'")[0] == '_';
    SkipQuote(rest);
  }

  lemma {:induction false} EscapePlain(s: string)
    requires '\'' !in s
    ensures Escape(s) == s
  {
    if s != "" {
      EscapePlain(s[1..]);
      assert [s[0]] + s[1..] == s;
    }
  }

  function EscapedHead(v: string): string
    requires v != ""
  {
    if v[0] == '\'' then "\\'" else [v[0]]
  }

  lemma CharStep(v: string, rest: string)
    requires v != "" && v != "'" + SENTINEL
    ensures ReplaceAll(Closed(v, rest)) == EscapedHead(v) + ReplaceAll(Closed(v[1..], rest))
  {
    if v[0] == '\'' {
      ValueStep(v, rest);
    } else {
      ClosedParts(v, rest);
      assert Closed(v, rest)[1..] == Closed(v[1..], rest);
      Skip(Closed(v, rest));
    }
  }

  lemma PlainStep(v: string, after: string)
    requires v != ""
    ensures EscapedHead(v) + (Escape(v[1..]) + "'" + after) == Escape(v) + "'" + after
  {
    assert Escape(v) == EscapedHead(v) + Escape(v[1..]);
  }

  lemma ShortenedStep(v: string, after: string)
    requires v != "" && v != "'" + SENTINEL && Tricky(v) && Tricky(v[1..])
    ensures EscapedHead(v) + (Shortened(v[1..]) + after) == Shortened(v) + after
  {
    ShortenedTail(v, EscapedHead(v));
  }

  /** Inside a literal only a tricky value is touched. */
  lemma {:induction false} InValue(v: string, rest: string)
    requires FieldEnd(rest)
    ensures !Tricky(v) ==> ReplaceAll(Closed(v, rest)) == Escape(v) + "'" + ReplaceAll(rest)
    ensures Tricky(v) ==> ReplaceAll(Closed(v, rest)) == Shortened(v) + ReplaceAll(rest)
  {
    if v == "" {
      EmptyEnds(rest);
    } else if v == "'" + SENTINEL {
      SentinelEnds(rest);
      ShortenedSentinel(v, ReplaceAll(rest));
    } else {
      TrickyTail(v);
      InValue(v[1..], rest);
      CharStep(v, rest);
      if Tricky(v) {
        ShortenedStep(v, ReplaceAll(rest));
      } else {
        PlainStep(v, ReplaceAll(rest));
      }
    }
  }

  lemma ShortenedSentinel(v: string, after: string)
    requires v == "'" + SENTINEL
    ensures Tricky(v) && Shortened(v) + after == "\\" + ("null" + after)
  {
    assert v[0..] == v && v[..0] == "";
    assert Shortened(v) == "\\null";
  }

  lemma ShortenedTail(v: string, head: string)
    requires v != "" && Tricky(v) && v != "'" + SENTINEL && Tricky(v[1..])
    requires head == if v[0] == '\'' then "\\'" else [v[0]]
    ensures Shortened(v) == head + Shortened(v[1..])
  {
    TrickyTail(v);
    var a, b := v[..|v| - |SENTINEL| - 1], v[1..][..|v| - |SENTINEL| - 2];
    assert a == [v[0]] + b;
    assert a[0] == v[0] && a[1..] == b;
    assert Escape(a) == head + Escape(b);
  }

  // ---------- a whole line ----------

  /** A cell at the start of a line or after a comma. */
  lemma InCell(c: Cell, rest: string)
    requires FieldEnd(rest)
    ensures !TrickyCell(c) ==> ReplaceAll(CellText(c) + rest) == SentText(c) + ReplaceAll(rest)
    ensures TrickyCell(c) ==> ReplaceAll(CellText(c) + rest) == "'" + Shortened(c.value) + ReplaceAll(rest)
  {
    match c
    case Default =>
      SkipPlain("DEFAULT", rest);
    case Literal(v) =>
      assert Quoted(v) + rest == "'" + Closed(v, rest);
      BeginsLike(SENTINEL, v, rest);
      if v == SENTINEL {
        SentinelCell(rest);
      } else {
        SkipQuote(Closed(v, rest));
        InValue(v, rest);
        CellGroups(v, ReplaceAll(rest));
      }
  }

  lemma SentinelCell(rest: string)
    ensures ReplaceAll("'" + Closed(SENTINEL, rest)) == "null" + ReplaceAll(rest) && !Tricky(SENTINEL)
  {
    EscapePlain(SENTINEL);
    TakeQuoted(rest);
  }

  lemma CellGroups(v: string, after: string)
    ensures "'" + (Escape(v) + "'" + after) == Quoted(v) + after
    ensures Tricky(v) ==> "'" + (Shortened(v) + after) == "'" + Shortened(v) + after
  {
  }

  lemma {:induction false} EscapeAppend(s: string, t: string)
    ensures Escape(s + t) == Escape(s) + Escape(t)
  {
    if s == "" {
      assert s + t == t;
    } else {
      assert (s + t)[1..] == s[1..] + t;
      EscapeAppend(s[1..], t);
    }
  }

  lemma ShorterThanSent(c: Cell)
    requires TrickyCell(c)
    ensures |"'" + Shortened(c.value)| < |SentText(c)|
  {
    TrickyLength(c.value[..|c.value| - |SENTINEL| - 1], SENTINEL);
    assert c.value == c.value[..|c.value| - |SENTINEL| - 1] + ("'" + SENTINEL);
  }

  lemma TrickyLength(p: string, q: string)
    requires '\'' !in q
    ensures |Escape(p + ("'" + q))| == |Escape(p)| + 2 + |q|
  {
    EscapeAppend(p, "'" + q);
    QuoteThen(q, "");
  }

  predicate NoneTricky(cs: seq<Cell>) {
    forall i :: 0 <= i < |cs| ==> !TrickyCell(cs[i])
  }

  lemma RowTextParts(cs: seq<Cell>)
    requires |cs| > 1
    ensures RowText(cs) == CellText(cs[0]) + ("," + RowText(cs[1..]))
    ensures Join(SentTexts(cs), ',') == SentText(cs[0]) + ("," + Join(SentTexts(cs[1..]), ','))
  {
    assert CellTexts(cs)[1..] == CellTexts(cs[1..]);
    assert SentTexts(cs)[1..] == SentTexts(cs[1..]);
  }

  lemma CommaStep(t: string)
    ensures ReplaceAll("," + t) == "," + ReplaceAll(t)
  {
    SkipPlain(",", t);
  }

  lemma {:induction false} LineParts(cs: seq<Cell>)
    requires cs != []
    ensures NoneTricky(cs) ==> ReplaceAll(RowText(cs)) == Join(SentTexts(cs), ',')
    ensures !NoneTricky(cs) ==> |ReplaceAll(RowText(cs))| < |Join(SentTexts(cs), ',')|
  {
    var c := cs[0];
    if TrickyCell(c) {
      ShorterThanSent(c);
    }
    if |cs| == 1 {
      assert RowText(cs) == CellText(c) + "" && Join(SentTexts(cs), ',') == SentText(c);
      InCell(c, "");
      assert NoneTricky(cs) <==> !TrickyCell(c);
    } else {
      var tail := cs[1..];
      RowTextParts(cs);
      InCell(c, "," + RowText(tail));
      CommaStep(RowText(tail));
      LineParts(tail);
      NoneTrickyCons(cs);
    }
  }

  lemma NoneTrickyCons(cs: seq<Cell>)
    requires |cs| > 1
    ensures NoneTricky(cs) <==> !TrickyCell(cs[0]) && NoneTricky(cs[1..])
  {
    if !TrickyCell(cs[0]) && NoneTricky(cs[1..]) {
      forall i | 0 <= i < |cs|
        ensures !TrickyCell(cs[i])
      {
        if i > 0 {
          assert cs[i] == cs[1..][i - 1];
        }
      }
    }
  }

  /**
   In a dumped line the replacement turns exactly the cells that are the sentinel into null, and leaves all
   others alone, if and only if no written value ends in a quote and the sentinel.
   */
  lemma NullsExactly(cs: seq<Cell>)
    ensures ReplaceAll(RowText(cs)) == Join(SentTexts(cs), ',') <==> NoneTricky(cs)
  {
    if cs != [] {
      LineParts(cs);
    }
  }

  // ---------- batches ----------

  /** The lines up to the first blank one. */
  function UntilBlank(ls: seq<string>): seq<string> {
    if ls == [] || ls[0] == "" then [] else [ls[0]] + UntilBlank(ls[1..])
  }

  /** The rows in runs of n, the last of which may be shorter. */
  function Batches(rows: seq<string>, n: nat): seq<seq<string>>
    requires n > 0
    decreases |rows|
  {
    if rows == [] then [] else if |rows| <= n then [rows] else [rows[..n]] + Batches(rows[n..], n)
  }

  function Flat(bs: seq<seq<string>>): seq<string> {
    if bs == [] then [] else bs[0] + Flat(bs[1..])
  }

  /** No batch is empty or too long, all but the last are full, and together they are the rows in order. */
  lemma {:induction false} BatchesAre(rows: seq<string>, n: nat)
    requires n > 0
    ensures Flat(Batches(rows, n)) == rows
    ensures forall k :: 0 <= k < |Batches(rows, n)| ==> 0 < |Batches(rows, n)[k]| <= n
    ensures forall k :: 0 <= k < |Batches(rows, n)| - 1 ==> |Batches(rows, n)[k]| == n
    decreases |rows|
  {
    if |rows| > n {
      BatchesAre(rows[n..], n);
      assert rows == rows[..n] + rows[n..];
    } else if rows != [] {
      assert Flat([rows]) == rows + Flat([]);
    }
  }

  lemma FullBatch(rows: seq<string>, more: seq<string>, n: nat)
    requires n > 0 && |rows| == n
    ensures Batches(rows + more, n) == [rows] + Batches(more, n)
  {
    if more == [] {
      assert rows + more == rows && Batches(rows, n) == [rows] && [rows] + [] == [rows];
    } else {
      assert (rows + more)[..n] == rows && (rows + more)[n..] == more;
    }
  }

  function Header(tableName: string, cols: seq<string>): string {
    "INSERT INTO `" + tableName + "` (" + Join(cols, ',') + ") VALUES "
  }

  /** The rows of one statement. */
  function Tuples(rows: seq<string>): (ts: seq<string>)
    ensures |ts| == |rows|
  {
    seq(|rows|, i requires 0 <= i < |rows| => "(" + ReplaceAll(rows[i]) + ")")
  }

  function TupleList(rows: seq<string>): string {
    Join(Tuples(rows), ',')
  }

  function InsertAll(header: string, bs: seq<seq<string>>): (sql: seq<string>)
    ensures |sql| == |bs| && forall k :: 0 <= k < |bs| ==> sql[k] == header + TupleList(bs[k])
  {
    if bs == [] then [] else [header + TupleList(bs[0])] + InsertAll(header, bs[1..])
  }

  method ReadHeader(tableName: string, headerFile: string) returns (pushSQLHeader: string)
    ensures pushSQLHeader == Header(tableName, Split(headerFile))
  {
    var start := "INSERT INTO `" + tableName + "` (";
    var names := "";
    var rest := headerFile;
    ghost var all, k := Split(headerFile), 0;
    var isFirst := true;
    while rest != ""
      invariant 0 <= k <= |all| && Split(rest) == all[k..] && isFirst == (k == 0)
      invariant names == Join(all[..k], ',')
      decreases |rest|
    {
      var line := FirstLine(rest);
      assert all[k] == line.0 && Split(line.1) == all[k + 1..] by {
        assert Split(rest) == [line.0] + Split(line.1);
      }
      assert all[..k + 1] == all[..k] + [all[k]];
      JoinSnoc(all[..k], all[k], ',');
      names := if isFirst then line.0 else names + "," + line.0;
      isFirst := false;
      rest, k := line.1, k + 1;
    }
    assert all[..k] == all;
    pushSQLHeader := start + names + ") VALUES ";
  }

  lemma TupleListSnoc(rows: seq<string>, row: string)
    ensures TupleList(rows + [row]) == (if rows == [] then "" else TupleList(rows) + ",") + "(" + ReplaceAll(row) + ")"
  {
    assert Tuples(rows + [row]) == Tuples(rows) + ["(" + ReplaceAll(row) + ")"];
    JoinSnoc(Tuples(rows), "(" + ReplaceAll(row) + ")", ',');
  }

  lemma {:induction false} InsertSnoc(header: string, bs: seq<seq<string>>, b: seq<string>)
    ensures InsertAll(header, bs + [b]) == InsertAll(header, bs) + [header + TupleList(b)]
  {
    if bs == [] {
      assert (bs + [b])[1..] == [];
    } else {
      assert (bs + [b])[1..] == bs[1..] + [b];
      InsertSnoc(header, bs[1..], b);
    }
  }

  /** The row is added to the statement being built. */
  method AddRow(pushSQLContent: string, contentCount: nat, line: string, ghost rows: seq<string>)
    returns (content: string)
    requires pushSQLContent == TupleList(rows) && contentCount == |rows|
    ensures content == TupleList(rows + [line])
  {
    TupleListSnoc(rows, line);
    content := pushSQLContent;
    if contentCount != 0 {
      content := content + ",";
    }
    content := content + "(";
    content := content + ReplaceAll(line);
    content := content + ")";
  }

  function BatchSize(threshold: int): (n: nat)
    ensures n > 0
  {
    if threshold > 1 then threshold else 1
  }

  /** The rows still to come when a line has been read. */
  function Coming(line: string, ls: seq<string>): seq<string> {
    UntilBlank([line] + ls)
  }

  lemma NextComing(ls: seq<string>)
    ensures Coming(Head(ls), Tail(ls)) == UntilBlank(ls)
    ensures Head(ls) == "" ==> UntilBlank(ls) == []
  {
    if ls != [] {
      assert [ls[0]] + ls[1..] == ls;
    }
  }

  lemma TakeComing(line: string, ls: seq<string>)
    requires line != ""
    ensures Coming(line, ls) == [line] + UntilBlank(ls)
  {
    assert ([line] + ls)[1..] == ls;
  }

  /** All the batches, when some are done, some rows are waiting and others are still to come. */
  ghost function Progress(done: seq<seq<string>>, rows: seq<string>, coming: seq<string>, n: nat): seq<seq<string>>
    requires n > 0
  {
    done + Batches(rows + coming, n)
  }

  lemma ProgressTake(done: seq<seq<string>>, rows: seq<string>, line: string, coming: seq<string>, n: nat)
    requires n > 0
    ensures Progress(done, rows, [line] + coming, n) == Progress(done, rows + [line], coming, n)
  {
    assert rows + ([line] + coming) == rows + [line] + coming;
  }

  lemma ProgressFull(done: seq<seq<string>>, rows: seq<string>, coming: seq<string>, n: nat)
    requires n > 0 && |rows| == n
    ensures Progress(done, rows, coming, n) == Progress(done + [rows], [], coming, n)
  {
    FullBatch(rows, coming, n);
    assert [] + coming == coming;
    assert done + ([rows] + Batches(coming, n)) == done + [rows] + Batches(coming, n);
  }

  lemma ProgressEnd(done: seq<seq<string>>, rows: seq<string>, n: nat)
    requires n > 0 && |rows| < n
    ensures Progress(done, rows, [], n) == if rows == [] then done else done + [rows]
  {
    assert rows + [] == rows;
  }

  /** The statements sent so far, and the one being built. */
  class Sender {
    const header: string
    const threshold: int
    var sent: seq<string>
    var pushSQLContent: string
    var contentCount: nat
    ghost var done: seq<seq<string>>
    ghost var rows: seq<string>

    ghost predicate Valid()
      reads this
    {
      && contentCount == |rows| < BatchSize(threshold) && pushSQLContent == TupleList(rows)
      && sent == InsertAll(header, done)
    }

    ghost function All(coming: seq<string>): seq<seq<string>>
      reads this
    {
      Progress(done, rows, coming, BatchSize(threshold))
    }

    constructor (header: string, threshold: int)
      ensures Valid() && this.header == header && this.threshold == threshold && done == [] && rows == []
    {
      this.header, this.threshold := header, threshold;
      sent, pushSQLContent, contentCount := [], "", 0;
      done, rows := [], [];
    }

    method Flush()
      requires sent == InsertAll(header, done) && pushSQLContent == TupleList(rows)
      modifies this
      ensures Valid() && done == old(done) + [old(rows)] && rows == []
    {
      InsertSnoc(header, done, rows);
      sent := sent + [header + pushSQLContent];
      done, rows := done + [rows], [];
      contentCount := 0;
      pushSQLContent := "";
    }

    method Add(line: string, ghost coming: seq<string>)
      requires Valid()
      modifies this
      ensures Valid() && All(coming) == old(All([line] + coming))
    {
      ProgressTake(done, rows, line, coming, BatchSize(threshold));
      pushSQLContent := AddRow(pushSQLContent, contentCount, line, rows);
      rows := rows + [line];
      contentCount := contentCount + 1;
      if contentCount >= threshold {
        ProgressFull(done, rows, coming, BatchSize(threshold));
        Flush();
      }
    }

    method Finish()
      requires Valid()
      modifies this
      ensures sent == InsertAll(header, old(All([])))
    {
      ProgressEnd(done, rows, BatchSize(threshold));
      if contentCount != 0 {
        Flush();
      }
    }
  }

  /** The statements sent for a dumped table. */
  method PushFromFile(pushSQLHeader: string, resultFile: string, threshold: int) returns (sent: seq<string>)
    ensures sent == InsertAll(pushSQLHeader, Batches(UntilBlank(Split(resultFile)), BatchSize(threshold)))
  {
    var ioHelper := new IOHelper(resultFile);
    var sender := new Sender(pushSQLHeader, threshold);
    ghost var coming := UntilBlank(Split(resultFile));
    ghost var all := sender.All(coming);
    assert [] + coming == coming && [] + Batches(coming, BatchSize(threshold)) == Batches(coming, BatchSize(threshold));
    NextComing(ioHelper.Left());
    var line := ioHelper.GetLine();
    while line != ""
      invariant fresh(ioHelper) && fresh(sender) && sender.Valid() && sender.All(coming) == all
      invariant coming == Coming(line, ioHelper.Left()) && (line == "" ==> coming == [])
      decreases |coming|
    {
      TakeComing(line, ioHelper.Left());
      NextComing(ioHelper.Left());
      coming := coming[1..];
      sender.Add(line, coming);
      line := ioHelper.GetLine();
    }
    sender.Finish();
    sent := sender.sent;
  }
}
