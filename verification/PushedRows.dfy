/** From a stored row to the row that the database holds after the push. */
module PushedRows {
  import opened Text
  import opened Lines
  import opened Merge
  import opened QuotedText
  import opened Dump
  import opened Pusher
  import opened PushTheorems
  import Schema
  import Events = RowText
  import WrittenRows

  // ---------- one row ----------

  /** What the database puts into a column for a field: its default, null, or the value. */
  function InDatabase(c: Schema.Column, f: Field): Option<string> {
    match f
    case FDefault => c.def
    case FNull => None
    case FValue(v) => Some(v)
  }

  /** The stored value, or null where it is the sentinel and not the column's default. */
  function Wanted(c: Schema.Column, v: string): Option<string> {
    if v == "_NUll_&" && c.def != Some(v) then None else Some(v)
  }

  /**
   A value that differs from its column's default does not end in a quote and the sentinel, and is the sentinel or has
   backslashes only before percent signs and underscores.
   */
  ghost predicate GoodValue(c: Schema.Column, v: string) {
    c.def == Some(v) || (!Tricky(v) && (v == "_NUll_&" || AllSafe(v)))
  }

  ghost predicate GoodValues(cols: seq<Schema.Column>, vals: seq<string>)
    requires |cols| == |vals|
  {
    forall i :: 0 <= i < |cols| ==> GoodValue(cols[i], vals[i])
  }

  predicate Arrived(cols: seq<Schema.Column>, vals: seq<string>, fs: seq<Field>)
    requires |cols| == |vals|
  {
    |fs| == |cols| && forall i :: 0 <= i < |cols| ==> InDatabase(cols[i], fs[i]) == Wanted(cols[i], vals[i])
  }

  lemma GoodIsGood(c: Schema.Column, v: string)
    ensures GoodValue(c, v) <==> GoodCell(CellOf(c, v))
    ensures InDatabase(c, Meant(CellOf(c, v))) == Wanted(c, v)
  {
    SentinelCell("");
  }

  function Tail(r: Record): Record
    requires r.vals != []
  {
    Record(r.vals[1..], r.source, r.stamp)
  }

  lemma CellsTail(cols: seq<Schema.Column>, r: Record)
    requires |cols| == |r.vals| > 0
    ensures CellsOf(cols, r)[0] == CellOf(cols[0], r.vals[0]) && CellsOf(cols, r)[1..] == CellsOf(cols[1..], Tail(r))
  {
    forall i | 0 <= i < |cols| - 1
      ensures At(r, i + 1) == At(Tail(r), i)
    {
    }
  }

  lemma GoodValuesCons(cols: seq<Schema.Column>, vals: seq<string>)
    requires |cols| == |vals| > 0
    ensures GoodValues(cols, vals) <==> GoodValue(cols[0], vals[0]) && GoodValues(cols[1..], vals[1..])
  {
    if GoodValue(cols[0], vals[0]) && GoodValues(cols[1..], vals[1..]) {
      forall i | 0 <= i < |cols|
        ensures GoodValue(cols[i], vals[i])
      {
        assert i > 0 ==> cols[i] == cols[1..][i - 1] && vals[i] == vals[1..][i - 1];
      }
    }
  }

  lemma ArrivedCons(cols: seq<Schema.Column>, vals: seq<string>, f: Field, fs: seq<Field>)
    requires |cols| == |vals| > 0
    ensures Arrived(cols, vals, [f] + fs) <==>
            InDatabase(cols[0], f) == Wanted(cols[0], vals[0]) && Arrived(cols[1..], vals[1..], fs)
  {
    var all := [f] + fs;
    if Arrived(cols, vals, all) {
      assert all[0] == f;
      forall i | 0 <= i < |cols| - 1
        ensures InDatabase(cols[1..][i], fs[i]) == Wanted(cols[1..][i], vals[1..][i])
      {
        assert fs[i] == all[i + 1];
      }
    }
    if InDatabase(cols[0], f) == Wanted(cols[0], vals[0]) && Arrived(cols[1..], vals[1..], fs) {
      forall i | 0 <= i < |cols|
        ensures InDatabase(cols[i], all[i]) == Wanted(cols[i], vals[i])
      {
        assert i > 0 ==> cols[i] == cols[1..][i - 1] && vals[i] == vals[1..][i - 1] && all[i] == fs[i - 1];
      }
    }
  }

  /** A bad first value does not arrive. */
  lemma FirstArrives(cols: seq<Schema.Column>, r: Record, fs: seq<Field>)
    requires |cols| == |r.vals| > 0
    requires ReadFields(ReplaceAll(RowText(CellsOf(cols, r)))) == Some(fs) && Arrived(cols, r.vals, fs)
    ensures GoodValue(cols[0], r.vals[0])
  {
    var cs := CellsOf(cols, r);
    var c := cs[0];
    CellsTail(cols, r);
    GoodIsGood(cols[0], r.vals[0]);
    if c.Literal? && c.value != SENTINEL {
      SentLine(cs);
      var rest := if |cs| == 1 then "" else "," + ReplaceAll(RowText(cs[1..]));
      FirstRead(Sent(c, rest), fs[0]);
      assert Sent(c, rest)[0] == '\'';
      SentExact(c, rest);
    }
  }

  /** What the database is to read for a row, if it does. */
  predicate Arrives(cols: seq<Schema.Column>, r: Record)
    requires |cols| == |r.vals|
  {
    var fs := ReadFields(ReplaceAll(RowText(CellsOf(cols, r))));
    fs.Some? && Arrived(cols, r.vals, fs.value)
  }

  lemma LastArrives(cols: seq<Schema.Column>, r: Record)
    requires |r.vals| == |cols| == 1 && GoodValue(cols[0], r.vals[0])
    ensures Arrives(cols, r)
  {
    var c := CellOf(cols[0], r.vals[0]);
    CellsTail(cols, r);
    GoodIsGood(cols[0], r.vals[0]);
    ReadFieldsStep(CellsOf(cols, r));
    ArrivedCons(cols, r.vals, Meant(c), []);
    assert [Meant(c)] + [] == [Meant(c)];
  }

  lemma NextArrives(cols: seq<Schema.Column>, r: Record)
    requires |r.vals| == |cols| > 1 && GoodValue(cols[0], r.vals[0])
    ensures Arrives(cols, r) <==> Arrives(cols[1..], Tail(r))
  {
    CellsTail(cols, r);
    GoodIsGood(cols[0], r.vals[0]);
    ReadFieldsStep(CellsOf(cols, r));
    var more := ReadFields(ReplaceAll(RowText(CellsOf(cols[1..], Tail(r)))));
    if more.Some? {
      ArrivedCons(cols, r.vals, Meant(CellOf(cols[0], r.vals[0])), more.value);
    }
  }

  /**
   The database stores a pushed row as it was in the merged table, null for the sentinel, if and only if its values are
   good. Where the sentinel is the column's default, the default is stored.
   */
  lemma {:induction false} RowArrives(cols: seq<Schema.Column>, r: Record)
    requires cols != [] && |r.vals| == |cols|
    ensures var fs := ReadFields(ReplaceAll(RowText(CellsOf(cols, r))));
            fs.Some? && Arrived(cols, r.vals, fs.value) <==> GoodValues(cols, r.vals)
    decreases |cols|
  {
    GoodValuesCons(cols, r.vals);
    if !GoodValue(cols[0], r.vals[0]) {
      if Arrives(cols, r) {
        FirstArrives(cols, r, ReadFields(ReplaceAll(RowText(CellsOf(cols, r)))).value);
      }
    } else if |cols| == 1 {
      LastArrives(cols, r);
    } else {
      NextArrives(cols, r);
      RowArrives(cols[1..], Tail(r));
    }
  }

  // ---------- from the event ----------

  /** A null arrives as null, unless the column's default is the sentinel; any other value as itself. */
  function FromEvent(c: Schema.Column, v: Events.Value): Option<string> {
    match v
    case Null => if c.def == Some("_NUll_&") then Some("_NUll_&") else None
    case Str(s) => Wanted(c, s)
    case Other(s) => Wanted(c, s)
  }

  /** A row event that is written, parsed, dumped and pushed with good values arrives. */
  lemma EventArrives(cols: seq<Schema.Column>, vals: seq<Events.Value>, source: int, stamp: int)
    requires cols != [] && |vals| == |cols| && GoodValues(cols, WrittenRows.RecordOf(vals, source, stamp).vals)
    ensures var fs := ReadFields(ReplaceAll(RowText(CellsOf(cols, WrittenRows.RecordOf(vals, source, stamp)))));
            && fs.Some? && |fs.value| == |cols|
            && forall k :: 0 <= k < |cols| ==> InDatabase(cols[k], fs.value[k]) == FromEvent(cols[k], vals[k])
  {
    var r := WrittenRows.RecordOf(vals, source, stamp);
    RowArrives(cols, r);
    forall k | 0 <= k < |cols|
      ensures Wanted(cols[k], r.vals[k]) == FromEvent(cols[k], vals[k])
    {
      assert r.vals[k] == vals[k].Content();
    }
  }
}
