/** From the merged table to what the database reads. */
module PushTheorems {
  import opened Text
  import opened Lines
  import opened Merge
  import opened QuotedText
  import opened Dump
  import opened Pusher
  import Schema

  // ---------- which rows are pushed ----------

  lemma {:induction false} UntilBlankAll(ls: seq<string>)
    ensures UntilBlank(ls) == ls <==> forall i :: 0 <= i < |ls| ==> ls[i] != ""
    ensures |UntilBlank(ls)| <= |ls| && UntilBlank(ls) == ls[..|UntilBlank(ls)|]
  {
    if ls != [] && ls[0] != "" {
      UntilBlankAll(ls[1..]);
      assert ls == [ls[0]] + ls[1..];
      if forall i :: 0 <= i < |ls| - 1 ==> ls[1..][i] != "" {
        forall i | 0 <= i < |ls|
          ensures ls[i] != ""
        {
          if i > 0 {
            assert ls[1..][i - 1] != "";
          }
        }
      }
    }
  }

  lemma {:induction false} SplitHasNoBreaks(s: string)
    ensures forall i :: 0 <= i < |Split(s)| ==> '\n' !in Split(s)[i]
    decreases |s|
  {
    if s != "" {
      SplitHasNoBreaks(FirstLine(s).1);
    }
  }

  predicate GoodLine(l: string) {
    l != "" && '\n' !in l
  }

  predicate GoodLines(ls: seq<string>) {
    forall i :: 0 <= i < |ls| ==> GoodLine(ls[i])
  }

  /** The pusher takes every line exactly when none of them is blank or contains a line break. */
  lemma AllLinesTaken(ls: seq<string>)
    ensures UntilBlank(Split(Unlines(ls))) == ls <==> GoodLines(ls)
  {
    SplitUnlines(ls);
    UntilBlankAll(Split(Unlines(ls)));
    SplitHasNoBreaks(Unlines(ls));
    UntilBlankAll(ls);
  }

  lemma {:induction false} JoinHas(ts: seq<string>, c: char, d: char)
    requires c != d
    ensures d in Join(ts, c) <==> exists i :: 0 <= i < |ts| && d in ts[i]
    decreases |ts|
  {
    if |ts| > 1 {
      JoinHas(ts[1..], c, d);
      var tail := ts[1..];
      assert forall i :: 0 <= i < |tail| ==> tail[i] == ts[i + 1];
      if exists i :: 0 <= i < |ts| && d in ts[i] {
        var i :| 0 <= i < |ts| && d in ts[i];
        assert i > 0 ==> d in tail[i - 1];
      }
    }
  }

  lemma {:induction false} EscapeHas(v: string, d: char)
    requires d != '\\'
    ensures d in Escape(v) <==> d in v
  {
    if v != "" {
      EscapeHas(v[1..], d);
      assert v == [v[0]] + v[1..];
    }
  }

  predicate Breaks(c: Cell) {
    c.Literal? && '\n' in c.value
  }

  lemma RowTextBreaks(cs: seq<Cell>)
    ensures '\n' in RowText(cs) <==> exists i :: 0 <= i < |cs| && Breaks(cs[i])
    ensures cs != [] ==> RowText(cs) != ""
  {
    var ts := CellTexts(cs);
    JoinHas(ts, ',', '\n');
    forall i | 0 <= i < |cs|
      ensures '\n' in ts[i] <==> Breaks(cs[i])
    {
      if cs[i].Literal? {
        EscapeHas(cs[i].value, '\n');
      }
    }
    assert cs != [] ==> ts[0] == CellText(cs[0]) != "";
  }

  predicate RowBreaks(cols: seq<Schema.Column>, r: Record) {
    exists i :: 0 <= i < |cols| && Breaks(CellsOf(cols, r)[i])
  }

  /** No stored row has a line break in a value that is written. */
  predicate GoodRows(cols: seq<Schema.Column>, slots: Slots) {
    forall i :: 0 <= i < |slots| ==> GoodSlot(cols, slots[i])
  }

  predicate GoodSlot(cols: seq<Schema.Column>, slot: Option<Record>) {
    slot.Some? ==> !RowBreaks(cols, slot.value)
  }

  lemma GoodRow(cols: seq<Schema.Column>, r: Record)
    requires cols != []
    ensures GoodLine(RowText(CellsOf(cols, r))) <==> !RowBreaks(cols, r)
  {
    RowTextBreaks(CellsOf(cols, r));
  }

  lemma GoodLinesSnoc(ls: seq<string>, l: string)
    ensures GoodLines(ls + [l]) <==> GoodLines(ls) && GoodLine(l)
  {
    var all := ls + [l];
    assert forall i :: 0 <= i < |ls| ==> all[i] == ls[i];
    assert all[|ls|] == l;
  }

  lemma GoodRowsSnoc(cols: seq<Schema.Column>, slots: Slots)
    requires slots != []
    ensures GoodRows(cols, slots) <==> GoodRows(cols, slots[..|slots| - 1]) && GoodSlot(cols, slots[|slots| - 1])
  {
    var n, front := |slots| - 1, slots[..|slots| - 1];
    assert forall i :: 0 <= i < n ==> front[i] == slots[i];
  }

  lemma {:induction false} DumpedRows(cols: seq<Schema.Column>, slots: Slots)
    requires cols != []
    ensures GoodLines(DumpLines(cols, slots)) <==> GoodRows(cols, slots)
  {
    if slots != [] {
      var n := |slots| - 1;
      DumpedRows(cols, slots[..n]);
      GoodRowsSnoc(cols, slots);
      if slots[n].Some? {
        GoodRow(cols, slots[n].value);
        GoodLinesSnoc(DumpLines(cols, slots[..n]), RowText(CellsOf(cols, slots[n].value)));
      } else {
        assert DumpLines(cols, slots) == DumpLines(cols, slots[..n]);
      }
    }
  }

  /** Every stored row of a table with columns is pushed, in order, exactly when no written value has a line break. */
  lemma AllRowsPushed(cols: seq<Schema.Column>, slots: Slots)
    requires cols != []
    ensures UntilBlank(Split(Unlines(DumpLines(cols, slots)))) == DumpLines(cols, slots) <==> GoodRows(cols, slots)
  {
    AllLinesTaken(DumpLines(cols, slots));
    DumpedRows(cols, slots);
  }

  // ---------- what the database reads ----------

  datatype Field = FDefault | FNull | FValue(value: string)

  function Meant(c: Cell): Field {
    match c
    case Default => FDefault
    case Literal(v) => if v == SENTINEL then FNull else FValue(v)
  }

  function AllMeant(cs: seq<Cell>): seq<Field> {
    if cs == [] then [] else [Meant(cs[0])] + AllMeant(cs[1..])
  }

  function ReadField(t: string): Option<(Field, string)> {
    if "DEFAULT" <= t then Some((FDefault, t[7..]))
    else if "null" <= t then Some((FNull, t[4..]))
    else match ReadLiteral(t)
      case None => None
      case Some((v, rest)) => Some((FValue(v), rest))
  }

  /** Fields separated by commas, to the end of the text. */
  function ReadFields(t: string): Option<seq<Field>>
    decreases |t|
  {
    match ReadField(t)
    case None => None
    case Some((f, rest)) =>
      if rest == "" then Some([f])
      else if rest[0] != ',' || |rest| > |t| then None
      else match ReadFields(rest[1..])
        case None => None
        case Some(fs) => Some([f] + fs)
  }

  lemma ReadFieldOf(c: Cell, rest: string)
    requires NoQuoteNext(rest) && (c.Literal? && c.value != SENTINEL ==> AllSafe(c.value))
    ensures ReadField(SentText(c) + rest) == Some((Meant(c), rest))
  {
    var t := SentText(c) + rest;
    match c
    case Default =>
      assert t[..7] == "DEFAULT" && t[7..] == rest;
    case Literal(v) =>
      if v == SENTINEL {
        assert t[0] == 'n' && t[..4] == "null" && t[4..] == rest;
      } else {
        assert t[0] == '\'';
        LiteralRoundTrip(v, rest);
      }
  }

  /** A literal that is not the sentinel has only safe backslashes. */
  ghost predicate SafeCell(c: Cell) {
    c.Literal? && c.value != SENTINEL ==> AllSafe(c.value)
  }

  ghost predicate GoodCell(c: Cell) {
    !TrickyCell(c) && SafeCell(c)
  }

  ghost predicate GoodCells(cs: seq<Cell>) {
    forall i :: 0 <= i < |cs| ==> GoodCell(cs[i])
  }

  /** What the replacement leaves of a cell, before the rest of the line. */
  function Sent(c: Cell, rest: string): string {
    if TrickyCell(c) then "'" + Shortened(c.value) + rest else SentText(c) + rest
  }

  lemma SentLine(cs: seq<Cell>)
    requires cs != []
    ensures |cs| == 1 ==> ReplaceAll(RowText(cs)) == Sent(cs[0], "")
    ensures |cs| > 1 ==> ReplaceAll(RowText(cs)) == Sent(cs[0], "," + ReplaceAll(RowText(cs[1..])))
  {
    if |cs| == 1 {
      assert RowText(cs) == CellText(cs[0]) + "" && ReplaceAll("") == "";
      InCell(cs[0], "");
    } else {
      RowTextParts(cs);
      InCell(cs[0], "," + RowText(cs[1..]));
      CommaStep(RowText(cs[1..]));
    }
  }

  lemma ReadSent(c: Cell, rest: string)
    requires FieldEnd(rest) && GoodCell(c)
    ensures ReadField(Sent(c, rest)) == Some((Meant(c), rest))
  {
    ReadFieldOf(c, rest);
  }

  lemma NullReads(rest: string)
    ensures var tail := "\\null" + rest;
            && ValueOf(tail) == After("\n", ValueOf("ull" + rest))
            && ValueOf("\\" + tail) == After("\\", After("n", ValueOf("ull" + rest)))
  {
    var tail := "\\null" + rest;
    assert tail == "\\" + ("n" + ("ull" + rest)) && "null" + rest == "n" + ("ull" + rest);
    ContentPair('n', "ull" + rest);
    assert "\\" + tail == "\\" + ("\\" + ("null" + rest));
    ContentPair('\\', "null" + rest);
    ContentChar('n', "ull" + rest);
  }

  lemma NullEnds(rest: string)
    ensures ValueOf("\\" + ("\\" + ("'" + ("\\null" + rest)))) == Some("\\" + "")
  {
    ContentPair('\\', "'" + ("\\null" + rest));
    ContentQuote("\\null" + rest);
  }

  /** The broken end of a tricky value is not read as what it stands for. */
  lemma NullSteady(rest: string)
    ensures Steady("\\null" + rest, "'" + SENTINEL)
    ensures ValueOf("\\null" + rest) != Some("'" + SENTINEL)
  {
    NullReads(rest);
    NullEnds(rest);
    NullAfterSlashes("", ValueOf("ull" + rest));
    forall b | Slashes(b)
      ensures b != "" ==> ValueOf("\\null" + rest) != Some(b + ("'" + SENTINEL))
      ensures ValueOf("\\" + ("\\null" + rest)) != Some(b + ("\\" + ("'" + SENTINEL)))
      ensures ValueOf("\\" + ("\\" + ("'" + ("\\null" + rest)))) != Some(b + ("\\'" + ("'" + SENTINEL)))
    {
      NullAfterSlashes(b, ValueOf("ull" + rest));
    }
  }

  lemma NullAfterSlashes(b: string, r: Option<string>)
    requires Slashes(b)
    ensures var q := "'" + SENTINEL;
            && (b != "" ==> After("\n", r) != Some(b + q)) && After("\n", r) != Some(q)
            && After("\\", After("n", r)) != Some(b + ("\\" + q))
            && Some("\\" + "") != Some(b + ("\\'" + q))
  {
    var q := "'" + SENTINEL;
    assert q[0] == '\'' && |b + ("\\'" + q)| > 2;
    assert b == "" ==> (b + ("\\" + q))[1] == '\'';
    assert b != "" ==> (b + q)[0] == '\\' && (b + ("\\" + q))[1] == '\\';
    if r.Some? {
      assert ("\n" + r.value)[0] == '\n' && ("\\" + ("n" + r.value))[1] == 'n';
    }
  }

  lemma TrickyDiffers(v: string, rest: string)
    requires Tricky(v)
    ensures forall after :: ReadLiteral("'" + Shortened(v) + rest) != Some((v, after))
  {
    var p, q := v[..|v| - |SENTINEL| - 1], "'" + SENTINEL;
    assert v == p + q;
    Regroup(Escape(p), "\\null", rest);
    assert ("'" + Shortened(v) + rest)[1..] == Inner(p, "\\null" + rest);
    NullSteady(rest);
    if ValueOf(Inner(p, "\\null" + rest)) == Some(p + q) {
      ExactValue(p, "\\null" + rest, q);
    }
  }

  /** A field is read as it is meant only if it is good. */
  lemma SentExact(c: Cell, rest: string)
    requires FieldEnd(rest) && ReadField(Sent(c, rest)).Some? && ReadField(Sent(c, rest)).value.0 == Meant(c)
    ensures GoodCell(c)
  {
    var t := Sent(c, rest);
    if c.Literal? && c.value != SENTINEL {
      assert t[0] == '\'';
      if TrickyCell(c) {
        TrickyDiffers(c.value, rest);
      } else {
        LiteralRoundTrip(c.value, rest);
      }
    } else if c.Literal? {
      SentinelCell("");
    }
  }

  lemma GoodCellsCons(cs: seq<Cell>)
    requires cs != []
    ensures GoodCells(cs) <==> GoodCell(cs[0]) && GoodCells(cs[1..])
  {
    if GoodCell(cs[0]) && GoodCells(cs[1..]) {
      forall i | 0 <= i < |cs|
        ensures GoodCell(cs[i])
      {
        assert i > 0 ==> cs[i] == cs[1..][i - 1];
      }
    }
  }

  lemma ReadFieldsStep(cs: seq<Cell>)
    requires cs != [] && GoodCell(cs[0])
    ensures var t := ReplaceAll(RowText(cs));
            && (|cs| == 1 ==> ReadFields(t) == Some([Meant(cs[0])]))
            && (|cs| > 1 ==> ReadFields(t) == match ReadFields(ReplaceAll(RowText(cs[1..])))
                                              case None => None
                                              case Some(fs) => Some([Meant(cs[0])] + fs))
  {
    SentLine(cs);
    var after := ReplaceAll(RowText(cs[1..]));
    ReadSent(cs[0], if |cs| == 1 then "" else "," + after);
    assert ("," + after)[1..] == after;
  }

  /**
   The database reads a pushed row as the values of the dumped one, null for the sentinel and the column's default
   where the value is the default, if and only if no written value ends in a quote and the sentinel and every
   backslash of a value other than the sentinel stands before a percent sign or an underscore.
   */
  lemma {:induction false} RowIsRead(cs: seq<Cell>)
    requires cs != []
    ensures ReadFields(ReplaceAll(RowText(cs))) == Some(AllMeant(cs)) <==> GoodCells(cs)
    decreases |cs|
  {
    GoodCellsCons(cs);
    assert AllMeant(cs)[0] == Meant(cs[0]) && AllMeant(cs)[1..] == AllMeant(cs[1..]);
    if GoodCell(cs[0]) {
      ReadFieldsStep(cs);
      if |cs| > 1 {
        RowIsRead(cs[1..]);
        ConsMeant(Meant(cs[0]), ReadFields(ReplaceAll(RowText(cs[1..]))), AllMeant(cs[1..]));
      } else {
        assert cs[1..] == [] && AllMeant(cs) == [Meant(cs[0])];
      }
    } else {
      FirstMeant(cs);
    }
  }

  lemma ConsMeant(f: Field, r: Option<seq<Field>>, fs: seq<Field>)
    ensures r.Some? ==> ([f] + r.value == [f] + fs <==> r.value == fs)
  {
    if r.Some? && [f] + r.value == [f] + fs {
      assert r.value == ([f] + r.value)[1..] == ([f] + fs)[1..];
    }
  }

  /** The first of the fields that are read. */
  lemma FirstRead(t: string, f: Field)
    requires ReadFields(t).Some? && ReadFields(t).value != [] && ReadFields(t).value[0] == f
    ensures ReadField(t).Some? && ReadField(t).value.0 == f
  {
  }

  lemma FirstMeant(cs: seq<Cell>)
    requires cs != [] && !GoodCell(cs[0])
    ensures ReadFields(ReplaceAll(RowText(cs))) != Some(AllMeant(cs))
  {
    SentLine(cs);
    var t := ReplaceAll(RowText(cs));
    var rest := if |cs| == 1 then "" else "," + ReplaceAll(RowText(cs[1..]));
    if ReadFields(t) == Some(AllMeant(cs)) {
      FirstRead(t, Meant(cs[0]));
      SentExact(cs[0], rest);
    }
  }
}
