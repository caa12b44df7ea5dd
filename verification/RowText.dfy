/**
 The row text format: each value in double quotes, separated by commas. The writer escapes the quote
 but not the backslash, which the reader takes as an escape.
 */
module RowText {
  import opened Text
  import opened Lines

  const NULL_SENTINEL := "_NUll_&"

  /** A decoded column value: SQL NULL, a string, or anything else by its printed form. */
  datatype Value = Null | Str(s: string) | Other(s: string) {
    function Content(): string {
      if Null? then NULL_SENTINEL else s
    }
  }

  // ---------- writer ----------

  class StringBuilder {
    var text: string

    constructor ()
      ensures text == ""
    {
      text := "";
    }

    method Append(s: string)
      modifies this
      ensures text == old(text) + s
    {
      text := text + s;
    }
  }

  function Escape(s: string): string {
    if s == "" then "" else (if s[0] == '"' then "\\" else "") + [s[0]] + Escape(s[1..])
  }

  method Convert(toConvert: string, builder: StringBuilder)
    modifies builder
    ensures builder.text == old(builder.text) + Escape(toConvert)
  {
    var i := 0;
    while i < |toConvert|
      invariant 0 <= i <= |toConvert|
      invariant builder.text + Escape(toConvert[i..]) == old(builder.text) + Escape(toConvert)
    {
      var curChar := toConvert[i];
      assert toConvert[i..][1..] == toConvert[i + 1..];
      if curChar == '"' {
        builder.Append("\\");
      }
      builder.Append([curChar]);
      i := i + 1;
    }
  }

  function Encode(v: Value): string {
    match v
    case Null => NULL_SENTINEL
    case Str(s) => Escape(s)
    case Other(s) => s
  }

  function Field(v: Value): string {
    "\"" + Encode(v) + "\","
  }

  /** Quoted values, each followed by a comma. */
  function Quoted(vals: seq<Value>): string {
    if vals == [] then "" else Field(vals[0]) + Quoted(vals[1..])
  }

  method AppendField(v: Value, builder: StringBuilder)
    modifies builder
    ensures builder.text == old(builder.text) + Field(v)
  {
    ghost var was := builder.text;
    if !v.Null? {
      builder.Append("\"");
      if v.Str? {
        Convert(v.s, builder);
      } else {
        builder.Append(v.s);
      }
      assert builder.text == was + ("\"" + Encode(v));
      builder.Append("\",");
    } else {
      builder.Append("\"_NUll_&\",");
      assert "\"_NUll_&\"," == "\"" + NULL_SENTINEL + "\",";
    }
  }

  method AppendFields(vals: seq<Value>, builder: StringBuilder)
    modifies builder
    ensures builder.text == old(builder.text) + Quoted(vals)
  {
    var i := 0;
    while i < |vals|
      invariant 0 <= i <= |vals|
      invariant builder.text + Quoted(vals[i..]) == old(builder.text) + Quoted(vals)
    {
      QuotedNext(vals, i, builder.text);
      AppendField(vals[i], builder);
      i := i + 1;
    }
  }

  lemma QuotedNext(vals: seq<Value>, i: nat, before: string)
    requires i < |vals|
    ensures before + Quoted(vals[i..]) == before + Field(vals[i]) + Quoted(vals[i + 1..])
  {
    assert vals[i..][1..] == vals[i + 1..];
  }

  /** The comma after the last value gives way to a line break. */
  method ParseOneRow(vals: seq<Value>, isAfter: bool, builder: StringBuilder) returns (ok: bool)
    modifies builder
    ensures !isAfter ==> ok && builder.text == old(builder.text)
    ensures isAfter ==> ok == (old(builder.text) + Quoted(vals) != "")
    ensures isAfter && ok ==>
              var t := old(builder.text) + Quoted(vals); builder.text == t[..|t| - 1] + "\n"
  {
    ok := true;
    if isAfter {
      AppendFields(vals, builder);
      if |builder.text| == 0 {
        return false;
      }
      builder.text := builder.text[..|builder.text| - 1];
      builder.Append("\n");
    }
  }

  /** The line of a row after its opening quote. */
  function Tail(vals: seq<Value>): string
    requires vals != []
  {
    Encode(vals[0]) + "\"" + (if |vals| == 1 then "" else ",\"" + Tail(vals[1..]))
  }

  function Line(vals: seq<Value>): string
    requires vals != []
  {
    "\"" + Tail(vals)
  }

  lemma Requote(e: string, t: string)
    ensures "\"" + e + "\"," + ("\"" + t + ",") == "\"" + (e + "\"" + (",\"" + t)) + ","
  {
  }

  lemma {:induction false} LineIsQuoted(vals: seq<Value>)
    requires vals != []
    ensures Quoted(vals) == Line(vals) + ","
  {
    var e := Encode(vals[0]);
    if |vals| == 1 {
      assert Quoted(vals) == Field(vals[0]) + "" by { assert vals[1..] == []; }
      assert "\"" + e + "\"," + "" == "\"" + (e + "\"" + "") + ",";
    } else {
      LineIsQuoted(vals[1..]);
      Requote(e, Tail(vals[1..]));
    }
  }

  /** A row with a value adds exactly its line to the text. */
  lemma RowIsLine(before: string, vals: seq<Value>)
    requires vals != []
    ensures var t := before + Quoted(vals);
            t[..|t| - 1] + "\n" == before + Line(vals) + "\n"
  {
    LineIsQuoted(vals);
    var t := before + Quoted(vals);
    assert t == (before + Line(vals)) + ",";
    assert t[..|t| - 1] == before + Line(vals);
  }

  // ---------- reader ----------

  function Drop(s: string, n: nat): string {
    if n <= |s| then s[n..] else ""
  }

  lemma DropTwice(s: string, a: nat, b: nat)
    ensures Drop(Drop(s, a), b) == Drop(s, a + b)
  {
  }

  function Push(c: char, fields: seq<string>): seq<string>
    requires fields != []
  {
    [[c] + fields[0]] + fields[1..]
  }

  /** The texts that the reader gathers, one per quote it passes, from a line after its opening quote. */
  function Fields(s: string): (fields: seq<string>)
    ensures fields != []
    decreases |s|
  {
    if s == "" then [""]
    else if s[0] == '\\' then Push(if |s| > 1 then s[1] else '\0', Fields(Drop(s, 2)))
    else if s[0] == '"' then [""] + Fields(Drop(s, 3))
    else Push(s[0], Fields(s[1..]))
  }

  /** No text is gathered past the last column. */
  predicate FitsColumns(rawStr: string, n: nat) {
    NoTextFrom(Fields(Drop(rawStr, 1)), n)
  }

  predicate NoTextFrom(fields: seq<string>, n: nat) {
    forall k :: n <= k < |fields| ==> fields[k] == ""
  }

  /** The positions are different slots of n. */
  predicate Places(insPos: seq<int>, n: nat) {
    && (forall k :: 0 <= k < |insPos| ==> 0 <= insPos[k] < n)
    && (forall j, k :: 0 <= j < k < |insPos| ==> insPos[j] != insPos[k])
  }

  function FieldAt(fields: seq<string>, k: nat): string {
    if k < |fields| then fields[k] else ""
  }

  /**
   Midway through a line: columns before cur have their texts, column cur lacks rest[0], later ones are untouched.
   */
  ghost predicate Filling(now: seq<string>, was: seq<string>, insPos: seq<int>, all: seq<string>, rest: seq<string>,
    cur: nat)
    requires Places(insPos, |was|)
  {
    && |now| == |was| && rest != [] && |all| == cur + |rest|
    && all[cur + 1..] == rest[1..]
    && (forall k :: 0 <= k < |insPos| && k < cur ==> now[insPos[k]] == was[insPos[k]] + all[k])
    && (cur < |insPos| ==> now[insPos[cur]] + rest[0] == was[insPos[cur]] + all[cur])
    && (cur >= |insPos| ==> rest[0] == "")
    && (forall k :: cur < k < |insPos| ==> now[insPos[k]] == was[insPos[k]])
    && (forall j :: 0 <= j < |was| && j !in insPos ==> now[j] == was[j])
  }

  lemma FillChar(now: seq<string>, was: seq<string>, insPos: seq<int>, all: seq<string>, rest: seq<string>, cur: nat,
    c: char)
    requires Places(insPos, |was|)
    requires rest != [] && Filling(now, was, insPos, all, Push(c, rest), cur)
    ensures cur < |insPos| && Filling(now[insPos[cur] := now[insPos[cur]] + [c]], was, insPos, all, rest, cur)
  {
    assert now[insPos[cur]] + ([c] + rest[0]) == now[insPos[cur]] + [c] + rest[0];
    assert insPos[cur] in insPos;
  }

  lemma FillQuote(now: seq<string>, was: seq<string>, insPos: seq<int>, all: seq<string>, rest: seq<string>, cur: nat)
    requires Places(insPos, |was|)
    requires NoTextFrom(all, |insPos|)
    requires rest != [] && Filling(now, was, insPos, all, [""] + rest, cur)
    ensures Filling(now, was, insPos, all, rest, cur + 1)
  {
    assert all[cur + 1] == all[cur + 1..][0] == ([""] + rest)[1..][0];
    assert all[cur + 2..] == all[cur + 1..][1..];
  }

  method AppendAt(vec: array<string>, insPos: seq<int>, curPos: nat, c: char,
                  ghost was: seq<string>, ghost all: seq<string>, ghost rest: seq<string>)
    requires Places(insPos, |was|)
    requires rest != [] && Filling(vec[..], was, insPos, all, Push(c, rest), curPos)
    modifies vec
    ensures Filling(vec[..], was, insPos, all, rest, curPos)
  {
    ghost var now := vec[..];
    FillChar(now, was, insPos, all, rest, curPos, c);
    vec[insPos[curPos]] := vec[insPos[curPos]] + [c];
    assert vec[..] == now[insPos[curPos] := now[insPos[curPos]] + [c]];
  }

  lemma FillDone(now: seq<string>, was: seq<string>, insPos: seq<int>, all: seq<string>, cur: nat)
    requires Places(insPos, |was|)
    requires Filling(now, was, insPos, all, [""], cur)
    ensures forall k :: 0 <= k < |insPos| ==> now[insPos[k]] == was[insPos[k]] + FieldAt(all, k)
    ensures forall j :: 0 <= j < |was| && j !in insPos ==> now[j] == was[j]
  {
    forall k | 0 <= k < |insPos|
      ensures now[insPos[k]] == was[insPos[k]] + FieldAt(all, k)
    {
      assert now[insPos[k]] + "" == now[insPos[k]];
    }
  }

  /** What is read from a place in the line, by the character there. */
  lemma FieldsAt(s: string, i: nat)
    requires i < |s|
    ensures Fields(Drop(s, i)) ==
            if s[i] == '\\' then Push(if i + 1 < |s| then s[i + 1] else '\0', Fields(Drop(s, i + 2)))
            else if s[i] == '"' then [""] + Fields(Drop(s, i + 3))
            else Push(s[i], Fields(Drop(s, i + 1)))
  {
    DropTwice(s, i, 1);
    DropTwice(s, i, 2);
    DropTwice(s, i, 3);
  }

  /** One turn of the loop of ParseEscaped. */
  method ParseChar(vec: array<string>, rawStr: string, insPos: seq<int>, start: nat, cur: nat,
                   ghost was: seq<string>, ghost all: seq<string>) returns (i: nat, curPos: nat)
    requires Places(insPos, |was|)
    requires NoTextFrom(all, |insPos|)
    requires start < |rawStr| && Filling(vec[..], was, insPos, all, Fields(Drop(rawStr, start)), cur)
    modifies vec
    ensures i > start && Filling(vec[..], was, insPos, all, Fields(Drop(rawStr, i)), curPos)
  {
    i, curPos := start, cur;
    FieldsAt(rawStr, start);
    if rawStr[i] == '\\' {
      i := i + 1;
      var next := if i < |rawStr| then rawStr[i] else '\0';
      ghost var rest := Fields(Drop(rawStr, start + 2));
      AppendAt(vec, insPos, curPos, next, was, all, rest);
    } else if rawStr[i] == '"' {
      FillQuote(vec[..], was, insPos, all, Fields(Drop(rawStr, start + 3)), curPos);
      curPos := curPos + 1;
      i := i + 2;
    } else {
      AppendAt(vec, insPos, curPos, rawStr[i], was, all, Fields(Drop(rawStr, start + 1)));
    }
    i := i + 1;
  }

  method ParseEscaped(vec: array<string>, rawStr: string, insPos: seq<int>)
    requires |insPos| != 1  // the reader divides by the number of columns less one
    requires forall k :: 0 <= k < |insPos| ==> 0 <= insPos[k] < vec.Length
    requires forall j, k :: 0 <= j < k < |insPos| ==> insPos[j] != insPos[k]
    requires FitsColumns(rawStr, |insPos|)
    modifies vec
    ensures forall k :: 0 <= k < |insPos| ==>
              vec[insPos[k]] == old(vec[insPos[k]]) + FieldAt(Fields(Drop(rawStr, 1)), k)
    ensures forall j :: 0 <= j < vec.Length && j !in insPos ==> vec[j] == old(vec[j])
  {
    ghost var all, was := Fields(Drop(rawStr, 1)), vec[..];
    var i, curPos := 1, 0;
    while i < |rawStr|
      invariant Filling(vec[..], was, insPos, all, Fields(Drop(rawStr, i)), curPos)
      decreases |rawStr| - i
    {
      i, curPos := ParseChar(vec, rawStr, insPos, i, curPos, was, all);
    }
    FillDone(vec[..], was, insPos, all, curPos);
  }
}
