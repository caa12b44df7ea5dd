/** When the reader of row lines gets back what the writer was given: exactly when no backslash is involved. */
module RowRoundTrip {
  import opened Text
  import opened Lines
  import opened RowText

  function Enc(escape: bool, s: string): string {
    if escape then Escape(s) else s
  }

  /** What follows the closing quote of a value: nothing, or a comma and the next opening quote. */
  ghost predicate Continues(r: string) {
    r == "" || (|r| >= 2 && r[0] == ',' && r[1] == '"')
  }

  lemma EscapeHead(s: string)
    requires s != ""
    ensures var e := Escape(s);
            if s[0] == '"' then |e| > 1 && e[0] == '\\' && e[1] == '"' && e[2..] == Escape(s[1..])
            else e[0] == s[0] && e[1..] == Escape(s[1..])
  {
  }

  /** A text behind n characters of what stands before it. */
  lemma CutBefore(e: string, t: string, n: nat)
    requires n <= |e|
    ensures (e + t)[n..] == e[n..] + t && forall i :: 0 <= i < n ==> (e + t)[i] == e[i]
  {
  }

  lemma EncUnfold(escape: bool, s: string, r: string)
    requires s != ""
    ensures var e := Enc(escape, s) + "\"" + r;
            if escape && s[0] == '"' then |e| >= 2 && e[0] == '\\' && e[1] == '"' &&
              e[2..] == Enc(escape, s[1..]) + "\"" + r
            else e[0] == s[0] && e[1..] == Enc(escape, s[1..]) + "\"" + r
  {
    var e := Enc(escape, s);
    Regroup(e, "\"", r);
    Regroup(Enc(escape, s[1..]), "\"", r);
    EscapeHead(s);
    CutBefore(e, "\"" + r, if escape && s[0] == '"' then 2 else 1);
  }

  lemma {:induction false} ReadClean(escape: bool, s: string, r: string)
    requires '\\' !in s && (escape || '"' !in s)
    ensures Fields(Enc(escape, s) + "\"" + r) == [s] + Fields(Drop(r, 2))
  {
    if s == "" {
      var e := Enc(escape, s) + "\"" + r;
      assert e == "\"" + r;
      assert Drop(e, 3) == Drop(r, 2);
    } else {
      EncUnfold(escape, s, r);
      ReadClean(escape, s[1..], r);
      assert s[0] in s && [s[0]] + s[1..] == s;
      var e := Enc(escape, s) + "\"" + r;
      assert Push(s[0], [s[1..]] + Fields(Drop(r, 2))) == [s] + Fields(Drop(r, 2));
      if escape && s[0] == '"' {
        assert Drop(e, 2) == e[2..];
      }
    }
  }

  /** A reader that has fallen behind the writer never catches up within the value. */
  lemma {:induction false} NeverCatchesUp(escape: bool, x: string, u: string, r: string)
    requires x != "" && Continues(r)
    ensures Fields(Enc(escape, u) + "\"" + r)[0] != x + u
    decreases |u|
  {
    if u == "" {
      assert Enc(escape, u) + "\"" + r == "\"" + r;
    } else if u[0] == '\\' {
      BehindBackslash(escape, x, u, r);
    } else if escape || u[0] != '"' {
      BehindOther(escape, x, u, r);
    } else {
      EncUnfold(escape, u, r);
    }
  }

  lemma {:induction false} BehindOther(escape: bool, x: string, u: string, r: string)
    requires x != "" && Continues(r) && u != "" && u[0] != '\\' && (escape || u[0] != '"')
    ensures Fields(Enc(escape, u) + "\"" + r)[0] != x + u
    decreases |u|, 0
  {
    OtherRead(escape, u, r);
    MoveBehind(x, u, 1);
    NeverCatchesUp(escape, x[1..] + u[..1], u[1..], r);
    PushedDiffers(u[0], Fields(Enc(escape, u[1..]) + "\"" + r), x + u);
  }

  /** Any other character of the value. */
  lemma OtherRead(escape: bool, u: string, r: string)
    requires u != "" && u[0] != '\\' && (escape || u[0] != '"')
    ensures Fields(Enc(escape, u) + "\"" + r) == Push(u[0], Fields(Enc(escape, u[1..]) + "\"" + r))
  {
    var e := Enc(escape, u) + "\"" + r;
    EncUnfold(escape, u, r);
    if u[0] == '"' {
      assert Drop(e, 2) == e[2..];
    }
  }

  /** A backslash and what follows it in the value. */
  lemma PairRead(escape: bool, u: string, r: string)
    requires |u| > 1 && u[0] == '\\'
    ensures var fields := Fields(Enc(escape, u) + "\"" + r);
            if escape && u[1] == '"' then fields[0] == "\\"
            else fields == Push(u[1], Fields(Enc(escape, u[2..]) + "\"" + r))
  {
    var e, rest := Enc(escape, u) + "\"" + r, Enc(escape, u[1..]) + "\"" + r;
    EncUnfold(escape, u, r);
    EncUnfold(escape, u[1..], r);
    assert u[1..][1..] == u[2..];
    assert Drop(e, 2) == rest[1..];
    if escape && u[1] == '"' {
      assert rest[1..][0] == '"';
      assert Fields(rest[1..])[0] == "";
    }
  }

  lemma MoveBehind(x: string, u: string, n: nat)
    requires x != "" && n <= |u|
    ensures (x + u)[0] == x[0] && (x + u)[1..] == (x[1..] + u[..n]) + u[n..]
  {
  }

  lemma {:induction false} BehindBackslash(escape: bool, x: string, u: string, r: string)
    requires x != "" && Continues(r) && u != "" && u[0] == '\\'
    ensures Fields(Enc(escape, u) + "\"" + r)[0] != x + u
    decreases |u|, 0
  {
    if |u| == 1 {
      LastBackslash(escape, u, r);
      assert (x + u)[|x|] == '\\';
    } else {
      PairRead(escape, u, r);
      if !(escape && u[1] == '"') {
        MoveBehind(x, u, 2);
        NeverCatchesUp(escape, x[1..] + u[..2], u[2..], r);
        PushedDiffers(u[1], Fields(Enc(escape, u[2..]) + "\"" + r), x + u);
      }
    }
  }

  lemma PushedDiffers(c: char, fields: seq<string>, s: string)
    requires fields != [] && s != "" && fields[0] != s[1..]
    ensures Push(c, fields)[0] != s
  {
    assert Push(c, fields)[0][1..] == fields[0];
  }

  /** A value ending in a lone backslash swallows its own closing quote. */
  lemma LastBackslash(escape: bool, u: string, r: string)
    requires u == "\\" && Continues(r)
    ensures var f := Fields(Enc(escape, u) + "\"" + r)[0]; f == (if r == "" then "\"" else "\",")
  {
    var e := Enc(escape, u) + "\"" + r;
    assert u[1..] == "" && Escape(u[1..]) == "" && Escape(u) == "" + [u[0]] + Escape(u[1..]);
    assert e == "\\\"" + r && Drop(e, 2) == r;
    if r != "" {
      assert r[1..][0] == '"';
      assert Fields(r[1..])[0] == "";
      assert Fields(r)[0] == ",";
    }
  }

  lemma {:induction false} ReadUnclean(escape: bool, s: string, r: string)
    requires Continues(r) && ('\\' in s || (!escape && '"' in s))
    ensures Fields(Enc(escape, s) + "\"" + r)[0] != s
    decreases |s|
  {
    var e := Enc(escape, s) + "\"" + r;
    EncUnfold(escape, s, r);
    if s[0] == '\\' {
      if |s| == 1 {
        LastBackslash(escape, s, r);
      } else {
        PairRead(escape, s, r);
        if !(escape && s[1] == '"') {
          NeverCatchesUp(escape, s[1..2], s[2..], r);
          assert s[1..] == s[1..2] + s[2..];
          PushedDiffers(s[1], Fields(Enc(escape, s[2..]) + "\"" + r), s);
        }
      }
    } else if escape || s[0] != '"' {
      ReadUnclean(escape, s[1..], r);
      if s[0] == '"' {
        assert Drop(e, 2) == e[2..];
      }
    } else {
      assert Fields(e)[0] == "";
    }
  }

  // ---------- values ----------

  predicate Clean(v: Value) {
    match v
    case Null => true
    case Str(s) => '\\' !in s
    case Other(s) => '\\' !in s && '"' !in s
  }

  function Contents(vals: seq<Value>): seq<string> {
    if vals == [] then [] else [vals[0].Content()] + Contents(vals[1..])
  }

  lemma ReadValue(v: Value, r: string)
    requires Continues(r)
    ensures Clean(v) ==> Fields(Encode(v) + "\"" + r) == [v.Content()] + Fields(Drop(r, 2))
    ensures !Clean(v) ==> Fields(Encode(v) + "\"" + r)[0] != v.Content()
  {
    if Clean(v) {
      ReadClean(v.Str?, v.Content(), r);
    } else {
      ReadUnclean(v.Str?, v.s, r);
    }
  }

  /** What follows the first value of a line. */
  function After(vals: seq<Value>): string
    requires vals != []
  {
    if |vals| == 1 then "" else ",\"" + Tail(vals[1..])
  }

  lemma LineUnfold(vals: seq<Value>)
    requires vals != []
    ensures Drop(Line(vals), 1) == Encode(vals[0]) + "\"" + After(vals) && Continues(After(vals))
    ensures |vals| > 1 ==> Drop(After(vals), 2) == Drop(Line(vals[1..]), 1)
  {
  }

  /**
   The reader gathers from a written line the very contents of its values, in order, exactly when no value
   holds a backslash (nor, printed unescaped, a double quote).
   */
  lemma {:induction false} LineRoundTrip(vals: seq<Value>)
    requires vals != []
    ensures Fields(Drop(Line(vals), 1)) == Contents(vals) + [""] <==> forall i :: 0 <= i < |vals| ==> Clean(vals[i])
  {
    LineUnfold(vals);
    ReadValue(vals[0], After(vals));
    if |vals| == 1 {
      assert Contents(vals) == [vals[0].Content()] by { assert Contents(vals[1..]) == []; }
    } else {
      LineRoundTrip(vals[1..]);
      var tail := Fields(Drop(Line(vals[1..]), 1));
      assert Contents(vals) + [""] == [vals[0].Content()] + (Contents(vals[1..]) + [""]);
      if Clean(vals[0]) {
        assert Fields(Drop(Line(vals), 1)) == [vals[0].Content()] + tail;
        assert Fields(Drop(Line(vals), 1))[1..] == tail;
        assert ([vals[0].Content()] + (Contents(vals[1..]) + [""]))[1..] == Contents(vals[1..]) + [""];
        assert forall i :: 0 <= i < |vals| - 1 ==> vals[1..][i] == vals[i + 1];
      } else {
        assert (Contents(vals) + [""])[0] == vals[0].Content();
      }
    }
  }

  // ---------- a whole file ----------

  function FileLines(rows: seq<seq<Value>>): seq<string>
    requires forall i :: 0 <= i < |rows| ==> rows[i] != []
  {
    if rows == [] then [] else [Line(rows[0])] + FileLines(rows[1..])
  }

  function ReadFile(ls: seq<string>): seq<seq<string>> {
    if ls == [] then [] else [Fields(Drop(ls[0], 1))] + ReadFile(ls[1..])
  }

  function FileContents(rows: seq<seq<Value>>): seq<seq<string>> {
    if rows == [] then [] else [Contents(rows[0]) + [""]] + FileContents(rows[1..])
  }

  ghost predicate FileClean(rows: seq<seq<Value>>) {
    forall i, j :: 0 <= i < |rows| && 0 <= j < |rows[i]| ==> Clean(rows[i][j]) && '\n' !in rows[i][j].Content()
  }

  lemma {:induction false} EscapeBreaks(s: string)
    ensures '\n' in Escape(s) <==> '\n' in s
  {
    if s != "" {
      EscapeBreaks(s[1..]);
    }
  }

  lemma {:induction false} LineBreaks(vals: seq<Value>)
    requires vals != []
    ensures '\n' in Tail(vals) <==> exists j :: 0 <= j < |vals| && '\n' in vals[j].Content()
  {
    if vals[0].Str? {
      EscapeBreaks(vals[0].s);
    }
    if |vals| > 1 {
      LineBreaks(vals[1..]);
      assert '\n' in After(vals) <==> '\n' in Tail(vals[1..]);
      if j :| 0 < j < |vals| && '\n' in vals[j].Content() {
        assert '\n' in vals[1..][j - 1].Content();
      }
    }
  }

  lemma {:induction false} FileLinesAt(rows: seq<seq<Value>>, ls: seq<string>)
    requires forall i :: 0 <= i < |rows| ==> rows[i] != []
    requires ls == FileLines(rows)
    ensures |ls| == |rows| && forall i :: 0 <= i < |rows| ==> ls[i] == Line(rows[i])
  {
    if rows != [] {
      FileLinesAt(rows[1..], ls[1..]);
    }
  }

  lemma {:induction false} ReadFileAt(ls: seq<string>)
    ensures |ReadFile(ls)| == |ls| && forall i :: 0 <= i < |ls| ==> ReadFile(ls)[i] == Fields(Drop(ls[i], 1))
  {
    if ls != [] {
      ReadFileAt(ls[1..]);
    }
  }

  lemma {:induction false} FileContentsAt(rows: seq<seq<Value>>)
    ensures |FileContents(rows)| == |rows| && forall i :: 0 <= i < |rows| ==>
            FileContents(rows)[i] == Contents(rows[i]) + [""]
  {
    if rows != [] {
      FileContentsAt(rows[1..]);
    }
  }

  /** A data file is read back row by row and value by value exactly when no value holds a backslash or a line break. */
  lemma FileRoundTrip(rows: seq<seq<Value>>)
    requires forall i :: 0 <= i < |rows| ==> rows[i] != []
    ensures ReadFile(Split(Unlines(FileLines(rows)))) == FileContents(rows) <==> FileClean(rows)
  {
    var ls := FileLines(rows);
    FileLinesAt(rows, ls);
    ReadFileAt(Split(Unlines(ls)));
    FileContentsAt(rows);
    if exists i :: 0 <= i < |ls| && '\n' in ls[i] {
      UnlinesBreaks(ls);
      SplitCount(Unlines(ls));
      var i :| 0 <= i < |ls| && '\n' in ls[i];
      LineBreaks(rows[i]);
      assert Line(rows[i]) == "\"" + Tail(rows[i]);
    } else {
      SplitUnlines(ls);
      ReadLines(rows, ls);
    }
  }

  lemma ReadLines(rows: seq<seq<Value>>, ls: seq<string>)
    requires |ls| == |rows| && forall i :: 0 <= i < |rows| ==> rows[i] != [] && ls[i] == Line(rows[i]) && '\n' !in ls[i]
    ensures ReadFile(ls) == FileContents(rows) <==> FileClean(rows)
  {
    ReadFileAt(ls);
    FileContentsAt(rows);
    forall i | 0 <= i < |rows|
      ensures forall j :: 0 <= j < |rows[i]| ==> '\n' !in rows[i][j].Content()
      ensures ReadFile(ls)[i] == FileContents(rows)[i] <==> forall j :: 0 <= j < |rows[i]| ==> Clean(rows[i][j])
    {
      LineBreaks(rows[i]);
      LineRoundTrip(rows[i]);
      assert ls[i] == "\"" + Tail(rows[i]);
    }
  }
}
