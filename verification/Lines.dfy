/** Line-oriented text, as std::getline reads it. */
module Lines {
  import opened Text

  /** The first line without its terminator, and what follows it. */
  function FirstLine(s: string): (r: (string, string))
    ensures |r.0| + |r.1| <= |s| && '\n' !in r.0
    ensures s != "" ==> |r.1| < |s|
    ensures s == r.0 + (if |r.0| < |s| then "\n" else "") + r.1
  {
    if s == "" then ("", "")
    else if s[0] == '\n' then ("", s[1..])
    else var r := FirstLine(s[1..]); ([s[0]] + r.0, r.1)
  }

  /** All lines that a loop over std::getline delivers. */
  function Split(s: string): seq<string>
    decreases |s|
  {
    if s == "" then [] else [FirstLine(s).0] + Split(FirstLine(s).1)
  }

  /** Every line followed by a terminator. */
  function Unlines(ls: seq<string>): string {
    if ls == [] then "" else ls[0] + "\n" + Unlines(ls[1..])
  }

  lemma {:induction false} FirstLineOf(l: string, rest: string)
    requires '\n' !in l
    ensures FirstLine(l + "\n" + rest) == (l, rest)
  {
    if l == "" {
      assert (l + "\n" + rest)[1..] == rest;
    } else {
      FirstLineOf(l[1..], rest);
      var s := l + "\n" + rest;
      assert s[0] == l[0] && l[0] in l && s[1..] == l[1..] + "\n" + rest;
      assert [l[0]] + l[1..] == l;
    }
  }

  lemma {:induction false} UnlinesJoins(a: seq<string>, b: seq<string>)
    ensures Unlines(a + b) == Unlines(a) + Unlines(b)
  {
    if a == [] {
      assert a + b == b;
    } else {
      UnlinesJoins(a[1..], b);
      assert (a + b)[1..] == a[1..] + b;
    }
  }

  lemma UnlinesSnoc(ls: seq<string>, l: string)
    ensures Unlines(ls + [l]) == Unlines(ls) + l + "\n"
  {
    UnlinesJoins(ls, [l]);
    assert [l][1..] == [] && l + "\n" + "" == l + "\n";
    Regroup(Unlines(ls), l, "\n");
  }

  function Breaks(s: string): nat {
    if s == "" then 0 else (if s[0] == '\n' then 1 else 0) + Breaks(s[1..])
  }

  lemma {:induction false} BreaksJoin(a: string, b: string)
    ensures Breaks(a + b) == Breaks(a) + Breaks(b)
  {
    if a == "" {
      assert a + b == b;
    } else {
      BreaksJoin(a[1..], b);
      assert (a + b)[1..] == a[1..] + b;
    }
  }

  lemma {:induction false} NoBreaks(s: string)
    ensures Breaks(s) == 0 <==> '\n' !in s
  {
    if s != "" {
      NoBreaks(s[1..]);
    }
  }

  lemma {:induction false} UnlinesBreaks(ls: seq<string>)
    ensures Breaks(Unlines(ls)) >= |ls|
    ensures Breaks(Unlines(ls)) == |ls| <==> forall i :: 0 <= i < |ls| ==> '\n' !in ls[i]
  {
    if ls != [] {
      UnlinesBreaks(ls[1..]);
      BreaksJoin(ls[0] + "\n", Unlines(ls[1..]));
      BreaksJoin(ls[0], "\n");
      NoBreaks(ls[0]);
    }
  }

  lemma {:induction false} SplitCount(s: string)
    ensures |Split(s)| >= Breaks(s)
    decreases |s|
  {
    if s != "" {
      var (l, rest) := FirstLine(s);
      SplitCount(rest);
      NoBreaks(l);
      BreaksJoin(l, if |l| < |s| then "\n" else "");
      BreaksJoin(l + (if |l| < |s| then "\n" else ""), rest);
    }
  }

  /** Written lines are read back as they were exactly when none of them contains a line break. */
  lemma {:induction false} SplitUnlines(ls: seq<string>)
    ensures Split(Unlines(ls)) == ls <==> forall i :: 0 <= i < |ls| ==> '\n' !in ls[i]
  {
    if exists i :: 0 <= i < |ls| && '\n' in ls[i] {
      UnlinesBreaks(ls);
      SplitCount(Unlines(ls));
    } else if ls != [] {
      SplitUnlines(ls[1..]);
      FirstLineOf(ls[0], Unlines(ls[1..]));
      assert forall i :: 0 <= i < |ls| - 1 ==> ls[1..][i] == ls[i + 1];
    }
  }
}
