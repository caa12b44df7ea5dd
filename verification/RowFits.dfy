/** Which written lines the reader can take: those that bring no text past the last column. */
module RowFits {
  import opened Text
  import opened Lines
  import opened RowText
  import opened RowRoundTrip

  // ---------- values that keep the reader in step ----------

  /** The reader passes the text without meeting a bare quote or a backslash at the end. */
  predicate Paired(e: string) {
    if e == "" then true
    else if e[0] == '\\' then |e| > 1 && Paired(e[2..])
    else e[0] != '"' && Paired(e[1..])
  }

  /** Reading pairwise from the left, no backslash stands before a quote or at the end. */
  predicate Settled(s: string) {
    if s == "" then true
    else if s[0] == '\\' then |s| > 1 && s[1] != '"' && Settled(s[2..])
    else Settled(s[1..])
  }

  /** The value is read to its end and no further. */
  predicate Sound(v: Value) {
    match v
    case Null => true
    case Str(s) => Settled(s)
    case Other(s) => Paired(s)
  }

  predicate AllSound(vals: seq<Value>) {
    forall i :: 0 <= i < |vals| ==> Sound(vals[i])
  }

  lemma {:induction false} SettledPairs(s: string)
    ensures Paired(Escape(s)) <==> Settled(s)
    decreases |s|
  {
    if s != "" {
      EscapeHead(s);
      if s[0] != '\\' {
        SettledPairs(s[1..]);
      } else if |s| > 1 {
        EscapeHead(s[1..]);
        assert s[1..][1..] == s[2..];
        if s[1] != '"' {
          SettledPairs(s[2..]);
          assert Escape(s)[2..] == Escape(s[2..]);
        } else {
          assert Escape(s)[2..][0] == '"';
        }
      }
    }
  }

  lemma SoundPairs(v: Value)
    ensures Paired(Encode(v)) <==> Sound(v)
  {
    if v.Str? {
      SettledPairs(v.s);
    }
  }

  // ---------- sound rows fit ----------

  lemma {:induction false} ReadPaired(e: string, r: string)
    requires Paired(e)
    ensures |Fields(e + "\"" + r)| == 1 + |Fields(Drop(r, 2))| && Fields(e + "\"" + r)[1..] == Fields(Drop(r, 2))
    decreases |e|
  {
    var t := e + "\"" + r;
    if e == "" {
      assert t == "\"" + r && Drop(t, 3) == Drop(r, 2);
    } else if e[0] == '\\' {
      assert Drop(t, 2) == e[2..] + "\"" + r;
      ReadPaired(e[2..], r);
    } else {
      assert t[1..] == e[1..] + "\"" + r;
      ReadPaired(e[1..], r);
    }
  }

  /** A row of sound values gives one text for each column, and an empty one behind the last quote. */
  lemma {:induction false} SoundReads(vals: seq<Value>)
    requires vals != [] && AllSound(vals)
    ensures var fields := Fields(Drop(Line(vals), 1)); |fields| == |vals| + 1 && fields[|vals|] == ""
  {
    LineUnfold(vals);
    SoundPairs(vals[0]);
    ReadPaired(Encode(vals[0]), After(vals));
    var fields := Fields(Drop(Line(vals), 1));
    if |vals| > 1 {
      SoundReads(vals[1..]);
      assert fields[|vals|] == fields[1..][|vals| - 1];
    } else {
      assert Fields(Drop(After(vals), 2)) == [""];
      assert fields[1] == fields[1..][0];
    }
  }

  lemma SoundFits(vals: seq<Value>)
    requires vals != [] && AllSound(vals)
    ensures FitsColumns(Line(vals), |vals|)
  {
    SoundReads(vals);
    LastEmpty(Fields(Drop(Line(vals), 1)), |vals|);
  }

  lemma LastEmpty(fields: seq<string>, n: nat)
    requires |fields| == n + 1 && fields[n] == ""
    ensures forall k :: n <= k < |fields| ==> fields[k] == ""
  {
  }

  // ---------- any other value can go too far ----------

  /** A clean value with a quote near its beginning, and its text after the end of a field before it. */
  const FOLLOWER := Str("a\"bcdef")
  const REST := "\",\"a\\\"bcdef\""

  lemma {:induction false} NothingEscaped(s: string)
    requires '"' !in s
    ensures Escape(s) == s
  {
    if s != "" {
      NothingEscaped(s[1..]);
      assert [s[0]] + s[1..] == s;
    }
  }

  lemma EscapeCons(c: char, t: string)
    ensures Escape([c] + t) == (if c == '"' then "\\" else "") + [c] + Escape(t)
  {
    assert ([c] + t)[0] == c && ([c] + t)[1..] == t;
  }

  lemma FollowerText()
    ensures Encode(FOLLOWER) == "a\\\"bcdef"
  {
    NothingEscaped("bcdef");
    EscapeCons('"', "bcdef");
    EscapeCons('a', "\"bcdef");
    FollowerPieces();
  }

  lemma FollowerPieces()
    ensures ['"'] + "bcdef" == "\"bcdef" && ['a'] + "\"bcdef" == "a\"bcdef"
    ensures "" + ['a'] + ("\\" + ['"'] + "bcdef") == "a\\\"bcdef"
  {
  }

  lemma RestIs(v: Value)
    ensures Drop(Line([v, FOLLOWER]), 1) == Encode(v) + REST
  {
    var row := [v, FOLLOWER];
    LineUnfold(row);
    FollowerText();
    assert row[1..] == [FOLLOWER];
    var t := Tail([FOLLOWER]);
    assert t == "a\\\"bcdef" + "\"" + "";
    Joined(Encode(v), t);
  }

  lemma Joined(e: string, t: string)
    requires t == "a\\\"bcdef\""
    ensures e + "\"" + (",\"" + t) == e + REST
  {
    assert "\"" + (",\"" + t) == REST;
    assert e + "\"" + (",\"" + t) == e + ("\"" + (",\"" + t));
  }

  ghost predicate TextFrom(fields: seq<string>, n: nat) {
    exists k :: n <= k < |fields| && fields[k] != ""
  }

  lemma BehindQuote(fields: seq<string>, n: nat)
    requires TextFrom(fields, n)
    ensures TextFrom([""] + fields, n + 1)
  {
    var k :| n <= k < |fields| && fields[k] != "";
    assert ([""] + fields)[k + 1] == fields[k];
  }

  lemma BehindChar(c: char, fields: seq<string>, n: nat)
    requires fields != [] && (n == 0 || TextFrom(fields, n))
    ensures TextFrom(Push(c, fields), n)
  {
    if n == 0 {
      assert Push(c, fields)[0] != "";
    } else {
      var k :| n <= k < |fields| && fields[k] != "";
      assert Push(c, fields)[k] == fields[k];
    }
  }

  /** Reading on from a quote, from a pair, and from any other character. */
  lemma ReadOn(t: string, n: nat)
    requires t != ""
    ensures t[0] == '"' && TextFrom(Fields(Drop(t, 3)), n) ==> TextFrom(Fields(t), n + 1)
    ensures t[0] == '\\' && (n == 0 || TextFrom(Fields(Drop(t, 2)), n)) ==> TextFrom(Fields(t), n)
    ensures t[0] != '"' && t[0] != '\\' && (n == 0 || TextFrom(Fields(t[1..]), n)) ==> TextFrom(Fields(t), n)
  {
    if t[0] == '\\' {
      if n == 0 || TextFrom(Fields(Drop(t, 2)), n) {
        BehindChar(if |t| > 1 then t[1] else '\0', Fields(Drop(t, 2)), n);
      }
    } else if t[0] == '"' {
      if TextFrom(Fields(Drop(t, 3)), n) {
        BehindQuote(Fields(Drop(t, 3)), n);
      }
    } else if n == 0 || TextFrom(Fields(t[1..]), n) {
      BehindChar(t[0], Fields(t[1..]), n);
    }
  }

  lemma RestTails()
    ensures REST[1..] == ",\"a\\\"bcdef\"" && REST[2..] == "\"a\\\"bcdef\"" && REST[3..] == "a\\\"bcdef\""
    ensures Drop(REST[2..], 3) == "\"bcdef\"" && Drop("\"bcdef\"", 3) == "def\"" && Drop(REST, 3) == REST[3..]
  {
  }

  /** There is always text to come, behind one quote more where the reader has not yet met the end of the field. */
  lemma RestText()
    ensures TextFrom(Fields(REST), 1) && TextFrom(Fields(REST[1..]), 2) && TextFrom(Fields(REST[2..]), 2)
    ensures TextFrom(Fields(REST[3..]), 0)
  {
    RestTails();
    ReadOn("def\"", 0);
    ReadOn("\"bcdef\"", 0);
    ReadOn(REST[2..], 1);
    ReadOn(REST[1..], 2);
    assert REST[1..][1..] == REST[2..];
    ReadOn(REST[3..], 0);
    ReadOn(REST, 0);
  }

  lemma PartsOf(y: string, n: nat)
    requires n <= |y|
    ensures Drop(y + REST, n) == y[n..] + REST
  {
  }

  lemma PastEnd(y: string)
    ensures |y| == 1 ==> Drop(y + REST, 2) == REST[1..] && Drop(y + REST, 3) == REST[2..]
    ensures |y| == 2 ==> Drop(y + REST, 3) == REST[1..]
  {
  }

  /** However the reader gets into the rest of the row, it gathers more text. */
  lemma {:induction false} Gathers(y: string)
    ensures TextFrom(Fields(y + REST), 0)
    decreases |y|
  {
    RestText();
    if y == "" {
      assert y + REST == REST;
    } else {
      ReadOn(y + REST, 0);
      if y[0] == '"' {
        AfterQuote(y);
      }
    }
  }

  lemma {:induction false} AfterQuote(y: string)
    requires y != ""
    ensures TextFrom(Fields(Drop(y + REST, 3)), 0)
    decreases |y|, 0
  {
    RestText();
    PastEnd(y);
    if |y| >= 3 {
      PartsOf(y, 3);
      Gathers(y[3..]);
    }
  }

  /** And past a quote. */
  lemma {:induction false} GathersLater(y: string)
    ensures TextFrom(Fields(y + REST), 1)
    decreases |y|
  {
    RestText();
    if y == "" {
      assert y + REST == REST;
    } else {
      ReadOn(y + REST, 0);
      ReadOn(y + REST, 1);
      PastEnd(y);
      if y[0] == '"' {
        AfterQuote(y);
      } else if y[0] != '\\' {
        PartsOf(y, 1);
        GathersLater(y[1..]);
      } else if |y| > 1 {
        PartsOf(y, 2);
        GathersLater(y[2..]);
      }
    }
  }

  lemma LaterFrom(y: string)
    ensures y != "" ==> TextFrom(Fields(Drop(y + REST, 3)), 1)
  {
    RestText();
    PastEnd(y);
    if |y| >= 3 {
      PartsOf(y, 3);
      GathersLater(y[3..]);
    }
  }

  /** A value that is not read to its end lets text come behind two quotes. */
  lemma {:induction false} GathersTwice(e: string)
    requires !Paired(e)
    ensures TextFrom(Fields(e + REST), 2)
    decreases |e|
  {
    RestText();
    PastEnd(e);
    ReadOn(e + REST, 1);
    ReadOn(e + REST, 2);
    if e[0] == '"' {
      LaterFrom(e);
    } else if e[0] != '\\' {
      PartsOf(e, 1);
      GathersTwice(e[1..]);
    } else if |e| > 1 {
      PartsOf(e, 2);
      GathersTwice(e[2..]);
    }
  }

  lemma UnsoundMisfits(v: Value)
    requires !Sound(v)
    ensures !FitsColumns(Line([v, FOLLOWER]), 2)
  {
    SoundPairs(v);
    RestIs(v);
    GathersTwice(Encode(v));
  }

  // ---------- exactly ----------

  /** Whatever sound values stand around it, the row's line brings no text past the last column. */
  ghost predicate FitsAnywhere(v: Value) {
    forall a, b :: AllSound(a) && AllSound(b) ==> FitsIn(v, a, b)
  }

  ghost predicate FitsIn(v: Value, a: seq<Value>, b: seq<Value>) {
    FitsColumns(Line(a + [v] + b), |a| + 1 + |b|)
  }

  /** The sound values are exactly those that fit into every row of sound values. */
  lemma ExactlySound(v: Value)
    ensures Sound(v) <==> FitsAnywhere(v)
  {
    if Sound(v) {
      forall a, b | AllSound(a) && AllSound(b)
        ensures FitsIn(v, a, b)
      {
        SoundFits(a + [v] + b);
      }
    } else {
      UnsoundMisfits(v);
      FollowerSound();
      assert [] + [v] + [FOLLOWER] == [v, FOLLOWER];
      assert AllSound([]) && AllSound([FOLLOWER]) && !FitsIn(v, [], [FOLLOWER]);
    }
  }

  lemma FollowerSound()
    ensures Sound(FOLLOWER) && Clean(FOLLOWER)
  {
    CleanIsSound(FOLLOWER);
  }

  lemma {:induction false} NoSlashSettled(s: string)
    requires '\\' !in s
    ensures Settled(s) && ('"' !in s ==> Paired(s))
  {
    if s != "" {
      assert s[0] in s;
      NoSlashSettled(s[1..]);
    }
  }

  lemma CleanIsSound(v: Value)
    requires Clean(v)
    ensures Sound(v)
  {
    if !v.Null? {
      NoSlashSettled(v.s);
    }
  }

  lemma SecondMisfits(v: Value)
    requires TextFrom(Fields(Encode(v) + "\""), 1)
    ensures !FitsColumns(Line([Str("a"), v]), 2)
  {
    var row := [Str("a"), v];
    NothingEscaped("a");
    LineUnfold(row);
    ReadPaired("a", After(row));
    assert row[1..] == [v];
    assert Drop(After(row), 2) == Encode(v) + "\"";
    TextBehindFirst(Fields(Drop(Line(row), 1)), 1);
  }

  lemma TextBehindFirst(fields: seq<string>, n: nat)
    requires fields != [] && TextFrom(fields[1..], n)
    ensures TextFrom(fields, n + 1)
  {
    var k :| n <= k < |fields[1..]| && fields[1..][k] != "";
    assert fields[k + 1] != "";
  }

  lemma ExampleEscape()
    ensures Encode(Str("b\\\"ccc")) == "b" + ("\\" + ("\\\"" + "ccc"))
  {
    NothingEscaped("ccc");
    EscapeCons('"', "ccc");
    EscapeCons('\\', "\"ccc");
    EscapeCons('b', "\\\"ccc");
    ExamplePieces();
  }

  lemma ExamplePieces()
    ensures ['"'] + "ccc" == "\"ccc" && ['\\'] + "\"ccc" == "\\\"ccc" && ['b'] + "\\\"ccc" == "b\\\"ccc"
    ensures "" + ['b'] + ("" + ['\\'] + ("\\" + ['"'] + "ccc")) == "b" + ("\\" + ("\\\"" + "ccc"))
  {
  }

  lemma ExampleTails()
    ensures var t := "b" + ("\\" + ("\\\"" + "ccc")) + "\"";
            && t == "b\\\\\"ccc\"" && t[1..] == "\\\\\"ccc\""
            && Drop(t[1..], 2) == "\"ccc\"" && Drop("\"ccc\"", 3) == "c\""
  {
  }

  /** A row of two with a backslash before a quote, for whose line the reader writes past the last column. */
  lemma MisfitExample()
    ensures !FitsColumns(Line([Str("a"), Str("b\\\"ccc")]), 2)
  {
    ExampleEscape();
    ExampleTails();
    ReadOn("c\"", 0);
    ReadOn("\"ccc\"", 0);
    ReadOn("\\\\\"ccc\"", 1);
    ReadOn("b\\\\\"ccc\"", 1);
    SecondMisfits(Str("b\\\"ccc"));
  }
}
