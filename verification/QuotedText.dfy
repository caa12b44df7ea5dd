/** Values as SQL string literals: the writer, and the reader that MySQL is (Reference Manual, section 9.1.1). */
module QuotedText {
  import opened Text

  // ---------- writer ----------

  function Escape(s: string): string {
    if s == "" then "" else (if s[0] == '\'' then "\\'" else [s[0]]) + Escape(s[1..])
  }

  function Quoted(s: string): string {
    "'" + Escape(s) + "'"
  }

  lemma {:induction false} EscapeSnoc(s: string, c: char)
    ensures Escape(s + [c]) == Escape(s) + (if c == '\'' then "\\'" else [c])
  {
    if s == "" {
      assert (s + [c])[1..] == "";
    } else {
      assert (s + [c])[1..] == s[1..] + [c];
      EscapeSnoc(s[1..], c);
    }
  }

  method QuotedToStream(str: string, stream: string) returns (out: string)
    ensures out == stream + Quoted(str)
  {
    out := stream + "'";
    for i := 0 to |str|
      invariant out == stream + ("'" + Escape(str[..i]))
    {
      assert str[..i + 1] == str[..i] + [str[i]];
      EscapeSnoc(str[..i], str[i]);
      if str[i] == '\'' {
        out := out + "\\'";
      } else {
        out := out + [str[i]];
      }
    }
    assert str[..|str|] == str;
    out := out + "'";
  }

  // ---------- reader ----------

  /** What a backslash and a character stand for; before % and _ the backslash stays. */
  function Unescape(c: char): string {
    if c == '0' then ['\0']
    else if c == 'b' then [8 as char]
    else if c == 'n' then "\n"
    else if c == 'r' then "\r"
    else if c == 't' then "\t"
    else if c == 'Z' then [26 as char]
    else if c == '%' || c == '_' then ['\\', c]
    else [c]
  }

  function Before(s: string, r: Option<(string, string)>): Option<(string, string)> {
    match r
    case None => None
    case Some((value, rest)) => Some((s + value, rest))
  }

  /** The value of a literal whose opening quote has been read, and what follows its closing quote. */
  function Content(t: string): (r: Option<(string, string)>)
    ensures r.Some? ==> |r.value.1| < |t|
    decreases |t|
  {
    if t == "" then None
    else if t[0] == '\\' then (if |t| == 1 then None else Before(Unescape(t[1]), Content(t[2..])))
    else if t[0] == '\'' then
      (if |t| > 1 && t[1] == '\'' then Before("'", Content(t[2..])) else Some(("", t[1..])))
    else Before([t[0]], Content(t[1..]))
  }

  function ReadLiteral(t: string): Option<(string, string)> {
    if t != "" && t[0] == '\'' then Content(t[1..]) else None
  }

  // ---------- round trip ----------

  predicate Safe(s: string, i: nat) {
    i < |s| && s[i] == '\\' ==> i + 1 < |s| && (s[i + 1] == '%' || s[i + 1] == '_')
  }

  /** Every backslash stands before a percent sign or an underscore. */
  ghost predicate AllSafe(s: string) {
    forall i: nat :: Safe(s, i)
  }

  lemma SafeTail(s: string, n: nat)
    requires n <= |s| && forall i: nat :: i < n ==> Safe(s, i)
    ensures AllSafe(s) <==> AllSafe(s[n..])
  {
    if AllSafe(s) {
      forall i: nat
        ensures Safe(s[n..], i)
      {
        assert Safe(s, n + i);
      }
    }
    if AllSafe(s[n..]) {
      forall i: nat
        ensures Safe(s, i)
      {
        if i >= n {
          assert Safe(s[n..], i - n);
        }
      }
    }
  }

  function Closed(s: string, rest: string): string {
    Escape(s) + "'" + rest
  }

  lemma ClosedParts(s: string, rest: string)
    ensures s == "" ==> Closed(s, rest) == "'" + rest
    ensures s != "" && s[0] == '\'' ==> Closed(s, rest) == "\\'" + Closed(s[1..], rest)
    ensures s != "" && s[0] != '\'' ==> Closed(s, rest) == [s[0]] + Closed(s[1..], rest)
  {
  }

  lemma FirstOfClosed(s: string, rest: string)
    ensures Closed(s, rest) != ""
    ensures Closed(s, rest)[0] == '\'' <==> s == ""
  {
    ClosedParts(s, rest);
  }

  /** The value alone, wherever its literal ends. */
  function ValueOf(t: string): Option<string> {
    match Content(t)
    case None => None
    case Some((value, _)) => Some(value)
  }

  function After(p: string, r: Option<string>): Option<string> {
    match r
    case None => None
    case Some(value) => Some(p + value)
  }

  /** The text of a value before a tail. */
  function Inner(s: string, tail: string): string {
    Escape(s) + tail
  }

  lemma TextStep(s: string, tail: string)
    ensures s == "" ==> Inner(s, tail) == tail
    ensures s != "" && s[0] != '\'' ==> Inner(s, tail) == [s[0]] + Inner(s[1..], tail)
    ensures s != "" && s[0] == '\'' ==> Inner(s, tail) == "\\" + ("'" + Inner(s[1..], tail))
  {
    if s != "" && s[0] != '\'' {
      Regroup([s[0]], Escape(s[1..]), tail);
    } else if s != "" {
      Regroup("\\'", Escape(s[1..]), tail);
      Regroup("\\", "'", Inner(s[1..], tail));
    }
  }

  lemma ContentChar(c: char, t: string)
    requires c != '\'' && c != '\\'
    ensures Content([c] + t) == Before([c], Content(t))
  {
    assert ([c] + t)[1..] == t;
  }

  lemma ContentPair(c: char, t: string)
    ensures Content("\\" + ([c] + t)) == Before(Unescape(c), Content(t))
  {
    assert ("\\" + ([c] + t))[2..] == t;
  }

  lemma ContentQuote(t: string)
    ensures NoQuoteNext(t) ==> Content("'" + t) == Some(("", t))
    ensures Content("'" + ("'" + t)) == Before("'", Content(t))
  {
    assert ("'" + t)[1..] == t;
    assert ("'" + ("'" + t))[2..] == t;
  }

  /** Reading the text of a value one step, whatever follows the text. */
  lemma PlainStep(s: string, tail: string)
    requires s != "" && s[0] != '\\'
    ensures Content(Inner(s, tail)) == Before([s[0]], Content(Inner(s[1..], tail)))
  {
    TextStep(s, tail);
    if s[0] == '\'' {
      ContentPair('\'', Inner(s[1..], tail));
    } else {
      ContentChar(s[0], Inner(s[1..], tail));
    }
  }

  lemma PairText(s: string, tail: string)
    requires |s| > 1 && s[0] == '\\'
    ensures s[1] != '\'' ==> Inner(s, tail) == "\\" + ([s[1]] + Inner(s[2..], tail))
    ensures s[1] == '\'' ==> Inner(s, tail) == "\\" + ("\\" + ("'" + Inner(s[2..], tail)))
  {
    assert s[1..][1..] == s[2..];
    TextStep(s, tail);
    TextStep(s[1..], tail);
  }

  lemma PairStep(s: string, tail: string)
    requires |s| > 1 && s[0] == '\\' && s[1] != '\''
    ensures Content(Inner(s, tail)) == Before(Unescape(s[1]), Content(Inner(s[2..], tail)))
  {
    PairText(s, tail);
    ContentPair(s[1], Inner(s[2..], tail));
  }

  /** A backslash before a quote lets the literal end there, unless the value ends there too. */
  lemma BrokenOff(s: string, tail: string)
    requires |s| > 2 && s[0] == '\\' && s[1] == '\''
    ensures ValueOf(Inner(s, tail)) == Some("\\")
  {
    PairText(s, tail);
    TextStep(s[2..], tail);
    ContentPair('\\', "'" + Inner(s[2..], tail));
    ContentQuote(Inner(s[2..], tail));
    assert "\\" + "" == "\\";
  }

  predicate Slashes(b: string) {
    forall i :: 0 <= i < |b| ==> b[i] == '\\'
  }

  /** The text `tail` is not read as q with more backslashes than it should have. */
  ghost predicate Steady(tail: string, q: string) {
    && (forall b :: Slashes(b) && b != "" ==> ValueOf(tail) != Some(b + q))
    && (forall b :: Slashes(b) ==> ValueOf("\\" + tail) != Some(b + ("\\" + q)))
    && (forall b :: Slashes(b) ==> ValueOf("\\" + ("\\" + ("'" + tail))) != Some(b + ("\\'" + q)))
  }

  lemma SlashFirst(b: string, x: string)
    requires Slashes(b) && b != ""
    ensures (b + x)[0] == '\\'
    ensures x != "" && x[0] == '\\' ==> (b + x)[1] == '\\'
  {
  }

  lemma Whole(s: string, q: string)
    ensures |s| == 1 ==> s + q == [s[0]] + q
    ensures |s| == 2 ==> s + q == [s[0], s[1]] + q && s[2..] == ""
  {
  }

  /** At a backslash that ends the value or stands before a quote. */
  lemma SteadyAtQuote(b: string, s: string, tail: string, q: string)
    requires Slashes(b) && Steady(tail, q) && s != "" && s[0] == '\\' && (|s| == 1 || s[1] == '\'')
    ensures ValueOf(Inner(s, tail)) != Some(b + (s + q))
  {
    Whole(s, q);
    if |s| == 1 {
      assert s == "\\" && Escape(s) == "\\";
    } else if |s| == 2 {
      PairText(s, tail);
      TextStep("", tail);
    } else {
      BrokenOff(s, tail);
    }
  }

  /** Then neither is a text of a value before it. */
  lemma {:induction false} NeverAhead(b: string, s: string, tail: string, q: string)
    requires Slashes(b) && b != "" && Steady(tail, q)
    ensures ValueOf(Inner(s, tail)) != Some(b + (s + q))
    decreases |s|
  {
    if s == "" {
      TextStep(s, tail);
      assert s + q == q;
    } else if s[0] != '\\' {
      PlainStep(s, tail);
      BehindSlashes(b, [s[0]], ValueOf(Inner(s[1..], tail)), s + q);
    } else if |s| == 1 || s[1] == '\'' {
      SteadyAtQuote(b, s, tail, q);
    } else {
      PairStep(s, tail);
      var r := ValueOf(Inner(s[2..], tail));
      if s[1] == '\\' {
        NeverAhead(b + "\\", s[2..], tail, q);
        OneMore(b, s, q);
        After1(r, (b + "\\") + (s[2..] + q));
      } else {
        BehindSlashes(b, Unescape(s[1]), r, s + q);
      }
    }
  }

  /** A value that begins otherwise than with one backslash after another. */
  lemma BehindSlashes(b: string, p: string, r: Option<string>, x: string)
    requires Slashes(b) && b != "" && p != "" && x != ""
    requires p[0] != '\\' || (|p| > 1 && p[1] != '\\' && x[0] == '\\')
    ensures After(p, r) != Some(b + x)
  {
    SlashFirst(b, x);
    if r.Some? {
      assert (p + r.value)[0] == p[0] && (|p| > 1 ==> (p + r.value)[1] == p[1]);
    }
  }

  lemma After1(r: Option<string>, x: string)
    ensures After("\\", r) == Some("\\" + x) <==> r == Some(x)
  {
    if r.Some? && "\\" + r.value == "\\" + x {
      assert r.value == ("\\" + r.value)[1..] == ("\\" + x)[1..];
    }
  }

  lemma OneMore(b: string, s: string, q: string)
    requires |s| > 1 && s[0] == s[1] == '\\' && Slashes(b)
    ensures b + (s + q) == "\\" + ((b + "\\") + (s[2..] + q)) && Slashes(b + "\\")
  {
    assert s == "\\" + ("\\" + s[2..]);
    Rotate(b);
    Regroup("\\" + b, "\\", s[2..] + q);
  }

  lemma Rotate(b: string)
    requires Slashes(b)
    ensures b + "\\" == "\\" + b
  {
  }

  predicate NoQuoteNext(rest: string) {
    rest == "" || rest[0] != '\''
  }

  /** The value comes back only if its backslashes are safe and what follows is read as q. */
  lemma {:induction false} ExactValue(s: string, tail: string, q: string)
    requires Steady(tail, q) && ValueOf(Inner(s, tail)) == Some(s + q)
    ensures AllSafe(s) && ValueOf(tail) == Some(q)
    decreases |s|
  {
    if s == "" {
      TextStep(s, tail);
      assert s + q == q;
    } else if s[0] != '\\' {
      PlainStep(s, tail);
      Shift([s[0]], ValueOf(Inner(s[1..], tail)), s, q);
      ExactValue(s[1..], tail, q);
      SafeTail(s, 1);
    } else if |s| == 1 || s[1] == '\'' {
      assert "" + (s + q) == s + q;
      SteadyAtQuote("", s, tail, q);
    } else {
      PairStep(s, tail);
      if Safe(s, 0) {
        Shift(Unescape(s[1]), ValueOf(Inner(s[2..], tail)), s, q);
        ExactValue(s[2..], tail, q);
        SafeTail(s, 2);
      } else {
        ExactPair(s, tail, q);
      }
    }
  }

  lemma ExactPair(s: string, tail: string, q: string)
    requires Steady(tail, q) && |s| > 1 && s[0] == '\\' && s[1] != '\'' && !Safe(s, 0)
    ensures After(Unescape(s[1]), ValueOf(Inner(s[2..], tail))) != Some(s + q)
  {
    assert (s + q)[0] == '\\';
    if s[1] == '\\' {
      OneMore("", s, q);
      assert "" + (s + q) == s + q && "" + "\\" == "\\";
      NeverAhead("\\", s[2..], tail, q);
      After1(ValueOf(Inner(s[2..], tail)), "\\" + (s[2..] + q));
    }
  }

  lemma Shift(p: string, r: Option<string>, s: string, q: string)
    requires p <= s && After(p, r) == Some(s + q)
    ensures r == Some(s[|p|..] + q)
  {
    assert s + q == p + (s[|p|..] + q);
    assert r.value == (p + r.value)[|p|..];
  }

  lemma {:induction false} SafeReads(s: string, tail: string)
    requires AllSafe(s)
    ensures Content(Inner(s, tail)) == Before(s, Content(tail))
    decreases |s|
  {
    assert Safe(s, 0);
    if s == "" {
      TextStep(s, tail);
      BeforeNothing(Content(tail));
    } else if s[0] != '\\' {
      PlainStep(s, tail);
      SafeTail(s, 1);
      SafeReads(s[1..], tail);
      BeforeTwice([s[0]], s[1..], s, Content(tail));
    } else {
      PairStep(s, tail);
      SafeTail(s, 2);
      SafeReads(s[2..], tail);
      assert Unescape(s[1]) == s[..2];
      BeforeTwice(s[..2], s[2..], s, Content(tail));
    }
  }

  lemma BeforeNothing(r: Option<(string, string)>)
    ensures Before("", r) == r
  {
    if r.Some? {
      assert "" + r.value.0 == r.value.0;
    }
  }

  lemma BeforeTwice(p: string, q: string, s: string, r: Option<(string, string)>)
    requires s == p + q
    ensures Before(p, Before(q, r)) == Before(s, r)
  {
    if r.Some? {
      Regroup(p, q, r.value.0);
    }
  }

  lemma SomethingRead(rest: string)
    requires NoQuoteNext(rest)
    ensures ValueOf(rest) != Some("")
  {
  }

  /** The closing quote. */
  lemma QuoteSteady(rest: string)
    requires NoQuoteNext(rest)
    ensures Content("'" + rest) == Some(("", rest)) && Steady("'" + rest, "")
  {
    ContentQuote(rest);
    ContentPair('\'', rest);
    ContentPair('\\', "'" + ("'" + rest));
    SomethingRead(rest);
    forall b | Slashes(b)
      ensures ValueOf("\\" + ("'" + rest)) != Some(b + ("\\" + ""))
      ensures ValueOf("\\" + ("\\" + ("'" + ("'" + rest)))) != Some(b + ("\\'" + ""))
    {
      QuoteAfterSlashes(b, ValueOf(rest));
    }
  }

  lemma QuoteAfterSlashes(b: string, r: Option<string>)
    requires Slashes(b) && r != Some("")
    ensures After("'", r) != Some(b + ("\\" + ""))
    ensures After("\\", After("'", r)) != Some(b + ("\\'" + ""))
  {
    var one, two := b + ("\\" + ""), b + ("\\'" + "");
    assert one[0] == '\\';
    assert b != "" ==> two[1] == '\\';
    if r.Some? {
      assert |"'" + r.value| > 1 && ("'" + r.value)[0] == '\'';
      assert ("\\" + ("'" + r.value))[1] == '\'';
      assert b == "" ==> |two| == 2;
    }
  }

  /**
   The literal written for a value is read back as that value exactly when every backslash in it stands before a
   percent sign or an underscore; otherwise another value is read, wherever the literal then ends.
   */
  lemma LiteralRoundTrip(s: string, rest: string)
    requires NoQuoteNext(rest)
    ensures ReadLiteral(Quoted(s) + rest) == Some((s, rest)) <==> AllSafe(s)
    ensures forall after :: ReadLiteral(Quoted(s) + rest) == Some((s, after)) ==> AllSafe(s)
  {
    var t := "'" + rest;
    assert (Quoted(s) + rest)[1..] == Inner(s, t);
    QuoteSteady(rest);
    assert s + "" == s;
    if AllSafe(s) {
      SafeReads(s, t);
    } else if ValueOf(Inner(s, t)) == Some(s) {
      ExactValue(s, t, "");
    }
  }
}
