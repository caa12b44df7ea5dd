/** Every text of a GTID set: single numbers or both ends, leading zeros, and line breaks anywhere. */
module GtidGrammar {
  import opened Text
  import opened Decimal
  import opened Intervals
  import opened GtidPackage
  import opened GtidText
  import GtidSets
  import LineReader

  // ---------- the grammar ----------

  predicate AllDigits(t: string) {
    forall k :: 0 <= k < |t| ==> '0' <= t[k] <= '9'
  }

  function DecimalValue(t: string): nat
    requires AllDigits(t)
  {
    if t == "" then 0 else 10 * DecimalValue(t[..|t| - 1]) + (t[|t| - 1] as int - '0' as int)
  }

  /** A decimal number that fits a Java long. */
  predicate IsNumber(t: string, n: int) {
    t != "" && AllDigits(t) && DecimalValue(t) == n < 0x8000_0000_0000_0000
  }

  predicate IsPair(t: string, a: string, b: string, i: Interval) {
    t == a + "-" + b && IsNumber(a, i.start) && IsNumber(b, i.end)
  }

  /** Both ends, or the number alone if there is only one. */
  ghost predicate IsInterval(t: string, i: Interval) {
    (exists a, b :: IsPair(t, a, b, i)) || (IsNumber(t, i.start) && i.start == i.end)
  }

  ghost predicate AreIntervals(ps: seq<string>, s: seq<Interval>) {
    |ps| == |s| && forall k :: 0 <= k < |s| ==> IsInterval(ps[k], s[k])
  }

  ghost predicate IsEntry(t: string, e: Entry) {
    exists ps :: AreIntervals(ps, e.intervals) && t == e.uuid + ":" + Join(ps, ':')
  }

  ghost predicate AreEntries(ps: seq<string>, es: seq<Entry>) {
    |ps| == |es| && forall k :: 0 <= k < |es| ==> IsEntry(ps[k], es[k])
  }

  /** Names without the characters that structure the text, all different, and no empty list. */
  predicate Named(es: seq<Entry>) {
    && (forall k :: 0 <= k < |es| ==> PlainName(es[k].uuid) && es[k].intervals != [])
    && forall j, k :: 0 <= j < k < |es| ==> es[j].uuid != es[k].uuid
  }

  predicate PlainName(uuid: string) {
    Free(uuid, ':') && Free(uuid, ',') && Free(uuid, '\n')
  }

  // ---------- numbers and intervals ----------

  lemma {:induction false} ReadDigits(t: string)
    requires AllDigits(t)
    ensures Digits(t) == Some(DecimalValue(t))
    decreases |t|
  {
    if t != "" {
      ReadDigits(t[..|t| - 1]);
    }
  }

  lemma ReadNumber(t: string, n: int)
    requires IsNumber(t, n)
    ensures ParseLong(t) == Some(n)
    ensures forall c :: c == '-' || c == ':' || c == ',' || c == '\n' ==> Free(t, c)
  {
    ReadDigits(t);
    assert '0' <= t[0] <= '9';
  }

  lemma ReadAnInterval(t: string, i: Interval)
    requires IsInterval(t, i)
    ensures ParseInterval(t) == Ok(i) && t != ""
    ensures forall c :: c == ':' || c == ',' || c == '\n' ==> Free(t, c)
  {
    if a, b :| IsPair(t, a, b, i) {
      ReadNumber(a, i.start);
      ReadNumber(b, i.end);
      SplitFirst(a, '-', b);
      SplitFree(b, '-');
      assert SplitOn(t, '-') == [a, b];
      ParseTwo(a, b);
    } else {
      ReadNumber(t, i.start);
      SplitFree(t, '-');
      assert SplitOn(t, '-') == [t] && [t][1..] == [] && [i.start] + [] == [i.start];
      assert ParseLongs([t]) == Some([i.start]);
    }
  }

  lemma ParseThree(a: string, b: string, c: string)
    requires ParseLong(a).Some? && ParseLong(b).Some? && ParseLong(c).Some?
    ensures ParseLongs([a, b, c]) == Some([ParseLong(a).value, ParseLong(b).value, ParseLong(c).value])
  {
    var x, y, z := ParseLong(a).value, ParseLong(b).value, ParseLong(c).value;
    ParseTwo(b, c);
    assert [a, b, c][1..] == [b, c] && [x] + [y, z] == [x, y, z];
  }

  /** A third number does not count. */
  lemma BeyondInterval(a: string, b: string, c: string, i: Interval, n: int)
    requires IsNumber(a, i.start) && IsNumber(b, i.end) && IsNumber(c, n)
    ensures ParseInterval(a + "-" + (b + "-" + c)) == Ok(i)
  {
    ReadNumber(a, i.start);
    ReadNumber(b, i.end);
    ReadNumber(c, n);
    SplitFirst(a, '-', b + "-" + c);
    SplitFirst(b, '-', c);
    SplitFree(c, '-');
    assert SplitOn(a + "-" + (b + "-" + c), '-') == [a, b, c];
    ParseThree(a, b, c);
  }

  /** Neither does a dash with nothing behind it. */
  lemma OpenInterval(a: string, n: int)
    requires IsNumber(a, n)
    ensures ParseInterval(a + "-" + "") == Ok(Interval(n, n))
  {
    ReadNumber(a, n);
    SplitFirst(a, '-', "");
    assert SplitAll("", '-') == [""] && [a] + [""] == [a, ""] && [a, ""][..1] == [a];
    assert DropEmpty([a]) == [a] && DropEmpty([a, ""]) == DropEmpty([a]);
    assert SplitOn(a + "-" + "", '-') == [a] && [a][1..] == [] && [n] + [] == [n];
    assert ParseLongs([a]) == Some([n]);
  }

  lemma {:induction false} ReadIntervals(ps: seq<string>, s: seq<Interval>)
    requires AreIntervals(ps, s)
    ensures ParseIntervals(ps) == Ok(s)
    decreases |ps|
  {
    if ps != [] {
      assert IsInterval(ps[0], s[0]);
      ReadAnInterval(ps[0], s[0]);
      forall k | 0 <= k < |s| - 1
        ensures IsInterval(ps[1..][k], s[1..][k])
      {
        assert IsInterval(ps[k + 1], s[k + 1]);
      }
      ReadIntervals(ps[1..], s[1..]);
      HeadTail(s);
    }
  }

  lemma IntervalsFree(ps: seq<string>, s: seq<Interval>, c: char)
    requires AreIntervals(ps, s) && (c == ':' || c == ',' || c == '\n')
    ensures AllFree(ps, c) && forall k :: 0 <= k < |ps| ==> ps[k] != ""
  {
    forall k | 0 <= k < |ps|
      ensures Free(ps[k], c) && ps[k] != ""
    {
      assert IsInterval(ps[k], s[k]);
      ReadAnInterval(ps[k], s[k]);
    }
  }

  // ---------- entries ----------

  lemma ReadEntry(t: string, e: Entry)
    requires IsEntry(t, e) && PlainName(e.uuid) && e.intervals != []
    ensures ParseEntry(t) == Ok(Entry(e.uuid, Adopted(e.intervals)))
    ensures t != "" && Free(t, ',') && Free(t, '\n')
  {
    var ps :| AreIntervals(ps, e.intervals) && t == e.uuid + ":" + Join(ps, ':');
    IntervalsFree(ps, e.intervals, ':');
    SplitOnJoin(ps, ':');
    ReadIntervals(ps, e.intervals);
    NamedIntervals(e.uuid, Join(ps, ':'), e.intervals);
    EntryFree(e.uuid, ps, e.intervals, ',');
    EntryFree(e.uuid, ps, e.intervals, '\n');
  }

  lemma NamedIntervals(uuid: string, u: string, s: seq<Interval>)
    requires Free(uuid, ':') && ParseIntervals(SplitOn(u, ':')) == Ok(s)
    ensures ParseEntry(uuid + ":" + u) == Ok(Entry(uuid, Adopted(s)))
  {
    GtidText.EntryParts(uuid, u);
  }

  lemma EntryFree(uuid: string, ps: seq<string>, s: seq<Interval>, c: char)
    requires AreIntervals(ps, s) && Free(uuid, c) && (c == ',' || c == '\n')
    ensures Free(uuid + ":" + Join(ps, ':'), c)
  {
    IntervalsFree(ps, s, c);
    JoinFree(ps, ':', c);
  }

  lemma FrontEntries(ps: seq<string>, es: seq<Entry>)
    requires AreEntries(ps, es) && Named(es) && es != []
    ensures AreEntries(ps[..|es| - 1], es[..|es| - 1]) && Named(es[..|es| - 1])
    ensures IsEntry(ps[|es| - 1], es[|es| - 1]) && PlainName(es[|es| - 1].uuid) && es[|es| - 1].intervals != []
  {
    var n := |es| - 1;
    forall k | 0 <= k < n
      ensures IsEntry(ps[..n][k], es[..n][k])
    {
      assert IsEntry(ps[k], es[k]);
    }
  }

  lemma LastEntry(ps: seq<string>, es: seq<Entry>)
    requires |ps| == |es| > 0 && forall j, k :: 0 <= j < k < |es| ==> es[j].uuid != es[k].uuid
    requires var n := |es| - 1;
             ParseEntries(ps[..n]) == Ok(Reread(es[..n])) &&
             ParseEntry(ps[n]) == Ok(Entry(es[n].uuid, Adopted(es[n].intervals)))
    ensures ParseEntries(ps) == Ok(Reread(es))
  {
    var n, e := |es| - 1, Entry(es[|es| - 1].uuid, Adopted(es[|es| - 1].intervals));
    PutNew(Reread(es[..n]), e);
    RereadLast(es);
    ParseLast(ps, ps[n], Ok(Reread(es[..n])));
  }

  lemma RereadLast(es: seq<Entry>)
    requires es != []
    ensures var n := |es| - 1;
            Reread(es) == Reread(es[..n]) + [Entry(es[n].uuid, Adopted(es[n].intervals))]
  {
  }

  lemma {:induction false} ReadEntries(ps: seq<string>, es: seq<Entry>)
    requires AreEntries(ps, es) && Named(es)
    ensures ParseEntries(ps) == Ok(Reread(es))
    decreases |es|
  {
    if es != [] {
      FrontEntries(ps, es);
      ReadEntries(ps[..|es| - 1], es[..|es| - 1]);
      ReadEntry(ps[|es| - 1], es[|es| - 1]);
      LastEntry(ps, es);
    }
  }

  /** A server that is named again: its last list counts, in the place of the first. */
  lemma NamedAgain(ps: seq<string>, es: seq<Entry>, t: string, e: Entry, k: nat)
    requires AreEntries(ps, es) && Named(es) && k < |es| && es[k].uuid == e.uuid
    requires IsEntry(t, e) && PlainName(e.uuid) && e.intervals != []
    ensures ParseEntries(ps + [t]) == Ok(Reread(es)[k := Entry(e.uuid, Adopted(e.intervals))])
  {
    ReadEntries(ps, es);
    ReadEntry(t, e);
    assert (ps + [t])[..|ps|] == ps;
    ParseLast(ps + [t], t, Ok(Reread(es)));
    PutAt(Reread(es), Entry(e.uuid, Adopted(e.intervals)), k);
  }

  lemma {:induction false} BreaksGo(s: string, t: string)
    requires StripsTo(s, '\n', t)
    ensures GtidText.Without(s, '\n') == t
  {
    if s != "" {
      if s[0] == '\n' {
        BreaksGo(s[1..], t);
      } else {
        BreaksGo(s[1..], t[1..]);
        assert [t[0]] + t[1..] == t;
      }
    }
  }

  lemma EntriesSplit(ps: seq<string>, es: seq<Entry>)
    requires AreEntries(ps, es) && Named(es) && es != []
    ensures Join(ps, ',') != "" && SplitOn(Join(ps, ','), ',') == ps
  {
    forall k | 0 <= k < |ps|
      ensures Free(ps[k], ',') && ps[k] != ""
    {
      assert IsEntry(ps[k], es[k]);
      ReadEntry(ps[k], es[k]);
    }
    SplitOnJoin(ps, ',');
  }

  /**
   Every text of the grammar is read as the servers and intervals that it names, the first two of a list joined if they
   touch.
   */
  lemma GrammarRead(s: string, ps: seq<string>, es: seq<Entry>)
    requires Named(es) && es != [] && AreEntries(ps, es) && StripsTo(s, '\n', Join(ps, ','))
    ensures Parse(s) == Ok(Reread(es))
  {
    EntriesSplit(ps, es);
    BreaksGo(s, Join(ps, ','));
    ReadEntries(ps, es);
  }

  /** And so as the same numbers for every server. */
  lemma NumbersRead(s: string, ps: seq<string>, es: seq<Entry>, k: nat, v: int)
    requires Named(es) && k < |es| && AreEntries(ps, es) && StripsTo(s, '\n', Join(ps, ',')) && Sorted(es[k].intervals)
    ensures Parse(s).Ok? && |Parse(s).value| == |es| && Parse(s).value[k].uuid == es[k].uuid
    ensures Covers(Parse(s).value[k].intervals, v) <==>
            exists j :: 0 <= j < |es[k].intervals| && es[k].intervals[j].start <= v <= es[k].intervals[j].end
  {
    GrammarRead(s, ps, es);
    AdoptedCanonical(es[k].intervals);
  }

  /** A decimal number is read exactly when it fits a Java long, with a sign or without. */
  lemma LongExactly(t: string)
    requires t != "" && AllDigits(t)
    ensures var n: int := DecimalValue(t);
            && ParseLong(t) == (if n < 0x8000_0000_0000_0000 then Some(n) else None)
            && ParseLong("-" + t) == (if n <= 0x8000_0000_0000_0000 then Some(-n) else None)
            && LineReader.LexInt(t) == (if n < 0x8000_0000 then Some(n) else None)
            && LineReader.LexInt("-" + t) == (if n <= 0x8000_0000 then Some(-n) else None)
  {
    ReadDigits(t);
    assert '0' <= t[0] <= '9' && ("-" + t)[1..] == t;
  }

  // ---------- single transactions, and what is written ----------

  /** A server's name, a colon and a number are a single transaction. */
  lemma GtidRead(uuid: string, t: string, n: int)
    requires Free(uuid, ':') && IsNumber(t, n)
    ensures GtidSets.GtidSet.SplitGtid(uuid + ":" + t) == Ok((uuid, n))
  {
    ReadNumber(t, n);
    SplitFirst(uuid, ':', t);
    SplitFree(t, ':');
    assert SplitOn(uuid + ":" + t, ':') == [uuid, t];
  }

  /** Without a colon, or without a number behind it, there is none. */
  lemma GtidNotRead(uuid: string, t: string)
    requires Free(uuid, ':') && Free(t, ':') && t != "" && !('0' <= t[|t| - 1] <= '9')
    ensures GtidSets.GtidSet.SplitGtid(uuid).Err? && GtidSets.GtidSet.SplitGtid(uuid + ":" + t).Err?
  {
    SplitFree(uuid, ':');
    SplitFirst(uuid, ':', t);
    SplitFree(t, ':');
    assert SplitOn(uuid + ":" + t, ':') == [uuid, t];
    NotANumber(t);
  }

  lemma NotANumber(t: string)
    requires t != "" && !('0' <= t[|t| - 1] <= '9')
    ensures ParseLong(t).None?
  {
    var body := if t[0] == '-' || t[0] == '+' then t[1..] else t;
    if body != "" {
      assert body[|body| - 1] == t[|t| - 1];
      assert Digits(body) == None;
    }
  }

  lemma {:induction false} NumTextIsNumber(n: nat)
    ensures AllDigits(NumText(n)) && DecimalValue(NumText(n)) == n
  {
    var s, c := NumText(n), '0' + (n % 10) as char;
    assert c as int == '0' as int + n % 10;
    if n < 10 {
      assert s == [c] && s[..0] == "" && DecimalValue(s[..0]) == 0;
    } else {
      NumTextIsNumber(n / 10);
      assert s[..|s| - 1] == NumText(n / 10);
    }
  }

  /** What is written for an interval is of the grammar. */
  lemma WrittenInterval(i: Interval)
    requires NonNegative(i)
    ensures IsInterval(IntervalText(i), i)
  {
    NumTextIsNumber(i.start);
    NumTextIsNumber(i.end);
    assert IsPair(IntervalText(i), LongText(i.start), LongText(i.end), i);
  }

  lemma WrittenEntry(e: Entry)
    requires Printable(e)
    ensures IsEntry(EntryText(e), e)
  {
    forall k | 0 <= k < |e.intervals|
      ensures IsInterval(IntervalTexts(e.intervals)[k], e.intervals[k])
    {
      WrittenInterval(e.intervals[k]);
    }
  }

  /** A name is sent without its dashes. */
  lemma {:induction false} DashesGo(uuid: string)
    ensures StripsTo(uuid, '-', Strip(uuid))
  {
    if uuid != "" {
      DashesGo(uuid[1..]);
      var rest := Strip(uuid[1..]);
      assert "" + rest == rest && ([uuid[0]] + rest)[1..] == rest;
    }
  }

  // ---------- names and packages ----------

  /** The same character, or the two forms of a letter. */
  predicate SameLetter(c: char, d: char) {
    c == d || ('A' <= c <= 'Z' && d as int == c as int + 32) || ('A' <= d <= 'Z' && c as int == d as int + 32)
  }

  lemma CaseIgnored(s: string, t: string)
    ensures GtidSets.EqualsIgnoreCase(s, t) <==> |s| == |t| && forall k :: 0 <= k < |s| ==> SameLetter(s[k], t[k])
  {
    forall k | 0 <= k < |s| && k < |t|
      ensures LowerChar(s[k]) == LowerChar(t[k]) <==> SameLetter(s[k], t[k])
    {
      LowerLetter(s[k], t[k]);
    }
  }

  lemma LowerLetter(c: char, d: char)
    ensures LowerChar(c) == LowerChar(d) <==> SameLetter(c, d)
  {
    assert forall x: char :: 'A' <= x <= 'Z' ==> LowerChar(x) as int == x as int + 32;
  }

  /** A text of the grammar is sent as the identifiers and intervals it names. */
  lemma TextIsSent(s: string, ps: seq<string>, es: seq<Entry>)
    requires Named(es) && es != [] && AreEntries(ps, es) && StripsTo(s, '\n', Join(ps, ','))
    requires |es| < LONG_LIMIT && AllInRange(Reread(es)) && DataSize(Reread(es)) < 0x1_0000_0000
    ensures Parse(s) == Ok(Reread(es)) && AllIds(Parse(s).value)
    ensures ReadPackage(Package(Parse(s).value)) == Some(SidsOf(Reread(es)))
  {
    GrammarRead(s, ps, es);
    PackageRoundTrip(Reread(es));
  }
}
