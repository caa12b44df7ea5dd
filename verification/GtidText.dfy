/** GTID sets as text: what toString writes and the constructor reads. */
module GtidText {
  import opened Decimal
  import opened Intervals
  import opened Text
  import opened GtidPackage

  // ---------- splitting and joining ----------

  predicate Free(s: string, c: char) {
    forall k :: 0 <= k < |s| ==> s[k] != c
  }

  function SplitAll(s: string, c: char): (ps: seq<string>)
    ensures ps != []
  {
    if s == "" then [""]
    else
      var ps := SplitAll(s[1..], c);
      if s[0] == c then [""] + ps else [[s[0]] + ps[0]] + ps[1..]
  }

  function DropEmpty(ps: seq<string>): seq<string> {
    if ps != [] && ps[|ps| - 1] == "" then DropEmpty(ps[..|ps| - 1]) else ps
  }

  /** As String.split: empty pieces at the end are dropped, unless the text is not split at all. */
  function SplitOn(s: string, c: char): seq<string> {
    var ps := SplitAll(s, c);
    if |ps| == 1 then ps else DropEmpty(ps)
  }

  lemma {:induction false} SplitFree(s: string, c: char)
    requires Free(s, c)
    ensures SplitAll(s, c) == [s]
  {
    if s != "" {
      assert Free(s[1..], c);
      SplitFree(s[1..], c);
      assert [s[0]] + s[1..] == s;
    }
  }

  lemma {:induction false} SplitFirst(s: string, c: char, t: string)
    requires Free(s, c)
    ensures SplitAll(s + [c] + t, c) == [s] + SplitAll(t, c)
  {
    var whole := s + [c] + t;
    if s == "" {
      assert whole[0] == c && whole[1..] == t;
    } else {
      assert Free(s[1..], c);
      SplitFirst(s[1..], c, t);
      assert whole[0] == s[0] && whole[1..] == s[1..] + [c] + t;
      assert [s[0]] + s[1..] == s;
      assert ([s[1..]] + SplitAll(t, c))[1..] == SplitAll(t, c);
    }
  }

  predicate AllFree(ps: seq<string>, c: char) {
    forall k :: 0 <= k < |ps| ==> Free(ps[k], c)
  }

  lemma {:induction false} SplitJoin(ps: seq<string>, c: char)
    requires ps != [] && AllFree(ps, c)
    ensures SplitAll(Join(ps, c), c) == ps
  {
    assert Free(ps[0], c);
    if |ps| == 1 {
      SplitFree(ps[0], c);
    } else {
      SplitJoin(ps[1..], c);
      SplitFirst(ps[0], c, Join(ps[1..], c));
      assert [ps[0]] + ps[1..] == ps;
    }
  }

  lemma SplitOnJoin(ps: seq<string>, c: char)
    requires ps != [] && AllFree(ps, c) && ps[|ps| - 1] != ""
    ensures SplitOn(Join(ps, c), c) == ps
  {
    SplitJoin(ps, c);
  }

  lemma {:induction false} JoinFree(ps: seq<string>, c: char, d: char)
    requires AllFree(ps, d) && c != d
    ensures Free(Join(ps, c), d)
  {
    if |ps| == 1 {
      assert Free(ps[0], d);
    } else if ps != [] {
      assert Free(ps[0], d);
      JoinFree(ps[1..], c, d);
    }
  }

  // ---------- numbers ----------

  /** As Long.parseLong. */
  function ParseLong(s: string): Option<int> {
    SignedDigits(s, LONG_LIMIT)
  }

  function LongText(v: int): string {
    if v < 0 then "-" + NumText(-v) else NumText(v)
  }

  lemma LongRoundTrip(n: nat)
    requires n < LONG_LIMIT
    ensures ParseLong(LongText(n)) == Some(n)
    ensures Free(LongText(n), '-') && Free(LongText(n), ':') && Free(LongText(n), ',') && Free(LongText(n), '\n')
  {
    DigitsOf(n);
  }

  // ---------- reading ----------

  function ParseLongs(ps: seq<string>): Option<seq<int>> {
    if ps == [] then Some([])
    else match ParseLong(ps[0])
      case None => None
      case Some(v) => match ParseLongs(ps[1..]) case None => None case Some(vs) => Some([v] + vs)
  }

  function ParseInterval(s: string): Result<Interval> {
    match ParseLongs(SplitOn(s, '-'))
    case None => Err("NumberFormatException")
    case Some(v) =>
      if |v| == 0 then Err("ArrayIndexOutOfBoundsException")
      else if |v| == 1 then Ok(Interval(v[0], v[0]))
      else Ok(Interval(v[0], v[1]))
  }

  function ParseIntervals(ps: seq<string>): Result<seq<Interval>> {
    if ps == [] then Ok([])
    else match ParseInterval(ps[0])
      case Err(e) => Err(e)
      case Ok(i) => match ParseIntervals(ps[1..]) case Err(e) => Err(e) case Ok(s) => Ok([i] + s)
  }

  function IndexOf(s: string, c: char): (k: nat)
    ensures k <= |s|
  {
    if s == "" || s[0] == c then 0 else 1 + IndexOf(s[1..], c)
  }

  /** One server's part; its intervals are taken over as a new UUIDSet does. */
  function ParseEntry(s: string): Result<Entry> {
    var k := IndexOf(s, ':');
    if k == |s| then Err("StringIndexOutOfBoundsException")
    else match ParseIntervals(SplitOn(s[k + 1..], ':'))
      case Err(e) => Err(e)
      case Ok(i) => Ok(Entry(s[..k], Adopted(i)))
  }

  /** A later part replaces an earlier one for the same server. */
  function Put(es: seq<Entry>, e: Entry): seq<Entry> {
    if es == [] then [e] else if es[0].uuid == e.uuid then [e] + es[1..] else [es[0]] + Put(es[1..], e)
  }

  function ParseEntries(ps: seq<string>): Result<seq<Entry>> {
    if ps == [] then Ok([])
    else match ParseEntries(ps[..|ps| - 1])
      case Err(e) => Err(e)
      case Ok(es) => match ParseEntry(ps[|ps| - 1]) case Err(e) => Err(e) case Ok(e) => Ok(Put(es, e))
  }

  function Without(s: string, c: char): string {
    if s == "" then "" else (if s[0] == c then "" else [s[0]]) + Without(s[1..], c)
  }

  function Parse(s: string): Result<seq<Entry>> {
    if s == "" then Ok([]) else ParseEntries(SplitOn(Without(s, '\n'), ','))
  }

  // ---------- writing ----------

  function IntervalText(i: Interval): string {
    LongText(i.start) + "-" + LongText(i.end)
  }

  function IntervalTexts(s: seq<Interval>): (ps: seq<string>)
    ensures |ps| == |s| && forall k :: 0 <= k < |s| ==> ps[k] == IntervalText(s[k])
  {
    seq(|s|, k requires 0 <= k < |s| => IntervalText(s[k]))
  }

  function EntryText(e: Entry): string {
    e.uuid + ":" + Join(IntervalTexts(e.intervals), ':')
  }

  function EntryTexts(es: seq<Entry>): (ps: seq<string>)
    ensures |ps| == |es| && forall k :: 0 <= k < |es| ==> ps[k] == EntryText(es[k])
  {
    seq(|es|, k requires 0 <= k < |es| => EntryText(es[k]))
  }

  function ToText(es: seq<Entry>): string {
    Join(EntryTexts(es), ',')
  }

  // ---------- the loops ----------

  /** Every piece followed by the delimiter. */
  function Delimited(ps: seq<string>, c: char): string {
    if ps == [] then "" else ps[0] + [c] + Delimited(ps[1..], c)
  }

  lemma {:induction false} DelimitedJoin(ps: seq<string>, c: char)
    requires ps != []
    ensures Delimited(ps, c) == Join(ps, c) + [c]
  {
    if |ps| > 1 {
      DelimitedJoin(ps[1..], c);
      assert ps[0] + [c] + (Join(ps[1..], c) + [c]) == ps[0] + [c] + Join(ps[1..], c) + [c];
    } else {
      assert ps[1..] == [] && ps[0] + [c] + "" == ps[0] + [c];
    }
  }

  lemma {:induction false} DelimitedSnoc(ps: seq<string>, p: string, c: char)
    ensures Delimited(ps + [p], c) == Delimited(ps, c) + p + [c]
  {
    if ps == [] {
      assert (ps + [p])[1..] == [] && p + [c] + "" == "" + p + [c];
    } else {
      assert (ps + [p])[1..] == ps[1..] + [p];
      DelimitedSnoc(ps[1..], p, c);
      assert ps[0] + [c] + (Delimited(ps[1..], c) + p + [c]) == ps[0] + [c] + Delimited(ps[1..], c) + p + [c];
    }
  }

  method JoinAll(o: seq<string>, delimiter: char) returns (s: string)
    ensures s == Join(o, delimiter)
  {
    if o == [] {
      return "";
    }
    var sb := "";
    for k := 0 to |o|
      invariant sb == Delimited(o[..k], delimiter)
    {
      assert o[..k + 1] == o[..k] + [o[k]];
      DelimitedSnoc(o[..k], o[k], delimiter);
      sb := sb + o[k] + [delimiter];
    }
    assert o[..|o|] == o;
    DelimitedJoin(o, delimiter);
    s := sb[..|sb| - 1];
  }

  method WriteText(es: seq<Entry>) returns (s: string)
    ensures s == ToText(es)
  {
    var gtids: seq<string> := [];
    for k := 0 to |es|
      invariant |gtids| == k && forall i :: 0 <= i < k ==> gtids[i] == EntryText(es[i])
    {
      var list := JoinAll(IntervalTexts(es[k].intervals), ':');
      gtids := gtids + [es[k].uuid + ":" + list];
    }
    TextsAre(es, gtids);
    s := JoinAll(gtids, ',');
  }

  lemma TextsAre(es: seq<Entry>, ps: seq<string>)
    requires |ps| == |es| && forall i :: 0 <= i < |es| ==> ps[i] == EntryText(es[i])
    ensures ps == EntryTexts(es)
  {
  }

  function PrependLongs(vs: seq<int>, r: Option<seq<int>>): Option<seq<int>> {
    match r case None => None case Some(ws) => Some(vs + ws)
  }

  method ReadLongs(ps: seq<string>) returns (r: Option<seq<int>>)
    ensures r == ParseLongs(ps)
  {
    var split: seq<int> := [];
    var i := 0;
    assert ps[0..] == ps;
    ghost var all := ParseLongs(ps);
    assert all == PrependLongs([], all) by {
      if all.Some? {
        assert [] + all.value == all.value;
      }
    }
    while i < |ps|
      invariant 0 <= i <= |ps| && all == PrependLongs(split, ParseLongs(ps[i..]))
    {
      var v := ParseLong(ps[i]);
      if v.None? {
        return None;
      }
      assert ps[i..][1..] == ps[i + 1..];
      if ParseLongs(ps[i + 1..]).Some? {
        var rest := ParseLongs(ps[i + 1..]).value;
        assert split + ([v.value] + rest) == split + [v.value] + rest;
      }
      split := split + [v.value];
      i := i + 1;
    }
    assert split + [] == split;
    r := Some(split);
  }

  method ReadInterval(interval: string) returns (r: Result<Interval>)
    ensures r == ParseInterval(interval)
  {
    var split := ReadLongs(SplitOn(interval, '-'));
    if split.None? {
      return Err("NumberFormatException");
    }
    var longs := split.value;
    if |longs| == 1 {
      longs := [longs[0], longs[0]];
    }
    if |longs| == 0 {
      return Err("ArrayIndexOutOfBoundsException");
    }
    r := Ok(Interval(longs[0], longs[1]));
  }

  function PrependIntervals(s: seq<Interval>, r: Result<seq<Interval>>): Result<seq<Interval>> {
    match r case Err(e) => Err(e) case Ok(t) => Ok(s + t)
  }

  method ReadRawIntervals(rawIntervals: seq<string>) returns (r: Result<seq<Interval>>)
    ensures r == ParseIntervals(rawIntervals)
  {
    var intervals: seq<Interval> := [];
    var i := 0;
    assert rawIntervals[0..] == rawIntervals;
    ghost var all := ParseIntervals(rawIntervals);
    assert all == PrependIntervals([], all) by {
      if all.Ok? {
        assert [] + all.value == all.value;
      }
    }
    while i < |rawIntervals|
      invariant 0 <= i <= |rawIntervals| && all == PrependIntervals(intervals, ParseIntervals(rawIntervals[i..]))
    {
      var interval := ReadInterval(rawIntervals[i]);
      if interval.Err? {
        return Err(interval.message);
      }
      assert rawIntervals[i..][1..] == rawIntervals[i + 1..];
      if ParseIntervals(rawIntervals[i + 1..]).Ok? {
        var rest := ParseIntervals(rawIntervals[i + 1..]).value;
        assert intervals + ([interval.value] + rest) == intervals + [interval.value] + rest;
      }
      intervals := intervals + [interval.value];
      i := i + 1;
    }
    assert intervals + [] == intervals;
    r := Ok(intervals);
  }

  // ---------- the round trip ----------

  predicate NonNegative(i: Interval) {
    0 <= i.start < LONG_LIMIT && 0 <= i.end < LONG_LIMIT
  }

  /** The name has none of the characters that structure the text, and the numbers are non-negative Java longs. */
  predicate Printable(e: Entry) {
    && Free(e.uuid, ':') && Free(e.uuid, ',') && Free(e.uuid, '\n')
    && forall k :: 0 <= k < |e.intervals| ==> NonNegative(e.intervals[k])
  }

  predicate AllPrintable(es: seq<Entry>) {
    && (forall k :: 0 <= k < |es| ==> Printable(es[k]))
    && forall j, k :: 0 <= j < k < |es| ==> es[j].uuid != es[k].uuid
  }

  lemma IntervalTextFree(i: Interval)
    requires NonNegative(i)
    ensures IntervalText(i) != "" && Free(IntervalText(i), ':') && Free(IntervalText(i), ',') &&
            Free(IntervalText(i), '\n')
  {
    LongRoundTrip(i.start);
    LongRoundTrip(i.end);
  }

  lemma ParseTwo(a: string, b: string)
    requires ParseLong(a).Some? && ParseLong(b).Some?
    ensures ParseLongs([a, b]) == Some([ParseLong(a).value, ParseLong(b).value])
  {
    var x, y := ParseLong(a).value, ParseLong(b).value;
    assert [b][1..] == [] && [y] + [] == [y];
    assert ParseLongs([b]) == Some([y]);
    assert [a, b][1..] == [b] && [x] + [y] == [x, y];
  }

  lemma IntervalRoundTrip(i: Interval)
    requires NonNegative(i)
    ensures ParseInterval(IntervalText(i)) == Ok(i)
  {
    var a, b := LongText(i.start), LongText(i.end);
    LongRoundTrip(i.start);
    LongRoundTrip(i.end);
    SplitFirst(a, '-', b);
    SplitFree(b, '-');
    assert SplitOn(IntervalText(i), '-') == [a, b];
    ParseTwo(a, b);
  }

  lemma {:induction false} IntervalsRoundTrip(s: seq<Interval>)
    requires forall k :: 0 <= k < |s| ==> NonNegative(s[k])
    ensures ParseIntervals(IntervalTexts(s)) == Ok(s)
  {
    if s != [] {
      assert NonNegative(s[0]);
      IntervalRoundTrip(s[0]);
      IntervalsRoundTrip(s[1..]);
      TextsTail(s);
      HeadTail(s);
    }
  }

  lemma TextsTail(s: seq<Interval>)
    requires s != []
    ensures IntervalTexts(s)[0] == IntervalText(s[0]) && IntervalTexts(s)[1..] == IntervalTexts(s[1..])
  {
  }

  lemma {:induction false} IndexOfFirst(s: string, c: char, t: string)
    requires Free(s, c)
    ensures IndexOf(s + [c] + t, c) == |s|
  {
    var whole := s + [c] + t;
    if s != "" {
      assert Free(s[1..], c);
      assert whole[0] == s[0] && whole[1..] == s[1..] + [c] + t;
      IndexOfFirst(s[1..], c, t);
    }
  }

  lemma EntryParts(uuid: string, t: string)
    requires Free(uuid, ':')
    ensures var s := uuid + ":" + t; IndexOf(s, ':') == |uuid| < |s| && s[..|uuid|] == uuid && s[|uuid| + 1..] == t
  {
    IndexOfFirst(uuid, ':', t);
  }

  lemma EntryReads(e: Entry)
    requires Printable(e)
    ensures e.intervals != [] ==> ParseEntry(EntryText(e)) == Ok(Entry(e.uuid, Adopted(e.intervals)))
    ensures e.intervals == [] ==> ParseEntry(EntryText(e)).Err?
  {
    var ps := IntervalTexts(e.intervals);
    EntryParts(e.uuid, Join(ps, ':'));
    if e.intervals != [] {
      forall k | 0 <= k < |ps|
        ensures Free(ps[k], ':') && ps[k] != ""
      {
        assert NonNegative(e.intervals[k]);
        IntervalTextFree(e.intervals[k]);
      }
      SplitOnJoin(ps, ':');
      IntervalsRoundTrip(e.intervals);
    } else {
      EmptyReads();
    }
  }

  lemma EmptyReads()
    ensures ParseIntervals(SplitOn("", ':')).Err?
  {
    assert SplitOn("", ':') == [""] && SplitOn("", '-') == [""];
    assert ParseLongs([""]) == None;
  }

  lemma EntryTextFree(e: Entry, d: char)
    requires Printable(e) && (d == ',' || d == '\n')
    ensures Free(EntryText(e), d) && EntryText(e) != ""
  {
    var ps := IntervalTexts(e.intervals);
    forall k | 0 <= k < |ps|
      ensures Free(ps[k], d)
    {
      assert NonNegative(e.intervals[k]);
      IntervalTextFree(e.intervals[k]);
    }
    JoinFree(ps, ':', d);
  }

  /** What reading back makes of an entry. */
  function Reread(es: seq<Entry>): (rs: seq<Entry>)
    ensures |rs| == |es| && forall k :: 0 <= k < |es| ==> rs[k] == Entry(es[k].uuid, Adopted(es[k].intervals))
  {
    seq(|es|, k requires 0 <= k < |es| => Entry(es[k].uuid, Adopted(es[k].intervals)))
  }

  lemma {:induction false} PutNew(es: seq<Entry>, e: Entry)
    requires forall k :: 0 <= k < |es| ==> es[k].uuid != e.uuid
    ensures Put(es, e) == es + [e]
  {
    if es != [] {
      PutNew(es[1..], e);
      assert es + [e] == [es[0]] + (es[1..] + [e]);
    }
  }

  lemma {:induction false} PutAt(es: seq<Entry>, e: Entry, at: nat)
    requires at < |es| && es[at].uuid == e.uuid
    requires forall k :: 0 <= k < at ==> es[k].uuid != e.uuid
    ensures Put(es, e) == es[at := e]
  {
    if at > 0 {
      PutAt(es[1..], e, at - 1);
      assert es[at := e] == [es[0]] + es[1..][at - 1 := e];
    }
  }

  predicate NoneEmpty(es: seq<Entry>) {
    forall k :: 0 <= k < |es| ==> es[k].intervals != []
  }

  lemma TextsFront(es: seq<Entry>)
    requires es != []
    ensures EntryTexts(es)[..|es| - 1] == EntryTexts(es[..|es| - 1])
    ensures EntryTexts(es)[|es| - 1] == EntryText(es[|es| - 1])
  {
  }

  lemma PrintableFront(es: seq<Entry>)
    requires AllPrintable(es) && es != []
    ensures AllPrintable(es[..|es| - 1]) && Printable(es[|es| - 1])
    ensures NoneEmpty(es) <==> NoneEmpty(es[..|es| - 1]) && es[|es| - 1].intervals != []
  {
    var front := es[..|es| - 1];
    assert forall k :: 0 <= k < |front| ==> front[k] == es[k];
    assert Printable(es[|es| - 1]);
    if NoneEmpty(es) {
      assert es[|es| - 1].intervals != [];
    }
  }

  lemma PutLast(es: seq<Entry>)
    requires AllPrintable(es) && es != []
    ensures var k := |es| - 1; Put(Reread(es[..k]), Entry(es[k].uuid, Adopted(es[k].intervals))) == Reread(es)
  {
    var k := |es| - 1;
    PutNew(Reread(es[..k]), Entry(es[k].uuid, Adopted(es[k].intervals)));
  }

  predicate ReadsAs(es: seq<Entry>) {
    if NoneEmpty(es) then ParseEntries(EntryTexts(es)) == Ok(Reread(es)) else ParseEntries(EntryTexts(es)).Err?
  }

  lemma ParseLast(ps: seq<string>, p: string, r: Result<seq<Entry>>)
    requires ps != [] && ps[|ps| - 1] == p && ParseEntries(ps[..|ps| - 1]) == r
    ensures ParseEntries(ps) == match r
                                case Err(m) => Err(m)
                                case Ok(es) =>
                                  (match ParseEntry(p) case Err(m) => Err(m) case Ok(e) => Ok(Put(es, e)))
  {
  }

  lemma LastRead(es: seq<Entry>)
    requires AllPrintable(es) && es != [] && ReadsAs(es[..|es| - 1])
    ensures ReadsAs(es)
  {
    var front, e := es[..|es| - 1], es[|es| - 1];
    PrintableFront(es);
    TextsFront(es);
    ParseLast(EntryTexts(es), EntryText(e), ParseEntries(EntryTexts(front)));
    EntryReads(e);
    if NoneEmpty(es) {
      PutLast(es);
    }
  }

  lemma {:induction false} EntriesRead(es: seq<Entry>)
    requires AllPrintable(es)
    ensures ReadsAs(es)
    decreases |es|
  {
    if es != [] {
      PrintableFront(es);
      EntriesRead(es[..|es| - 1]);
      LastRead(es);
    }
  }

  lemma {:induction false} WithoutFree(s: string, c: char)
    requires Free(s, c)
    ensures Without(s, c) == s
  {
    if s != "" {
      assert Free(s[1..], c);
      WithoutFree(s[1..], c);
      assert [s[0]] + s[1..] == s;
    }
  }

  lemma TextSplits(es: seq<Entry>)
    requires AllPrintable(es) && es != []
    ensures ToText(es) != "" && SplitOn(Without(ToText(es), '\n'), ',') == EntryTexts(es)
  {
    var ps := EntryTexts(es);
    forall k | 0 <= k < |ps|
      ensures Free(ps[k], ',') && Free(ps[k], '\n') && ps[k] != ""
    {
      assert Printable(es[k]);
      EntryTextFree(es[k], ',');
      EntryTextFree(es[k], '\n');
    }
    JoinFree(ps, ',', '\n');
    WithoutFree(ToText(es), '\n');
    SplitOnJoin(ps, ',');
  }

  predicate FirstTouch(s: seq<Interval>) {
    |s| > 1 && s[0].end + 1 == s[1].start
  }

  lemma AdoptedSame(s: seq<Interval>)
    ensures Adopted(s) == s <==> !FirstTouch(s)
  {
    if |s| > 1 {
      FirstJoin(s, 0);
    }
  }

  predicate Kept(e: Entry) {
    e.intervals != [] && !FirstTouch(e.intervals)
  }

  lemma RereadSame(es: seq<Entry>)
    ensures Reread(es) == es <==> forall k :: 0 <= k < |es| ==> !FirstTouch(es[k].intervals)
  {
    forall k | 0 <= k < |es|
      ensures Reread(es)[k] == es[k] <==> !FirstTouch(es[k].intervals)
    {
      AdoptedSame(es[k].intervals);
    }
  }

  /**
   Reading back the text of a set gives the same set exactly when no server's list is empty and no list begins
   with two intervals that touch.
   */
  lemma TextRoundTrip(es: seq<Entry>)
    requires AllPrintable(es)
    ensures Parse(ToText(es)) == Ok(es) <==> forall k :: 0 <= k < |es| ==> Kept(es[k])
  {
    if es != [] {
      TextSplits(es);
      EntriesRead(es);
      RereadSame(es);
      if forall k :: 0 <= k < |es| ==> Kept(es[k]) {
        forall k | 0 <= k < |es|
          ensures es[k].intervals != [] && !FirstTouch(es[k].intervals)
        {
          assert Kept(es[k]);
        }
      }
    }
  }

  /** In particular when every list is canonical and has an interval. */
  lemma CanonicalRoundTrip(es: seq<Entry>)
    requires AllPrintable(es) && forall k :: 0 <= k < |es| ==> es[k].intervals != [] && Canonical(es[k].intervals)
    ensures Parse(ToText(es)) == Ok(es)
  {
    forall k | 0 <= k < |es|
      ensures Kept(es[k])
    {
      assert GapAt(es[k].intervals, 0);
    }
    TextRoundTrip(es);
  }

  // ---------- containment of sets that were read ----------

  lemma ParsedText(es: seq<Entry>)
    requires AllPrintable(es) && NoneEmpty(es)
    ensures Parse(ToText(es)) == Ok(Reread(es))
  {
    if es != [] {
      TextSplits(es);
      EntriesRead(es);
    }
  }

  predicate LaterGaps(s: seq<Interval>)
  {
    forall k :: 0 < k < |s| ==> GapAt(s, k)
  }

  ghost predicate AllSorted(es: seq<Entry>) {
    forall k :: 0 <= k < |es| ==> Sorted(es[k].intervals)
  }

  /**
   Against a list that was read from a text the containment check decides inclusion exactly when no two neighbours
   but the first two touch in the text.
   */
  lemma ParsedDecides(es: seq<Entry>, i: nat)
    requires AllPrintable(es) && NoneEmpty(es) && AllSorted(es) && i < |es|
    ensures var r := Parse(ToText(es));
            && r.Ok? && |r.value| == |es| && Sorted(r.value[i].intervals)
            && (DecidesAll(r.value[i].intervals) <==> LaterGaps(es[i].intervals))
  {
    var s := es[i].intervals;
    ParsedText(es);
    AdoptedCanonical(s);
    ExactlyCanonical(Adopted(s));
    LaterGapsAre(s);
  }

  lemma LaterGapsAre(s: seq<Interval>)
    ensures LaterGaps(s) <==> forall k: nat :: k > 0 ==> GapAt(s, k)
  {
  }

  function OneServer(uuid: string, s: seq<Interval>): string {
    ToText([Entry(uuid, s)])
  }

  lemma ParsedOne(uuid: string, s: seq<Interval>)
    requires Printable(Entry(uuid, s)) && s != []
    ensures Parse(OneServer(uuid, s)) == Ok([Entry(uuid, Adopted(s))])
  {
    var es := [Entry(uuid, s)];
    assert Printable(es[0]);
    ParsedText(es);
    assert Reread(es) == [Entry(uuid, Adopted(s))];
  }

  /** Texts of two sets, one of which contains the other without the check seeing it. */
  lemma ParsedMissed(uuid: string, s: seq<Interval>, k: nat)
    requires Printable(Entry(uuid, s)) && Sorted(s) && k > 0 && !GapAt(s, k)
    ensures Parse(OneServer(uuid, Stretch(s, k))) == Ok([Entry(uuid, Stretch(s, k))])
    ensures Parse(OneServer(uuid, s)) == Ok([Entry(uuid, Adopted(s))])
    ensures Subset(Stretch(s, k), Adopted(s)) && !AllWithin(Stretch(s, k), Adopted(s))
  {
    assert NonNegative(s[k]) && NonNegative(s[k + 1]);
    ParsedOne(uuid, Stretch(s, k));
    ParsedOne(uuid, s);
    AdoptedMissed(s, k);
  }

  lemma OneDigit(n: nat, c: char)
    requires n < 10 && c as int == '0' as int + n
    ensures LongText(n) == [c]
  {
    assert '0' + (n % 10) as char == c;
  }

  lemma ExampleTexts()
    ensures OneServer("u", [Interval(5, 6)]) == "u:5-6"
    ensures OneServer("u", EXAMPLE) == "u:4-4:5-5:6-7"
  {
    ExamplePieces();
    assert IntervalTexts(EXAMPLE) == ["4-4", "5-5", "6-7"] && IntervalTexts([Interval(5, 6)]) == ["5-6"];
    JoinThree("4-4", "5-5", "6-7", ':');
  }

  lemma ExamplePieces()
    ensures IntervalText(Interval(4, 4)) == "4-4" && IntervalText(Interval(5, 5)) == "5-5"
    ensures IntervalText(Interval(6, 7)) == "6-7" && IntervalText(Interval(5, 6)) == "5-6"
  {
    OneDigit(4, '4');
    OneDigit(5, '5');
    OneDigit(6, '6');
    OneDigit(7, '7');
  }

  lemma JoinThree(a: string, b: string, d: string, c: char)
    ensures Join([a, b, d], c) == a + [c] + (b + [c] + d)
  {
    assert [a, b, d][1..] == [b, d] && [b, d][1..] == [d];
    assert Join([b, d], c) == b + [c] + Join([d], c);
  }

  const EXAMPLE := [Interval(4, 4), Interval(5, 5), Interval(6, 7)]

  lemma ExampleList()
    ensures Sorted(EXAMPLE) && !GapAt(EXAMPLE, 1) && Stretch(EXAMPLE, 1) == [Interval(5, 6)]
    ensures Adopted(EXAMPLE) == [Interval(4, 5), Interval(6, 7)] && Printable(Entry("u", EXAMPLE))
  {
    FirstJoin(EXAMPLE, 0);
    assert EXAMPLE[..0] == [] && EXAMPLE[2..] == [Interval(6, 7)];
  }

  /** For instance: 4 to 5 is one interval after reading, 6 to 7 another, and 5 to 6 is then not contained. */
  lemma MissedExample()
    ensures Parse("u:5-6") == Ok([Entry("u", [Interval(5, 6)])])
    ensures Parse("u:4-4:5-5:6-7") == Ok([Entry("u", [Interval(4, 5), Interval(6, 7)])])
    ensures !AllWithin([Interval(5, 6)], [Interval(4, 5), Interval(6, 7)])
  {
    ExampleTexts();
    ExampleList();
    ParsedMissed("u", EXAMPLE, 1);
  }
}
