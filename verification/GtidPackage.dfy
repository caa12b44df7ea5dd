/** The binary form of a GTID set that is sent to a server, and its passage as hexadecimal text. */
module GtidPackage {
  import opened Intervals
  import opened Text

  type Byte = b: int | 0 <= b < 256

  /** One server's identifier and intervals. */
  datatype Entry = Entry(uuid: string, intervals: seq<Interval>)

  const LONG_LIMIT: int := 0x8000_0000_0000_0000

  // ---------- little-endian integers ----------

  function Pow256(n: nat): (p: nat)
    ensures p > 0
  {
    if n == 0 then 1 else 256 * Pow256(n - 1)
  }

  /** The low n bytes, the lowest first; two's complement for negative values. */
  function Le(n: nat, v: int): (bs: seq<Byte>)
    ensures |bs| == n
  {
    if n == 0 then [] else [v % 256] + Le(n - 1, v / 256)
  }

  function UnLe(bs: seq<Byte>): nat {
    if bs == [] then 0 else bs[0] + 256 * UnLe(bs[1..])
  }

  lemma {:induction false} UnLeOf(n: nat, v: nat)
    requires v < Pow256(n)
    ensures UnLe(Le(n, v)) == v
  {
    if n > 0 {
      UnLeOf(n - 1, v / 256);
    }
  }

  /** A Java long, and the one value past it that an end can become, fits eight bytes. */
  lemma UnLeLong(v: nat)
    requires v <= LONG_LIMIT
    ensures UnLe(Le(8, v)) == v
  {
    assert Pow256(4) == 0x1_0000_0000;
    assert Pow256(8) == 256 * 256 * 256 * 256 * Pow256(4);
    UnLeOf(8, v);
  }

  lemma UnLeInt(v: nat)
    requires v < 0x1_0000_0000
    ensures UnLe(Le(4, v)) == v
  {
    assert Pow256(4) == 0x1_0000_0000;
    UnLeOf(4, v);
  }

  // ---------- hexadecimal digits ----------

  function HexValue(c: char): (v: Option<Byte>)
    ensures v.Some? ==> v.value < 16
  {
    if '0' <= c <= '9' then Some((c - '0') as int)
    else if 'a' <= c <= 'f' then Some((c - 'a') as int + 10)
    else if 'A' <= c <= 'F' then Some((c - 'A') as int + 10)
    else None
  }

  /** Two characters read as a number in base 16, of which a byte is kept; a sign may stand first. */
  function HexPair(c: char, d: char): Option<Byte> {
    match (HexValue(c), HexValue(d))
    case (Some(x), Some(y)) => Some(16 * x + y)
    case (None, Some(y)) => if c == '+' then Some(y) else if c == '-' then Some(if y == 0 then 0 else 256 - y) else None
    case _ => None
  }

  function Then(b: seq<Byte>, r: Result<seq<Byte>>): Result<seq<Byte>> {
    match r
    case Ok(bs) => Ok(b + bs)
    case Err(e) => Err(e)
  }

  function HexBytes(s: string): Result<seq<Byte>>
    decreases |s|
  {
    if s == [] then Ok([])
    else if |s| == 1 then Err("StringIndexOutOfBoundsException")
    else match HexPair(s[0], s[1])
      case None => Err("NumberFormatException")
      case Some(b) => Then([b], HexBytes(s[2..]))
  }

  function Strip(s: string): string {
    if s == "" then "" else (if s[0] == '-' then "" else [s[0]]) + Strip(s[1..])
  }

  predicate AllHex(s: string) {
    forall k :: 0 <= k < |s| ==> HexValue(s[k]).Some?
  }

  predicate HexUuid(uuid: string) {
    |Strip(uuid)| == 32 && AllHex(Strip(uuid))
  }

  function LowerHex(v: int): char
    requires 0 <= v < 16
  {
    if v < 10 then '0' + v as char else 'a' + (v - 10) as char
  }

  function UpperHex(v: int): char
    requires 0 <= v < 16
  {
    if v < 10 then '0' + v as char else 'A' + (v - 10) as char
  }

  /** The digits of the bytes, in lower case. */
  function HexDigits(bs: seq<Byte>): string {
    if bs == [] then "" else [LowerHex(bs[0] / 16), LowerHex(bs[0] % 16)] + HexDigits(bs[1..])
  }

  function LowerChar(c: char): char {
    if 'A' <= c <= 'Z' then 'a' + (c - 'A') else c
  }

  function Lower(s: string): string {
    if s == "" then "" else [LowerChar(s[0])] + Lower(s[1..])
  }

  lemma DigitLower(c: char)
    requires HexValue(c).Some?
    ensures LowerHex(HexValue(c).value) == LowerChar(c)
  {
    if '0' <= c <= '9' {
      assert '0' + ((c - '0') as int) as char == c;
    } else if 'a' <= c <= 'f' {
      assert 'a' + ((c - 'a') as int) as char == c;
    }
  }

  lemma PairDigits(c: char, d: char)
    requires HexValue(c).Some? && HexValue(d).Some?
    ensures HexPair(c, d).Some?
    ensures [LowerHex(HexPair(c, d).value / 16), LowerHex(HexPair(c, d).value % 16)] == Lower([c, d])
  {
    var x, y := HexValue(c).value, HexValue(d).value;
    assert (16 * x + y) / 16 == x && (16 * x + y) % 16 == y;
    DigitLower(c);
    DigitLower(d);
    assert [c, d][1..] == [d] && [d][1..] == [];
    assert Lower([d]) == [LowerChar(d)];
    assert Lower([c, d]) == [LowerChar(c), LowerChar(d)];
  }

  lemma {:induction false} LowerAppend(s: string, t: string)
    ensures Lower(s + t) == Lower(s) + Lower(t)
  {
    if s == "" {
      assert s + t == t;
    } else {
      assert (s + t)[1..] == s[1..] + t;
      LowerAppend(s[1..], t);
    }
  }

  /** Hexadecimal text of even length is read without loss, but for the case of its letters. */
  lemma {:induction false} HexBytesOf(s: string)
    requires AllHex(s) && |s| % 2 == 0
    ensures HexBytes(s).Ok? && |HexBytes(s).value| == |s| / 2 && HexDigits(HexBytes(s).value) == Lower(s)
    decreases |s|
  {
    if s != "" {
      var tail := s[2..];
      assert AllHex(tail) by {
        assert forall k :: 0 <= k < |tail| ==> tail[k] == s[k + 2];
      }
      HexBytesOf(tail);
      PairDigits(s[0], s[1]);
      LowerAppend([s[0], s[1]], tail);
      assert s == [s[0], s[1]] + tail;
      var b := HexPair(s[0], s[1]).value;
      assert ([b] + HexBytes(tail).value)[1..] == HexBytes(tail).value;
    }
  }

  /** A digit behind a sign counts as one byte. */
  lemma SignedPairs(v: nat)
    requires v < 16
    ensures HexBytes(['+', LowerHex(v)]) == Ok([v])
    ensures HexBytes(['-', LowerHex(v)]) == Ok([(256 - v) % 256])
  {
    SignedPair('+', v, v);
    SignedPair('-', v, (256 - v) % 256);
  }

  lemma SignedPair(sign: char, v: nat, b: Byte)
    requires v < 16 && HexPair(sign, LowerHex(v)) == Some(b)
    ensures HexBytes([sign, LowerHex(v)]) == Ok([b])
  {
    var s := [sign, LowerHex(v)];
    assert s[2..] == [] && HexBytes(s[2..]) == Ok([]) && [b] + [] == [b];
  }

  // ---------- the package ----------

  function IntervalBytes(i: Interval): seq<Byte> {
    Le(8, i.start) + Le(8, i.end + 1)
  }

  function IntervalsBytes(s: seq<Interval>): seq<Byte> {
    if s == [] then [] else IntervalBytes(s[0]) + IntervalsBytes(s[1..])
  }

  predicate HasId(e: Entry) {
    HexBytes(Strip(e.uuid)).Ok?
  }

  predicate AllIds(es: seq<Entry>) {
    forall k :: 0 <= k < |es| ==> HasId(es[k])
  }

  function EntryBytes(e: Entry): seq<Byte>
    requires HasId(e)
  {
    HexBytes(Strip(e.uuid)).value + Le(8, |e.intervals|) + IntervalsBytes(e.intervals)
  }

  function EntriesBytes(es: seq<Entry>): seq<Byte>
    requires AllIds(es)
  {
    if es == [] then [] else EntryBytes(es[0]) + EntriesBytes(es[1..])
  }

  function EntriesSize(es: seq<Entry>): nat {
    if es == [] then 0 else 16 + 8 + |es[0].intervals| * 16 + EntriesSize(es[1..])
  }

  function DataSize(es: seq<Entry>): nat {
    8 + EntriesSize(es)
  }

  /** What is sent after the size. */
  function Body(es: seq<Entry>): seq<Byte>
    requires AllIds(es)
  {
    Le(8, |es|) + EntriesBytes(es)
  }

  /** The package as it is sent: its size, and what follows. */
  function Package(es: seq<Entry>): seq<Byte>
    requires AllIds(es)
  {
    Le(4, DataSize(es)) + Body(es)
  }

  lemma ThenThen(a: seq<Byte>, b: Byte, r: Result<seq<Byte>>)
    ensures Then(a, Then([b], r)) == Then(a + [b], r)
  {
    if r.Ok? {
      assert a + ([b] + r.value) == a + [b] + r.value;
    }
  }

  method HexToByteArray(uuid: string) returns (r: Result<seq<Byte>>)
    ensures r == HexBytes(uuid)
  {
    var b: seq<Byte> := [];
    var j := 0;
    assert uuid[0..] == uuid;
    ghost var all := HexBytes(uuid);
    if all.Ok? {
      assert [] + all.value == all.value;
    }
    while j < |uuid|
      invariant 0 <= j <= |uuid|
      invariant all == Then(b, HexBytes(uuid[j..]))
    {
      if j + 1 == |uuid| {
        return Err("StringIndexOutOfBoundsException");
      }
      var pair := HexPair(uuid[j], uuid[j + 1]);
      if pair.None? {
        return Err("NumberFormatException");
      }
      assert uuid[j..][2..] == uuid[j + 2..];
      ThenThen(b, pair.value, HexBytes(uuid[j + 2..]));
      b := b + [pair.value];
      j := j + 2;
    }
    assert b + [] == b;
    r := Ok(b);
  }

  lemma {:induction false} IntervalsBytesSnoc(s: seq<Interval>, i: Interval)
    ensures IntervalsBytes(s + [i]) == IntervalsBytes(s) + IntervalBytes(i)
  {
    if s == [] {
      assert [i][1..] == [];
    } else {
      assert (s + [i])[1..] == s[1..] + [i];
      IntervalsBytesSnoc(s[1..], i);
    }
  }

  lemma {:induction false} EntriesBytesSnoc(es: seq<Entry>, e: Entry)
    requires AllIds(es) && HasId(e)
    ensures EntriesBytes(es + [e]) == EntriesBytes(es) + EntryBytes(e)
  {
    if es == [] {
      assert (es + [e])[1..] == [];
    } else {
      assert (es + [e])[1..] == es[1..] + [e];
      EntriesBytesSnoc(es[1..], e);
    }
  }

  lemma {:induction false} EntriesSizeSnoc(es: seq<Entry>, e: Entry)
    ensures EntriesSize(es + [e]) == EntriesSize(es) + 16 + 8 + |e.intervals| * 16
  {
    if es == [] {
      assert (es + [e])[1..] == [];
    } else {
      assert (es + [e])[1..] == es[1..] + [e];
      EntriesSizeSnoc(es[1..], e);
    }
  }

  method SizeOf(es: seq<Entry>) returns (dataSize: nat)
    ensures dataSize == DataSize(es)
  {
    dataSize := 8;
    for k := 0 to |es|
      invariant dataSize == DataSize(es[..k])
    {
      assert es[..k + 1] == es[..k] + [es[k]];
      EntriesSizeSnoc(es[..k], es[k]);
      dataSize := dataSize + 16 + 8 + |es[k].intervals| * 16;
    }
    assert es[..|es|] == es;
  }

  method WriteIntervals(intervals: seq<Interval>) returns (buffer: seq<Byte>)
    ensures buffer == IntervalsBytes(intervals)
  {
    buffer := [];
    for k := 0 to |intervals|
      invariant buffer == IntervalsBytes(intervals[..k])
    {
      assert intervals[..k + 1] == intervals[..k] + [intervals[k]];
      IntervalsBytesSnoc(intervals[..k], intervals[k]);
      buffer := buffer + Le(8, intervals[k].start);
      buffer := buffer + Le(8, intervals[k].end + 1);
    }
    assert intervals[..|intervals|] == intervals;
  }

  method WriteEntry(e: Entry) returns (r: Result<seq<Byte>>)
    ensures HasId(e) ==> r == Ok(EntryBytes(e))
    ensures !HasId(e) ==> r == HexBytes(Strip(e.uuid))
  {
    r := HexToByteArray(Strip(e.uuid));
    if r.Ok? {
      var buffer := r.value;
      buffer := buffer + Le(8, |e.intervals|);
      var intervals := WriteIntervals(e.intervals);
      r := Ok(buffer + intervals);
    }
  }

  /** The first server whose name is not hexadecimal decides how it fails. */
  ghost predicate Fails(es: seq<Entry>, r: Result<seq<Byte>>) {
    exists k :: 0 <= k < |es| && !HasId(es[k]) && AllIds(es[..k]) && r == HexBytes(Strip(es[k].uuid))
  }

  method WriteEntries(es: seq<Entry>) returns (r: Result<seq<Byte>>)
    ensures AllIds(es) ==> r == Ok(EntriesBytes(es))
    ensures !AllIds(es) ==> Fails(es, r)
  {
    var buffer: seq<Byte> := [];
    for k := 0 to |es|
      invariant AllIds(es[..k]) && buffer == EntriesBytes(es[..k])
    {
      r := WriteEntry(es[k]);
      if r.Err? {
        return;
      }
      assert es[..k + 1] == es[..k] + [es[k]];
      EntriesBytesSnoc(es[..k], es[k]);
      buffer := buffer + r.value;
    }
    assert es[..|es|] == es;
    r := Ok(buffer);
  }

  method GetCommandPackage(es: seq<Entry>) returns (r: Result<seq<Byte>>)
    ensures AllIds(es) ==> r == Ok(Package(es))
    ensures !AllIds(es) ==> Fails(es, r)
  {
    var dataSize := SizeOf(es);
    r := WriteEntries(es);
    if r.Ok? {
      r := Ok(Le(4, dataSize) + (Le(8, |es|) + r.value));
    }
  }

  // ---------- the reader at the other end ----------

  datatype Sid = Sid(id: seq<Byte>, intervals: seq<Interval>)

  /** n pairs of numbers, the second one past the end of its interval; and what follows. */
  function ReadIntervals(n: nat, bs: seq<Byte>): Option<(seq<Interval>, seq<Byte>)> {
    if n == 0 then Some(([], bs))
    else if |bs| < 16 then None
    else match ReadIntervals(n - 1, bs[16..])
      case None => None
      case Some((s, rest)) => Some(([Interval(UnLe(bs[..8]), UnLe(bs[8..16]) - 1)] + s, rest))
  }

  function ReadSids(n: nat, bs: seq<Byte>): Option<(seq<Sid>, seq<Byte>)> {
    if n == 0 then Some(([], bs))
    else if |bs| < 24 then None
    else match ReadIntervals(UnLe(bs[16..24]), bs[24..])
      case None => None
      case Some((s, more)) =>
        match ReadSids(n - 1, more)
        case None => None
        case Some((sids, rest)) => Some(([Sid(bs[..16], s)] + sids, rest))
  }

  function ReadBody(bs: seq<Byte>): Option<seq<Sid>> {
    if |bs| < 8 then None
    else match ReadSids(UnLe(bs[..8]), bs[8..])
      case None => None
      case Some((sids, rest)) => if rest == [] then Some(sids) else None
  }

  /** Transaction numbers are positive Java longs. */
  predicate InRange(i: Interval) {
    1 <= i.start < LONG_LIMIT && 1 <= i.end < LONG_LIMIT
  }

  predicate EntryInRange(e: Entry) {
    HexUuid(e.uuid) && |e.intervals| < LONG_LIMIT && forall k :: 0 <= k < |e.intervals| ==> InRange(e.intervals[k])
  }

  function SidOf(e: Entry): Sid
    requires HasId(e)
  {
    Sid(HexBytes(Strip(e.uuid)).value, e.intervals)
  }

  /** The servers' identifiers and intervals, in order. */
  function SidsOf(es: seq<Entry>): (sids: seq<Sid>)
    requires AllIds(es)
    ensures |sids| == |es| && forall k :: 0 <= k < |es| ==> HasId(es[k]) && sids[k] == SidOf(es[k])
  {
    if es == [] then [] else [SidOf(es[0])] + SidsOf(es[1..])
  }

  predicate AllInRange(es: seq<Entry>) {
    forall k :: 0 <= k < |es| ==> EntryInRange(es[k])
  }

  lemma InRangeHasId(e: Entry)
    requires EntryInRange(e)
    ensures HasId(e) && |SidOf(e).id| == 16
  {
    HexBytesOf(Strip(e.uuid));
  }

  lemma ReadInterval(i: Interval, n: nat, more: seq<Byte>)
    requires InRange(i)
    ensures ReadIntervals(n + 1, IntervalBytes(i) + more) ==
            match ReadIntervals(n, more) case None => None case Some((s, rest)) => Some(([i] + s, rest))
  {
    var bs := IntervalBytes(i) + more;
    UnLeLong(i.start);
    UnLeLong(i.end + 1);
    assert bs[..8] == Le(8, i.start);
    assert bs[8..16] == Le(8, i.end + 1);
    assert bs[16..] == more;
  }

  lemma {:induction false} ReadIntervalsOf(s: seq<Interval>, rest: seq<Byte>)
    requires forall k :: 0 <= k < |s| ==> InRange(s[k])
    ensures ReadIntervals(|s|, IntervalsBytes(s) + rest) == Some((s, rest))
    ensures |IntervalsBytes(s)| == 16 * |s|
  {
    if s == [] {
      assert IntervalsBytes(s) + rest == rest;
    } else {
      ReadIntervalsOf(s[1..], rest);
      assert InRange(s[0]);
      ReadInterval(s[0], |s| - 1, IntervalsBytes(s[1..]) + rest);
      Regroup(IntervalBytes(s[0]), IntervalsBytes(s[1..]), rest);
      HeadTail(s);
    }
  }

  lemma EntryParts(sid: seq<Byte>, count: seq<Byte>, more: seq<Byte>)
    requires |sid| == 16 && |count| == 8
    ensures var bs := sid + count + more; bs[..16] == sid && bs[16..24] == count && bs[24..] == more
  {
  }

  lemma ReadSid(e: Entry, n: nat, more: seq<Byte>)
    requires EntryInRange(e)
    ensures HasId(e)
    ensures ReadSids(n + 1, EntryBytes(e) + more) ==
            match ReadSids(n, more) case None => None case Some((sids, rest)) => Some(([SidOf(e)] + sids, rest))
  {
    InRangeHasId(e);
    var sid, count, tail := SidOf(e).id, Le(8, |e.intervals|), IntervalsBytes(e.intervals) + more;
    UnLeLong(|e.intervals|);
    ReadIntervalsOf(e.intervals, more);
    EntryParts(sid, count, tail);
    Regroup(sid + count, IntervalsBytes(e.intervals), more);
  }

  lemma {:induction false} ReadSidsOf(es: seq<Entry>, rest: seq<Byte>)
    requires AllInRange(es)
    ensures AllIds(es) && ReadSids(|es|, EntriesBytes(es) + rest) == Some((SidsOf(es), rest))
  {
    if es == [] {
      assert EntriesBytes(es) + rest == rest;
    } else {
      ReadSidsOf(es[1..], rest);
      assert EntryInRange(es[0]);
      ReadSid(es[0], |es| - 1, EntriesBytes(es[1..]) + rest);
      AllIdsCons(es);
      Regroup(EntryBytes(es[0]), EntriesBytes(es[1..]), rest);
    }
  }

  lemma AllIdsCons(es: seq<Entry>)
    requires es != [] && HasId(es[0]) && AllIds(es[1..])
    ensures AllIds(es)
  {
    forall k | 0 <= k < |es|
      ensures HasId(es[k])
    {
      if k > 0 {
        assert es[k] == es[1..][k - 1];
      }
    }
  }

  lemma {:induction false} EntriesLength(es: seq<Entry>)
    requires AllInRange(es) && AllIds(es)
    ensures |EntriesBytes(es)| == EntriesSize(es)
  {
    if es != [] {
      assert EntryInRange(es[0]);
      InRangeHasId(es[0]);
      ReadIntervalsOf(es[0].intervals, []);
      EntriesLength(es[1..]);
    }
  }

  /** The reader takes the size from the first four bytes, which must be followed by as many. */
  function ReadPackage(bs: seq<Byte>): Option<seq<Sid>> {
    if |bs| < 4 || UnLe(bs[..4]) != |bs| - 4 then None else ReadBody(bs[4..])
  }

  /**
   The package has four bytes more than its size says, and the reader recovers every server's identifier and intervals
   in order, provided that the size fits four bytes.
   */
  lemma PackageRoundTrip(es: seq<Entry>)
    requires |es| < LONG_LIMIT && AllInRange(es)
    ensures AllIds(es) && |Package(es)| == 4 + DataSize(es)
    ensures ReadBody(Package(es)[4..]) == Some(SidsOf(es))
    ensures DataSize(es) < 0x1_0000_0000 ==> ReadPackage(Package(es)) == Some(SidsOf(es))
  {
    BodyRoundTrip(es);
    var bs := Package(es);
    assert bs[..4] == Le(4, DataSize(es)) && bs[4..] == Body(es);
    if DataSize(es) < 0x1_0000_0000 {
      UnLeInt(DataSize(es));
    }
  }

  lemma BodyRoundTrip(es: seq<Entry>)
    requires |es| < LONG_LIMIT && AllInRange(es)
    ensures AllIds(es) && |Body(es)| == DataSize(es)
    ensures ReadBody(Body(es)) == Some(SidsOf(es))
  {
    ReadSidsOf(es, []);
    EntriesLength(es);
    UnLeLong(|es|);
    assert Body(es)[..8] == Le(8, |es|);
    assert Body(es)[8..] == EntriesBytes(es) + [];
  }

  /** An identifier determines its server's name but for dashes and the case of letters. */
  lemma SidNames(e: Entry)
    requires HexUuid(e.uuid)
    ensures HasId(e) && HexDigits(SidOf(e).id) == Lower(Strip(e.uuid))
  {
    HexBytesOf(Strip(e.uuid));
  }

  // ---------- as hexadecimal text ----------

  function HexText(bs: seq<Byte>): string {
    if bs == [] then "" else [UpperHex(bs[0] / 16), UpperHex(bs[0] % 16), ' '] + HexText(bs[1..])
  }

  /** Two digits for each byte, the letters in capitals, and a space. */
  lemma {:induction false} HexTextAt(bs: seq<Byte>, k: nat)
    requires k < |bs|
    ensures |HexText(bs)| == 3 * |bs| && HexText(bs)[3 * k + 2] == ' '
    ensures var c, d := HexText(bs)[3 * k], HexText(bs)[3 * k + 1];
            && HexValue(c) == Some(bs[k] / 16) && HexValue(d) == Some(bs[k] % 16)
            && !('a' <= c <= 'z') && !('a' <= d <= 'z')
  {
    if k > 0 {
      HexTextAt(bs[1..], k - 1);
    } else if |bs| > 1 {
      HexTextAt(bs[1..], 0);
    }
  }

  lemma {:induction false} HexTextSnoc(bs: seq<Byte>, b: Byte)
    ensures HexText(bs + [b]) == HexText(bs) + [UpperHex(b / 16), UpperHex(b % 16), ' ']
  {
    if bs == [] {
      assert (bs + [b])[1..] == [];
    } else {
      assert (bs + [b])[1..] == bs[1..] + [b];
      HexTextSnoc(bs[1..], b);
    }
  }

  /** The package without its size, as text. */
  method Resolve(gtidCommand: seq<Byte>) returns (text: string)
    ensures text == HexText(if |gtidCommand| < 4 then [] else gtidCommand[4..])
  {
    text := "";
    var i := 4;
    while i < |gtidCommand|
      invariant 4 <= i && (i == 4 || i <= |gtidCommand|)
      invariant text == if i <= |gtidCommand| then HexText(gtidCommand[4..i]) else ""
    {
      assert gtidCommand[4..i + 1] == gtidCommand[4..i] + [gtidCommand[i]];
      HexTextSnoc(gtidCommand[4..i], gtidCommand[i]);
      text := text + [UpperHex(gtidCommand[i] / 16), UpperHex(gtidCommand[i] % 16), ' '];
      i := i + 1;
    }
    assert |gtidCommand| >= 4 ==> gtidCommand[4..|gtidCommand|] == gtidCommand[4..];
  }

  predicate IsSpace(c: char) {
    c == ' ' || '\t' <= c <= '\r'
  }

  function HexRun(s: string): (n: nat)
    ensures n <= |s|
  {
    if s == "" || HexValue(s[0]).None? then 0 else 1 + HexRun(s[1..])
  }

  function HexNumber(s: string): nat {
    if s == "" then 0
    else 16 * HexNumber(s[..|s| - 1]) + (match HexValue(s[|s| - 1]) case Some(v) => v case None => 0)
  }

  const UNSIGNED_MAX: nat := 0xFFFF_FFFF

  /** Hexadecimal numbers as a stream extracts them, up to the first one that is missing or too big. */
  function ReadHex(s: string): seq<Byte>
    decreases |s|
  {
    if s == "" then []
    else if IsSpace(s[0]) then ReadHex(s[1..])
    else
      var n := HexRun(s);
      if n == 0 || HexNumber(s[..n]) > UNSIGNED_MAX then [] else [HexNumber(s[..n]) % 256] + ReadHex(s[n..])
  }

  method RetrieveGtidPackage(packageString: string) returns (gtidPackage: seq<Byte>)
    ensures gtidPackage == ReadHex(packageString)
  {
    gtidPackage := [];
    var ss := packageString;
    while ss != ""
      invariant ReadHex(packageString) == gtidPackage + ReadHex(ss)
      decreases |ss|
    {
      if IsSpace(ss[0]) {
        ss := ss[1..];
      } else {
        var n := HexRun(ss);
        if n == 0 || HexNumber(ss[..n]) > UNSIGNED_MAX {
          return;
        }
        gtidPackage := gtidPackage + [HexNumber(ss[..n]) % 256];
        ss := ss[n..];
      }
    }
  }

  lemma HexNumberTwo(b: Byte)
    ensures HexNumber([UpperHex(b / 16), UpperHex(b % 16)]) == b
  {
    var x, y := UpperHex(b / 16), UpperHex(b % 16);
    assert [x, y][..1] == [x] && [x][..0] == "";
    assert HexNumber([x]) == b / 16;
  }

  lemma HexRunTwo(b: Byte, rest: string)
    ensures HexRun([UpperHex(b / 16), UpperHex(b % 16), ' '] + rest) == 2
  {
    var x, y := UpperHex(b / 16), UpperHex(b % 16);
    var s := [x, y, ' '] + rest;
    assert HexValue(x) == Some(b / 16) && HexValue(y) == Some(b % 16) && HexValue(' ').None?;
    assert s[1..][0] == y && s[1..][1..][0] == ' ';
    assert HexRun(s[1..][1..]) == 0;
    assert HexRun(s[1..]) == 1;
  }

  lemma ReadOneHex(b: Byte, rest: string)
    ensures ReadHex([UpperHex(b / 16), UpperHex(b % 16), ' '] + rest) == [b] + ReadHex(rest)
  {
    HexRunTwo(b, rest);
    HexNumberTwo(b);
    HexParts(UpperHex(b / 16), UpperHex(b % 16), rest);
    SkipSpace(rest);
  }

  lemma HexParts(x: char, y: char, rest: string)
    ensures var s := [x, y, ' '] + rest; s != "" && s[0] == x && s[..2] == [x, y] && s[2..] == [' '] + rest
  {
  }

  lemma SkipSpace(rest: string)
    ensures ReadHex([' '] + rest) == ReadHex(rest)
  {
    assert ([' '] + rest)[1..] == rest;
  }

  /** The text brings every byte across unchanged. */
  lemma {:induction false} HexTextRoundTrip(bs: seq<Byte>)
    ensures ReadHex(HexText(bs)) == bs
  {
    if bs != [] {
      ReadOneHex(bs[0], HexText(bs[1..]));
      HexTextRoundTrip(bs[1..]);
    }
  }
}
