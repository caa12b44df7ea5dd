/** Lists of closed intervals of transaction numbers, and the sets they stand for. */
module Intervals {
  datatype Interval = Interval(start: int, end: int)

  predicate In(i: Interval, v: int) {
    i.start <= v <= i.end
  }

  /** The number is in one of the intervals. */
  predicate Covers(s: seq<Interval>, v: int) {
    exists k :: 0 <= k < |s| && In(s[k], v)
  }

  ghost predicate SameNumbers(s: seq<Interval>, t: seq<Interval>) {
    forall v :: Covers(s, v) <==> Covers(t, v)
  }

  /** Non-empty, disjoint and in ascending order. */
  ghost predicate Sorted(s: seq<Interval>) {
    && (forall k :: 0 <= k < |s| ==> s[k].start <= s[k].end)
    && (forall j, k :: 0 <= j < k < |s| ==> s[j].end < s[k].start)
  }

  predicate GapAt(s: seq<Interval>, k: nat) {
    k + 1 < |s| ==> s[k].end + 1 < s[k + 1].start
  }

  /** Canonical: no two neighbours could be one interval. */
  ghost predicate Canonical(s: seq<Interval>) {
    Sorted(s) && forall k: nat :: GapAt(s, k)
  }

  // ---------- lists in parts ----------

  lemma CoversAppend(a: seq<Interval>, b: seq<Interval>, v: int)
    ensures Covers(a + b, v) <==> Covers(a, v) || Covers(b, v)
  {
    if Covers(a, v) {
      var k :| 0 <= k < |a| && In(a[k], v);
      assert In((a + b)[k], v);
    }
    if Covers(b, v) {
      var k :| 0 <= k < |b| && In(b[k], v);
      assert In((a + b)[|a| + k], v);
    }
  }

  lemma CoversOne(i: Interval, v: int)
    ensures Covers([i], v) <==> In(i, v)
  {
    assert In(i, v) ==> In([i][0], v);
  }

  ghost predicate Before(a: seq<Interval>, b: seq<Interval>) {
    a != [] && b != [] ==> a[|a| - 1].end < b[0].start
  }

  lemma SortedAppend(a: seq<Interval>, b: seq<Interval>)
    ensures Sorted(a + b) <==> Sorted(a) && Sorted(b) && Before(a, b)
  {
    var s := a + b;
    if Sorted(s) {
      assert forall k :: 0 <= k < |a| ==> a[k] == s[k];
      assert forall k :: 0 <= k < |b| ==> b[k] == s[|a| + k];
    }
  }

  // ---------- positions ----------

  /** How many intervals end before v. */
  function Position(s: seq<Interval>, v: int): (p: nat)
    ensures p <= |s|
  {
    if s == [] || v <= s[0].end then 0 else 1 + Position(s[1..], v)
  }

  lemma {:induction false} PositionSplits(s: seq<Interval>, v: int)
    requires Sorted(s)
    ensures forall k :: 0 <= k < Position(s, v) ==> s[k].end < v
    ensures forall k :: Position(s, v) <= k < |s| ==> v <= s[k].end
  {
    if s != [] && s[0].end < v {
      PositionSplits(s[1..], v);
      forall k | 0 <= k < |s|
        ensures k < Position(s, v) ==> s[k].end < v
        ensures Position(s, v) <= k ==> v <= s[k].end
      {
        if k > 0 {
          assert s[k] == s[1..][k - 1];
        }
      }
    } else if s != [] {
      forall k | 0 <= k < |s|
        ensures v <= s[k].end
      {
      }
    }
  }

  lemma PositionIs(s: seq<Interval>, v: int, p: nat)
    requires Sorted(s) && p <= |s|
    requires p > 0 ==> s[p - 1].end < v
    requires p < |s| ==> v <= s[p].end
    ensures p == Position(s, v)
  {
    PositionSplits(s, v);
  }

  lemma CoversAtPosition(s: seq<Interval>, v: int)
    requires Sorted(s)
    ensures Covers(s, v) <==> Position(s, v) < |s| && s[Position(s, v)].start <= v
  {
    var p := Position(s, v);
    PositionSplits(s, v);
    if p < |s| && s[p].start <= v {
      assert In(s[p], v);
    }
    if Covers(s, v) {
      var k :| 0 <= k < |s| && In(s[k], v);
      assert p <= k;
    }
  }

  // ---------- joining neighbours ----------

  function JoinAt(s: seq<Interval>, i: nat): (t: seq<Interval>)
    requires 0 < i < |s|
    ensures |s| - 1 <= |t| <= |s|
  {
    if s[i - 1].end + 1 == s[i].start then s[..i - 1] + [Interval(s[i - 1].start, s[i].end)] + s[i + 1..] else s
  }

  /** Joins at i, i - 1, ... down to just above e. */
  function Joined(s: seq<Interval>, i: nat, e: nat): (t: seq<Interval>)
    requires i < |s| || i <= e
    decreases i
  {
    if i > e then Joined(JoinAt(s, i), i - 1, e) else s
  }

  function Min(a: int, b: int): int {
    if a < b then a else b
  }

  function Max(a: int, b: int): int {
    if a < b then b else a
  }

  /** Around one index. */
  function JoinedAround(s: seq<Interval>, index: nat): seq<Interval>
    requires s != []
  {
    Joined(s, Min(index + 1, |s| - 1), Max(index - 1, 0))
  }

  lemma JoinKeeps(s: seq<Interval>, i: nat)
    requires 0 < i < |s| && Sorted(s)
    ensures Sorted(JoinAt(s, i)) && SameNumbers(JoinAt(s, i), s)
  {
    if s[i - 1].end + 1 == s[i].start {
      var a, x, y, c := s[..i - 1], s[i - 1], s[i], s[i + 1..];
      assert s == a + [x] + ([y] + c);
      JoinParts(a, x, y, c);
    }
  }

  lemma JoinParts(a: seq<Interval>, x: Interval, y: Interval, c: seq<Interval>)
    requires Sorted(a + [x] + ([y] + c)) && x.end + 1 == y.start
    ensures Sorted(a + [Interval(x.start, y.end)] + c)
    ensures SameNumbers(a + [Interval(x.start, y.end)] + c, a + [x] + ([y] + c))
  {
    var z := Interval(x.start, y.end);
    SortedAppend(a + [x], [y] + c);
    SortedAppend(a, [x]);
    SortedAppend([y], c);
    SortedAppend(a, [z]);
    SortedAppend(a + [z], c);
    forall v
      ensures Covers(a + [z] + c, v) <==> Covers(a + [x] + ([y] + c), v)
    {
      CoversAppend(a + [z], c, v);
      CoversAppend(a, [z], v);
      CoversAppend(a + [x], [y] + c, v);
      CoversAppend(a, [x], v);
      CoversAppend([y], c, v);
      CoversOne(x, v);
      CoversOne(y, v);
      CoversOne(z, v);
    }
  }

  lemma {:induction false} JoinedKeeps(s: seq<Interval>, i: nat, e: nat)
    requires Sorted(s) && (i < |s| || i <= e)
    ensures Sorted(Joined(s, i, e)) && SameNumbers(Joined(s, i, e), s)
    decreases i
  {
    if i > e {
      JoinKeeps(s, i);
      JoinedKeeps(JoinAt(s, i), i - 1, e);
    }
  }

  /** Gaps outside the joined range stay, and the range has gaps afterwards. */
  lemma {:induction false} JoinedGaps(s: seq<Interval>, i: nat, e: nat)
    requires Sorted(s) && (i < |s| || i <= e)
    requires forall k: nat :: k < e || i <= k ==> GapAt(s, k)
    ensures forall k: nat :: GapAt(Joined(s, i, e), k)
    decreases i
  {
    if i > e {
      var t := JoinAt(s, i);
      JoinKeeps(s, i);
      forall k: nat | k < e || i - 1 <= k
        ensures GapAt(t, k)
      {
        if |t| == |s| {
          assert k != i - 1 ==> GapAt(s, k);
          assert s[i - 1].end < s[i].start;
        } else {
          JoinGap(s, i, k);
        }
      }
      JoinedGaps(t, i - 1, e);
    }
  }

  lemma JoinGap(s: seq<Interval>, i: nat, k: nat)
    requires 0 < i < |s| && s[i - 1].end + 1 == s[i].start
    requires k < i - 1 ==> GapAt(s, k)
    requires k >= i - 1 ==> GapAt(s, k + 1)
    ensures GapAt(JoinAt(s, i), k)
  {
  }

  // ---------- adding ----------

  /** The list with t in its place, before neighbours are joined. */
  function Placed(s: seq<Interval>, t: int, p: nat): (r: seq<Interval>)
    requires p <= |s|
    ensures r != [] && p < |r|
  {
    if p < |s| && s[p].start == t + 1 then s[p := Interval(t, s[p].end)]
    else s[..p] + [Interval(t, t)] + s[p..]
  }

  function AddTo(s: seq<Interval>, t: int): seq<Interval> {
    var p := Position(s, t);
    if p < |s| && s[p].start <= t then s
    else
      var r := Placed(s, t, p);
      if |r| > 1 then JoinedAround(r, p) else r
  }

  ghost predicate Adds(s: seq<Interval>, r: seq<Interval>, t: int) {
    forall v :: Covers(r, v) <==> Covers(s, v) || v == t
  }

  lemma PlacedParts(s: seq<Interval>, t: int, p: nat)
    requires p <= |s|
    ensures s == s[..p] + s[p..]
    ensures p < |s| ==> s == s[..p] + ([s[p]] + s[p + 1..])
    ensures p < |s| && s[p].start == t + 1 ==> Placed(s, t, p) == s[..p] + [Interval(t, s[p].end)] + s[p + 1..]
  {
  }

  lemma PlacedAdds(s: seq<Interval>, t: int)
    requires Sorted(s) && !Covers(s, t)
    ensures var r := Placed(s, t, Position(s, t)); Sorted(r) && Adds(s, r, t)
  {
    var p := Position(s, t);
    PlacedParts(s, t, p);
    PositionAround(s, t);
    if p < |s| && s[p].start == t + 1 {
      ExtendedAdds(s[..p], s[p], s[p + 1..], t);
    } else {
      InsertedAdds(s[..p], s[p..], t);
    }
  }

  /** A number that is not covered lies between the intervals around its position. */
  lemma PositionAround(s: seq<Interval>, t: int)
    requires Sorted(s) && !Covers(s, t)
    ensures Before(s[..Position(s, t)], [Interval(t, t)]) && Before([Interval(t, t)], s[Position(s, t)..])
  {
    PositionSplits(s, t);
    CoversAtPosition(s, t);
  }

  lemma ExtendedAdds(a: seq<Interval>, x: Interval, c: seq<Interval>, t: int)
    requires Sorted(a + ([x] + c)) && x.start == t + 1 && Before(a, [Interval(t, t)])
    ensures Sorted(a + [Interval(t, x.end)] + c) && Adds(a + ([x] + c), a + [Interval(t, x.end)] + c, t)
  {
    var y := Interval(t, x.end);
    SortedAppend(a, [x] + c);
    SortedAppend([x], c);
    assert [x][0] == x && Sorted([x]) && Before([y], c);
    InsertedSorted(a, c, y);
    forall v
      ensures Covers(a + [y] + c, v) <==> Covers(a + ([x] + c), v) || v == t
    {
      CoversAppend(a + [y], c, v);
      CoversAppend(a, [y], v);
      CoversAppend(a, [x] + c, v);
      CoversAppend([x], c, v);
      CoversOne(x, v);
      CoversOne(y, v);
    }
  }

  lemma InsertedSorted(a: seq<Interval>, b: seq<Interval>, y: Interval)
    requires Sorted(a) && Sorted(b) && y.start <= y.end && Before(a, [y]) && Before([y], b)
    ensures Sorted(a + [y] + b)
  {
    SortedAppend(a, [y]);
    SortedAppend(a + [y], b);
  }

  lemma InsertedAdds(a: seq<Interval>, b: seq<Interval>, t: int)
    requires Sorted(a + b) && Before(a, [Interval(t, t)]) && Before([Interval(t, t)], b)
    ensures Sorted(a + [Interval(t, t)] + b) && Adds(a + b, a + [Interval(t, t)] + b, t)
  {
    var y := Interval(t, t);
    forall v
      ensures Covers(a + [y] + b, v) <==> Covers(a + b, v) || v == t
    {
      CoversAppend(a + [y], b, v);
      CoversAppend(a, [y], v);
      CoversAppend(a, b, v);
      CoversOne(y, v);
    }
    SortedAppend(a, b);
    InsertedSorted(a, b, y);
  }

  lemma PlacedGaps(s: seq<Interval>, t: int, k: nat)
    requires Canonical(s) && !Covers(s, t)
    requires k + 1 < Position(s, t) || Position(s, t) < k
    ensures GapAt(Placed(s, t, Position(s, t)), k)
  {
    var p := Position(s, t);
    assert GapAt(s, k);
    PositionSplits(s, t);
    if k > 0 {
      assert GapAt(s, k - 1);
    }
  }

  lemma JoinedAroundKeeps(r: seq<Interval>, p: nat)
    requires Sorted(r) && p < |r|
    ensures Sorted(JoinedAround(r, p)) && SameNumbers(JoinedAround(r, p), r)
    ensures (forall k: nat :: k + 1 < p || p < k ==> GapAt(r, k)) ==> Canonical(JoinedAround(r, p))
  {
    var i: nat, e: nat := Min(p + 1, |r| - 1), Max(p - 1, 0);
    JoinedKeeps(r, i, e);
    if forall k: nat :: k + 1 < p || p < k ==> GapAt(r, k) {
      JoinedGaps(r, i, e);
    }
  }

  /** Adding a number adds just that number, and keeps the list sorted, and canonical if it was. */
  lemma AddToAdds(s: seq<Interval>, t: int)
    requires Sorted(s)
    ensures Sorted(AddTo(s, t)) && Adds(s, AddTo(s, t), t)
    ensures Canonical(s) ==> Canonical(AddTo(s, t))
  {
    var p := Position(s, t);
    CoversAtPosition(s, t);
    if !Covers(s, t) {
      PlacedAdds(s, t);
      JoinedAroundKeeps(Placed(s, t, p), p);
      if Canonical(s) {
        forall k: nat | k + 1 < p || p < k
          ensures GapAt(Placed(s, t, p), k)
        {
          PlacedGaps(s, t, k);
        }
      }
    }
  }

  // ---------- runs of additions ----------

  function AddAll(ts: seq<int>): seq<Interval> {
    if ts == [] then [] else AddTo(AddAll(ts[..|ts| - 1]), ts[|ts| - 1])
  }

  /** Every run of additions gives the canonical list of exactly the numbers added. */
  lemma {:induction false} AddAllIs(ts: seq<int>)
    ensures Canonical(AddAll(ts)) && forall v :: Covers(AddAll(ts), v) <==> v in ts
    decreases |ts|
  {
    if ts != [] {
      var front, t := ts[..|ts| - 1], ts[|ts| - 1];
      AddAllIs(front);
      AddToAdds(AddAll(front), t);
      assert forall v :: v in ts <==> v in front || v == t;
    }
  }

  // ---------- containment and equality ----------

  predicate Within(i: Interval, j: Interval) {
    i.start >= j.start && i.end <= j.end
  }

  predicate WithinOne(i: Interval, s: seq<Interval>) {
    exists j :: 0 <= j < |s| && Within(i, s[j])
  }

  /** Every interval lies in one interval of the other list. */
  predicate AllWithin(a: seq<Interval>, b: seq<Interval>) {
    forall k :: 0 <= k < |a| ==> WithinOne(a[k], b)
  }

  ghost predicate Subset(a: seq<Interval>, b: seq<Interval>) {
    forall v :: Covers(a, v) ==> Covers(b, v)
  }

  lemma WithinIsSubset(a: seq<Interval>, b: seq<Interval>)
    requires AllWithin(a, b)
    ensures Subset(a, b)
  {
    forall v | Covers(a, v)
      ensures Covers(b, v)
    {
      var k :| 0 <= k < |a| && In(a[k], v);
      assert WithinOne(a[k], b);
      var j :| 0 <= j < |b| && Within(a[k], b[j]);
      assert In(b[j], v);
    }
  }

  /** In a canonical list a stretch of numbers lies in a single interval. */
  lemma {:induction false} StretchInOne(b: seq<Interval>, lo: int, hi: int) returns (j: nat)
    requires Canonical(b) && lo <= hi && forall v :: lo <= v <= hi ==> Covers(b, v)
    ensures j < |b| && Within(Interval(lo, hi), b[j])
    decreases hi - lo
  {
    assert Covers(b, hi);
    var i :| 0 <= i < |b| && In(b[i], hi);
    j := i;
    if lo < hi {
      j := StretchInOne(b, lo, hi - 1);
      assert GapAt(b, j);
    }
  }

  /** Against a canonical list, lying in single intervals is being a subset. */
  lemma WithinExact(a: seq<Interval>, b: seq<Interval>)
    requires Sorted(a) && Canonical(b)
    ensures AllWithin(a, b) <==> Subset(a, b)
  {
    if AllWithin(a, b) {
      WithinIsSubset(a, b);
    }
    if Subset(a, b) {
      forall k | 0 <= k < |a|
        ensures WithinOne(a[k], b)
      {
        forall v | a[k].start <= v <= a[k].end
          ensures Covers(b, v)
        {
          assert In(a[k], v);
        }
        var j := StretchInOne(b, a[k].start, a[k].end);
      }
    }
  }

  lemma CanonicalTail(a: seq<Interval>)
    requires Canonical(a) && a != []
    ensures Canonical(a[1..])
    ensures forall v :: Covers(a[1..], v) <==> Covers(a, v) && v > a[0].end
  {
    forall k: nat
      ensures GapAt(a[1..], k)
    {
      assert GapAt(a, k + 1);
    }
    assert a == [a[0]] + a[1..];
    forall v
      ensures Covers(a[1..], v) <==> Covers(a, v) && v > a[0].end
    {
      CoversAppend([a[0]], a[1..], v);
      CoversOne(a[0], v);
    }
  }

  lemma HeadWithin(a: seq<Interval>, b: seq<Interval>)
    requires Canonical(a) && Canonical(b) && a != [] && Subset(a, b)
    ensures b != [] && b[0].start <= a[0].start
    ensures b[0].start == a[0].start ==> a[0].end <= b[0].end
  {
    WithinExact(a, b);
    assert WithinOne(a[0], b);
  }

  /** A set of numbers has one canonical list. */
  lemma {:induction false} CanonicalUnique(a: seq<Interval>, b: seq<Interval>)
    requires Canonical(a) && Canonical(b) && SameNumbers(a, b)
    ensures a == b
    decreases |a|
  {
    if a == [] {
      if b != [] {
        HeadWithin(b, a);
      }
    } else {
      HeadWithin(a, b);
      HeadWithin(b, a);
      assert a[0] == b[0];
      CanonicalTail(a);
      CanonicalTail(b);
      CanonicalUnique(a[1..], b[1..]);
      assert a == [a[0]] + a[1..] && b == [b[0]] + b[1..];
    }
  }

  /** Runs that add the same numbers, in whatever order, end with the same list. */
  lemma AddOrderIrrelevant(ts: seq<int>, us: seq<int>)
    ensures AddAll(ts) == AddAll(us) <==> (forall v :: v in ts <==> v in us)
  {
    AddAllIs(ts);
    AddAllIs(us);
    if forall v :: v in ts <==> v in us {
      CanonicalUnique(AddAll(ts), AddAll(us));
    }
  }

  /** From the end of an interval to the start of the next. */
  function Stretch(b: seq<Interval>, k: nat): seq<Interval>
    requires k + 1 < |b|
  {
    [Interval(b[k].end, b[k + 1].start)]
  }

  /** Where two neighbours touch, the stretch across them is a subset that lies in no single interval. */
  lemma TouchMissed(b: seq<Interval>, k: nat)
    requires Sorted(b) && !GapAt(b, k)
    ensures var a := Stretch(b, k); Sorted(a) && Subset(a, b) && !AllWithin(a, b)
  {
    var a := Stretch(b, k);
    forall v | Covers(a, v)
      ensures Covers(b, v)
    {
      CoversOne(a[0], v);
      assert In(b[if v == b[k].end then k else k + 1], v);
    }
    forall j | 0 <= j < |b|
      ensures !Within(a[0], b[j])
    {
      if j < k {
        assert b[j].end < b[k].start;
      } else if k + 1 < j {
        assert b[k + 1].end < b[j].start;
      }
    }
    assert !WithinOne(a[0], b);
  }

  /** Lying in single intervals of b is being a subset. */
  ghost predicate Decides(b: seq<Interval>, a: seq<Interval>) {
    AllWithin(a, b) <==> Subset(a, b)
  }

  ghost predicate DecidesAll(b: seq<Interval>) {
    forall a :: Sorted(a) ==> Decides(b, a)
  }

  /** The canonical lists are exactly those against which the containment check decides inclusion. */
  lemma ExactlyCanonical(b: seq<Interval>)
    requires Sorted(b)
    ensures Canonical(b) <==> DecidesAll(b)
  {
    if Canonical(b) {
      CanonicalDecides(b);
    } else {
      var k: nat :| !GapAt(b, k);
      TouchMissed(b, k);
      assert !Decides(b, Stretch(b, k));
    }
  }

  lemma CanonicalDecides(b: seq<Interval>)
    requires Canonical(b)
    ensures DecidesAll(b)
  {
    forall a | Sorted(a)
      ensures Decides(b, a)
    {
      WithinExact(a, b);
    }
  }

  /** Only the first two intervals are joined when a list is taken over. */
  function Adopted(s: seq<Interval>): seq<Interval> {
    if |s| > 1 then JoinedAround(s, 0) else s
  }

  lemma FirstJoin(s: seq<Interval>, k: nat)
    requires |s| > 1
    ensures s[0].end + 1 == s[1].start ==> (GapAt(JoinAt(s, 1), k) <==> GapAt(s, k + 1))
    ensures s[0].end + 1 != s[1].start ==> JoinAt(s, 1) == s
    ensures Adopted(s) == JoinAt(s, 1)
  {
    assert Joined(JoinAt(s, 1), 0, 0) == JoinAt(s, 1);
  }

  /** So the list that results is canonical exactly when every later pair of neighbours has a gap. */
  lemma AdoptedCanonical(s: seq<Interval>)
    requires Sorted(s)
    ensures Sorted(Adopted(s)) && SameNumbers(Adopted(s), s)
    ensures Canonical(Adopted(s)) <==> forall k: nat :: k > 0 ==> GapAt(s, k)
  {
    if |s| > 1 {
      JoinedAroundKeeps(s, 0);
      var t := Adopted(s);
      if Canonical(t) {
        forall k: nat | k > 0
          ensures GapAt(s, k)
        {
          FirstJoin(s, k - 1);
          assert GapAt(t, k - 1) && GapAt(t, k);
        }
      }
      if forall k: nat :: k > 0 ==> GapAt(s, k) {
        forall k: nat
          ensures GapAt(t, k)
        {
          FirstJoin(s, k);
        }
      }
    }
  }

  /** A touch behind the first pair survives, wherever it then stands. */
  lemma AdoptedTouch(s: seq<Interval>, k: nat) returns (j: nat)
    requires Sorted(s) && k > 0 && !GapAt(s, k)
    ensures var t := Adopted(s); !GapAt(t, j) && t[j].end == s[k].end && t[j + 1].start == s[k + 1].start
  {
    FirstJoin(s, k - 1);
    FirstJoin(s, k);
    j := if s[0].end + 1 == s[1].start then k - 1 else k;
  }

  lemma AdoptedMissed(s: seq<Interval>, k: nat)
    requires Sorted(s) && k > 0 && !GapAt(s, k)
    ensures Subset(Stretch(s, k), Adopted(s)) && !AllWithin(Stretch(s, k), Adopted(s))
  {
    AdoptedCanonical(s);
    var j := AdoptedTouch(s, k);
    TouchMissed(Adopted(s), j);
    assert Stretch(Adopted(s), j) == Stretch(s, k);
  }
}
