/** The set of transaction numbers of one server, and the sets of all servers. */
module GtidSets {
  import opened GtidPackage
  import opened GtidText
  import opened Intervals
  import opened Text

  predicate EqualsIgnoreCase(s: string, t: string) {
    |s| == |t| && forall k :: 0 <= k < |s| ==> LowerChar(s[k]) == LowerChar(t[k])
  }

  class UUIDSet {
    const uuid: string
    var intervals: seq<Interval>

    constructor (uuid: string, intervals: seq<Interval>)
      ensures this.uuid == uuid && this.intervals == Adopted(intervals)
    {
      this.uuid := uuid;
      this.intervals := intervals;
      new;
      if |intervals| > 1 {
        JoinAdjacentIntervals(0);
      }
    }

    /** Binary search: the interval that holds v, or the place where v belongs. */
    method FindInterval(v: int) returns (p: nat)
      requires Sorted(intervals)
      ensures p == Position(intervals, v)
    {
      var l, r := 0, |intervals|;
      p := 0;
      while l < r
        invariant 0 <= l <= r <= |intervals|
        invariant l > 0 ==> intervals[l - 1].end < v
        invariant r < |intervals| ==> v < intervals[r].start
        invariant (p == l - 1) || (p == r < |intervals|) || (p == l == 0 && r == |intervals|)
      {
        p := (l + r) / 2;
        var i := intervals[p];
        if i.end < v {
          l := p + 1;
        } else if v < i.start {
          r := p;
        } else {
          assert p > 0 ==> intervals[p - 1].end < intervals[p].start;
          PositionIs(intervals, v, p);
          return;
        }
      }
      if intervals != [] && intervals[p].end < v {
        p := p + 1;
      }
      PositionIs(intervals, v, p);
    }

    method JoinAdjacentIntervals(index: nat)
      requires intervals != []
      modifies this`intervals
      ensures intervals == JoinedAround(old(intervals), index)
    {
      var i, e := Min(index + 1, |intervals| - 1), Max(index - 1, 0);
      while i > e
        invariant 0 <= e && 0 <= i && (i < |intervals| || i <= e)
        invariant Joined(intervals, i, e) == JoinedAround(old(intervals), index)
      {
        var a, b := intervals[i - 1], intervals[i];
        if a.end + 1 == b.start {
          intervals := intervals[..i - 1] + [Interval(a.start, b.end)] + intervals[i + 1..];
        }
        i := i - 1;
      }
    }

    /** Was the number new? */
    method Add(transactionId: int) returns (added: bool)
      requires Sorted(intervals)
      modifies this`intervals
      ensures intervals == AddTo(old(intervals), transactionId)
      ensures Sorted(intervals) && Adds(old(intervals), intervals, transactionId)
      ensures Canonical(old(intervals)) ==> Canonical(intervals)
      ensures added <==> !Covers(old(intervals), transactionId)
    {
      var index := FindInterval(transactionId);
      AddToAdds(intervals, transactionId);
      CoversAtPosition(intervals, transactionId);
      PositionSplits(intervals, transactionId);
      var addedToExisting := false;
      if index < |intervals| {
        var interval := intervals[index];
        if interval.start == transactionId + 1 {
          intervals := intervals[index := Interval(transactionId, interval.end)];
          addedToExisting := true;
        } else if interval.end + 1 == transactionId {
          // the search never stops at an interval that ends before the number
          assert false;
        } else if interval.start <= transactionId <= interval.end {
          return false;
        }
      }
      if !addedToExisting {
        intervals := intervals[..index] + [Interval(transactionId, transactionId)] + intervals[index..];
      }
      if |intervals| > 1 {
        JoinAdjacentIntervals(index);
      }
      return true;
    }

    method IsContainedWithin(other: UUIDSet?) returns (contained: bool)
      ensures contained <==>
              other != null && EqualsIgnoreCase(uuid, other.uuid) && AllWithin(intervals, other.intervals)
    {
      if other == null {
        return false;
      }
      if !EqualsIgnoreCase(uuid, other.uuid) {
        return false;
      }
      if intervals == [] {
        return true;
      }
      if other.intervals == [] {
        assert !WithinOne(intervals[0], other.intervals);
        return false;
      }
      for k := 0 to |intervals|
        invariant forall m :: 0 <= m < k ==> WithinOne(intervals[m], other.intervals)
      {
        var found := false;
        for j := 0 to |other.intervals|
          invariant !found
          invariant forall m :: 0 <= m < j ==> !Within(intervals[k], other.intervals[m])
        {
          if Within(intervals[k], other.intervals[j]) {
            found := true;
            break;
          }
        }
        if !found {
          return false;
        }
      }
      return true;
    }

    predicate Equals(that: UUIDSet)
      reads this, that
    {
      EqualsIgnoreCase(uuid, that.uuid) && intervals == that.intervals
    }
  }

  /** The sets of several servers, in the order in which the servers were first named. */
  class GtidSet {
    var servers: seq<string>
    var sets: map<string, UUIDSet>

    ghost predicate Valid()
      reads this
    {
      && (forall j, k :: 0 <= j < k < |servers| ==> servers[j] != servers[k])
      && (forall u :: u in sets <==> u in servers)
      && (forall u :: u in sets ==> sets[u].uuid == u)
    }

    function List(u: string): seq<Interval>
      reads this, sets.Values
    {
      if u in sets then sets[u].intervals else []
    }

    ghost predicate AllSorted()
      reads this, sets.Values
    {
      forall u :: u in sets ==> Sorted(List(u))
    }

    ghost predicate AllCanonical()
      reads this, sets.Values
    {
      forall u :: u in sets ==> Canonical(List(u))
    }

    /** The transactions in the set. */
    predicate Has(u: string, v: int)
      reads this, sets.Values
    {
      Covers(List(u), v)
    }

    /** The entries in order. */
    ghost function View(): (es: seq<Entry>)
      requires Valid()
      reads this, sets.Values
      ensures |es| == |servers|
    {
      seq(|servers|, k requires 0 <= k < |servers| reads this, sets.Values => Entry(servers[k], List(servers[k])))
    }

    constructor ()
      ensures Valid() && servers == [] && sets == map[]
    {
      servers, sets := [], map[];
    }

    method Entries() returns (es: seq<Entry>)
      requires Valid()
      ensures es == View()
    {
      es := [];
      for k := 0 to |servers|
        invariant es == View()[..k]
      {
        es := es + [Entry(servers[k], sets[servers[k]].intervals)];
      }
    }

    method GetCommandPackage() returns (r: Result<seq<Byte>>)
      requires Valid()
      ensures AllIds(View()) ==> r == Ok(Package(View()))
      ensures !AllIds(View()) ==> Fails(View(), r)
    {
      var es := Entries();
      r := GtidPackage.GetCommandPackage(es);
    }

    method ToString() returns (s: string)
      requires Valid()
      ensures s == ToText(View())
    {
      var es := Entries();
      s := WriteText(es);
    }

    static method FromPiece(uuidSet: string) returns (r: Result<UUIDSet>)
      ensures r.Ok? ==> fresh(r.value) && ParseEntry(uuidSet) == Ok(Entry(r.value.uuid, r.value.intervals))
      ensures r.Err? ==> ParseEntry(uuidSet) == Err(r.message)
    {
      var at := IndexOf(uuidSet, ':');
      if at == |uuidSet| {
        return Err("StringIndexOutOfBoundsException");
      }
      var intervals := ReadRawIntervals(SplitOn(uuidSet[at + 1..], ':'));
      if intervals.Err? {
        return Err(intervals.message);
      }
      var s := new UUIDSet(uuidSet[..at], intervals.value);
      r := Ok(s);
    }

    static method FromText(gtidSet: string) returns (r: Result<GtidSet>)
      ensures r.Ok? ==> r.value.Valid() && Parse(gtidSet) == Ok(r.value.View())
      ensures r.Err? ==> Parse(gtidSet) == Err(r.message)
    {
      var uuidSets := if gtidSet == "" then [] else SplitOn(Without(gtidSet, '\n'), ',');
      var result := new GtidSet();
      assert result.View() == [];
      for k := 0 to |uuidSets|
        invariant fresh(result) && result.Valid()
        invariant ParseEntries(uuidSets[..k]) == Ok(result.View())
      {
        var s := FromPiece(uuidSets[k]);
        ParseNext(uuidSets, k);
        if s.Err? {
          ParseFails(uuidSets, k, s.message);
          return Err(s.message);
        }
        result.PutUUIDSet(s.value);
      }
      assert uuidSets[..|uuidSets|] == uuidSets;
      r := Ok(result);
    }

    static lemma ParseNext(ps: seq<string>, k: nat)
      requires k < |ps| && ParseEntries(ps[..k]).Ok?
      ensures ParseEntries(ps[..k + 1]) == match ParseEntry(ps[k])
                                           case Err(e) => Err(e)
                                           case Ok(e) => Ok(Put(ParseEntries(ps[..k]).value, e))
    {
      assert ps[..k + 1][..k] == ps[..k];
    }

    static lemma {:induction false} ParseFails(ps: seq<string>, k: nat, e: string)
      requires k < |ps| && ParseEntries(ps[..k]).Ok? && ParseEntry(ps[k]) == Err(e)
      ensures ParseEntries(ps) == Err(e)
      decreases |ps|
    {
      if k < |ps| - 1 {
        assert ps[..|ps| - 1][..k] == ps[..k];
        ParseFails(ps[..|ps| - 1], k, e);
      }
    }

    /** Adds or replaces a server's set. */
    method PutUUIDSet(s: UUIDSet)
      requires Valid()
      modifies this
      ensures Valid() && sets == old(sets)[s.uuid := s]
      ensures servers == if s.uuid in old(sets) then old(servers) else old(servers) + [s.uuid]
      ensures View() == Put(old(View()), Entry(s.uuid, s.intervals))
    {
      ghost var before, e := View(), Entry(s.uuid, s.intervals);
      if s.uuid !in sets {
        PutNew(before, e);
        servers := servers + [s.uuid];
        sets := sets[s.uuid := s];
        assert View() == before + [e];
      } else {
        ghost var k :| 0 <= k < |servers| && servers[k] == s.uuid;
        PutAt(before, e, k);
        sets := sets[s.uuid := s];
        assert View() == before[k := e];
      }
    }

    /** The server's set, which is empty if the server is new. */
    method SetOf(sourceId: string) returns (s: UUIDSet)
      requires Valid()
      modifies this
      ensures Valid() && sourceId in sets && sets[sourceId] == s
      ensures sets == old(sets)[sourceId := s]
      ensures if sourceId in old(sets) then s == old(sets[sourceId]) else fresh(s) && s.intervals == []
      ensures servers == if sourceId in old(sets) then old(servers) else old(servers) + [sourceId]
      ensures forall u :: List(u) == old(List(u))
    {
      if sourceId !in sets {
        s := new UUIDSet(sourceId, []);
        PutUUIDSet(s);
      } else {
        s := sets[sourceId];
      }
    }

    method AddKnown(s: UUIDSet, sourceId: string, transactionId: int) returns (added: bool)
      requires Valid() && sourceId in sets && sets[sourceId] == s && Sorted(List(sourceId))
      modifies s`intervals
      ensures added <==> !old(Has(sourceId, transactionId))
      ensures List(sourceId) == AddTo(old(List(sourceId)), transactionId)
      ensures forall u :: u != sourceId ==> List(u) == old(List(u))
    {
      added := s.Add(transactionId);
      forall u | u in sets && u != sourceId
        ensures sets[u] != s
      {
        assert sets[u].uuid == u;
      }
    }

    method Add(sourceId: string, transactionId: int) returns (added: bool)
      requires Valid() && Sorted(List(sourceId))
      modifies this, sets.Values
      ensures Valid() && sets.Keys == old(sets.Keys) + {sourceId}
      ensures added <==> !old(Has(sourceId, transactionId))
      ensures List(sourceId) == AddTo(old(List(sourceId)), transactionId)
      ensures forall u :: u != sourceId ==> List(u) == old(List(u))
      ensures servers == if sourceId in old(sets) then old(servers) else old(servers) + [sourceId]
    {
      var s := SetOf(sourceId);
      added := AddKnown(s, sourceId, transactionId);
    }

    /** A server and a transaction number, separated by a colon. */
    static function SplitGtid(gtid: string): Result<(string, int)> {
      var split := SplitOn(gtid, ':');
      if |split| < 2 then Err("ArrayIndexOutOfBoundsException")
      else match ParseLong(split[1])
        case None => Err("NumberFormatException")
        case Some(v) => Ok((split[0], v))
    }

    method AddGtid(gtid: string) returns (r: Result<bool>)
      requires Valid() && (SplitGtid(gtid).Ok? ==> Sorted(List(SplitGtid(gtid).value.0)))
      modifies this, sets.Values
      ensures Valid()
      ensures match SplitGtid(gtid)
              case Err(e) => r == Err(e) && View() == old(View())
              case Ok((u, v)) =>
                && r == Ok(!old(Has(u, v))) && List(u) == AddTo(old(List(u)), v)
                && (forall w :: w != u ==> List(w) == old(List(w))) && sets.Keys == old(sets.Keys) + {u}
                && forall w, x :: Has(w, x) <==> old(Has(w, x)) || (w == u && x == v)
    {
      match SplitGtid(gtid)
      case Err(e) => r := Err(e);
      case Ok((u, v)) =>
        AddToAdds(List(u), v);
        var added := Add(u, v);
        r := Ok(added);
    }

    /** Equal maps: the same servers with equal sets. */
    predicate Equals(that: GtidSet)
      reads this, sets.Values, that, that.sets.Values
    {
      sets.Keys == that.sets.Keys && forall u :: u in sets ==> sets[u].Equals(that.sets[u])
    }

    ghost predicate Contained(that: GtidSet)
      reads this, sets.Values, that, that.sets.Values
    {
      forall u :: u in sets ==> u in that.sets && AllWithin(List(u), that.List(u))
    }

    lemma EqualIsContained(that: GtidSet)
      requires Equals(that)
      ensures Contained(that)
    {
      forall u | u in sets
        ensures AllWithin(List(u), that.List(u))
      {
        assert sets[u].Equals(that.sets[u]);
        forall k | 0 <= k < |List(u)|
          ensures WithinOne(List(u)[k], that.List(u))
        {
          assert Within(List(u)[k], that.List(u)[k]);
        }
      }
    }

    method IsContainedWithin(other: GtidSet?) returns (contained: bool)
      requires Valid() && (other != null ==> other.Valid())
      ensures contained <==> other != null && Contained(other)
    {
      if other == null {
        return false;
      }
      if Equals(other) {
        EqualIsContained(other);
        return true;
      }
      for k := 0 to |servers|
        invariant forall m :: 0 <= m < k ==>
                  servers[m] in other.sets && AllWithin(List(servers[m]), other.List(servers[m]))
      {
        var thisSet := sets[servers[k]];
        var thatSet: UUIDSet? := if servers[k] in other.sets then other.sets[servers[k]] else null;
        var within := thisSet.IsContainedWithin(thatSet);
        if !within {
          return false;
        }
      }
      return true;
    }

    ghost predicate SubsetOf(that: GtidSet)
      reads this, sets.Values, that, that.sets.Values
    {
      forall u, v :: Has(u, v) ==> that.Has(u, v)
    }

    /** Contained means a subset, and against canonical lists nothing else, except that every server must be named. */
    lemma ContainedIsSubset(that: GtidSet)
      requires Valid() && that.Valid() && AllSorted()
      ensures Contained(that) ==> SubsetOf(that)
      ensures that.AllCanonical() ==> (Contained(that) <==> SubsetOf(that) && sets.Keys <= that.sets.Keys)
    {
      if Contained(that) {
        forall u, v | Has(u, v)
          ensures that.Has(u, v)
        {
          WithinIsSubset(List(u), that.List(u));
        }
      }
      if that.AllCanonical() && SubsetOf(that) && sets.Keys <= that.sets.Keys {
        forall u | u in sets
          ensures u in that.sets && AllWithin(List(u), that.List(u))
        {
          assert Subset(List(u), that.List(u)) by {
            assert forall v :: Covers(List(u), v) ==> Has(u, v);
          }
          WithinExact(List(u), that.List(u));
        }
      }
    }

    /** Whatever a set holds for the servers this one names, the check decides whether it is included. */
    ghost predicate DecidesAllSets()
      reads this, sets.Values
    {
      forall a: map<string, seq<Interval>> :: (forall u :: u in a ==> u in sets && Sorted(a[u])) ==> DecidesSet(a)
    }

    ghost predicate DecidesSet(a: map<string, seq<Interval>>)
      reads this, sets.Values
    {
      (forall u :: u in a ==> AllWithin(a[u], List(u))) <==> (forall u :: u in a ==> Subset(a[u], List(u)))
    }

    lemma OneServerDecided(u: string, k: nat)
      requires u in sets && Sorted(List(u)) && !GapAt(List(u), k)
      ensures !DecidesAllSets()
    {
      TouchMissed(List(u), k);
      var a := map[u := Stretch(List(u), k)];
      assert u in a && !DecidesSet(a);
    }

    /** The canonical sets are exactly those against which the check decides inclusion. */
    lemma ExactlyCanonicalSets()
      requires AllSorted()
      ensures AllCanonical() <==> DecidesAllSets()
    {
      if AllCanonical() {
        forall a: map<string, seq<Interval>> | forall u :: u in a ==> u in sets && Sorted(a[u])
          ensures DecidesSet(a)
        {
          forall u | u in a
            ensures AllWithin(a[u], List(u)) <==> Subset(a[u], List(u))
          {
            WithinExact(a[u], List(u));
          }
        }
      } else {
        var u :| u in sets && !Canonical(List(u));
        var k: nat :| !GapAt(List(u), k);
        OneServerDecided(u, k);
      }
    }

    /** Sets read from the texts of a list with a later touch and of the stretch across it: a subset is missed. */
    lemma ParsedMissed(that: GtidSet, u: string, s: seq<Interval>, k: nat)
      requires Valid() && that.Valid() && Printable(Entry(u, s)) && Sorted(s) && k > 0 && !GapAt(s, k)
      requires Parse(OneServer(u, Stretch(s, k))) == Ok(View()) && Parse(OneServer(u, s)) == Ok(that.View())
      ensures SubsetOf(that) && !Contained(that)
    {
      GtidText.ParsedMissed(u, s, k);
      OneView(u, Stretch(s, k));
      that.OneView(u, Adopted(s));
    }

    lemma OneView(u: string, s: seq<Interval>)
      requires Valid() && View() == [Entry(u, s)]
      ensures sets.Keys == {u} && List(u) == s
    {
      assert servers[0] == View()[0].uuid && |servers| == 1;
      assert u in servers;
    }

    lemma EqualLists(that: GtidSet)
      requires Equals(that)
      ensures SubsetOf(that) && that.SubsetOf(this)
    {
      forall u
        ensures List(u) == that.List(u)
      {
        if u in sets {
          assert sets[u].Equals(that.sets[u]);
        }
      }
    }

    /** Canonical sets are equal exactly when they name the same servers and hold the same transactions. */
    lemma EqualIsSameSet(that: GtidSet)
      requires Valid() && that.Valid() && AllCanonical() && that.AllCanonical()
      ensures Equals(that) <==> sets.Keys == that.sets.Keys && SubsetOf(that) && that.SubsetOf(this)
    {
      if Equals(that) {
        EqualLists(that);
      }
      if sets.Keys == that.sets.Keys && SubsetOf(that) && that.SubsetOf(this) {
        forall u | u in sets
          ensures sets[u].Equals(that.sets[u])
        {
          assert forall v :: Covers(List(u), v) <==> Has(u, v);
          assert forall v :: Covers(that.List(u), v) <==> that.Has(u, v);
          CanonicalUnique(List(u), that.List(u));
        }
      }
    }

    /** When no server's set is empty, the transactions determine the servers. */
    lemma NonEmptyServers(that: GtidSet)
      requires SubsetOf(that) && forall u :: u in sets ==> List(u) != [] && Sorted(List(u))
      ensures sets.Keys <= that.sets.Keys
    {
      forall u | u in sets
        ensures u in that.sets
      {
        assert In(List(u)[0], List(u)[0].start);
        assert Has(u, List(u)[0].start);
        assert that.Has(u, List(u)[0].start);
      }
    }
  }
}
