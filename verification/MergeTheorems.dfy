/** What the merge computes, whatever the order in which it is fed. */
module MergeTheorems {
  import opened Text
  import opened Merge

  // ---------- the ranking is a strict order, total on distinct (source, stamp) pairs ----------

  lemma BeatsIrreflexive(rule: Rule, a: Record)
    ensures !rule.Beats(a, a)
  {
  }

  lemma BeatsTransitive(rule: Rule, a: Record, b: Record, c: Record)
    requires rule.Beats(a, b) && rule.Beats(b, c)
    ensures rule.Beats(a, c)
  {
    var x, y, z := At(a, rule.upd), At(b, rule.upd), At(c, rule.upd);
    if z != y && y != x {
      LessTransitive(z, y, x);
      LessIrreflexive(x);
      if z == x {
        LessTransitive(z, y, z);
      }
    }
  }

  lemma BeatsTotal(rule: Rule, a: Record, b: Record)
    requires a.source != b.source || a.stamp != b.stamp
    ensures rule.Beats(a, b) || rule.Beats(b, a)
    ensures !(rule.Beats(a, b) && rule.Beats(b, a))
  {
    LessTotal(At(a, rule.upd), At(b, rule.upd));
    if rule.Beats(a, b) && rule.Beats(b, a) {
      BeatsTransitive(rule, a, b, a);
      BeatsIrreflexive(rule, a);
      LessIrreflexive(At(a, rule.upd));
    }
  }

  // ---------- maxima ----------

  /** Every row of S is kept or beaten by a kept row with the same key. */
  lemma {:induction false} MaximumExists(rule: Rule, S: set<Record>, s: Record) returns (m: Record)
    requires s in S
    ensures m in Maxima(rule, S) && rule.Hash(m) == rule.Hash(s)
    ensures m == s || rule.Beats(m, s)
    decreases S
  {
    if Unbeaten(rule, S, s) {
      m := s;
    } else {
      var t :| t in S && rule.Hash(t) == rule.Hash(s) && rule.Beats(t, s);
      BeatsIrreflexive(rule, s);
      m := MaximumExists(rule, S - {s}, t);
      if m != t {
        BeatsTransitive(rule, m, t, s);
      }
      if rule.Beats(s, m) {
        BeatsTransitive(rule, s, m, s);
      }
    }
  }

  lemma MaximumUnique(rule: Rule, S: set<Record>, a: Record, b: Record)
    requires Coherent(S) && a in Maxima(rule, S) && b in Maxima(rule, S) && rule.Hash(a) == rule.Hash(b)
    ensures a == b
  {
    if a != b {
      BeatsTotal(rule, a, b);
    }
  }

  /** Rows that agree under `fine` agree under `coarse`, and both rank rows alike. */
  ghost predicate Refines(fine: Rule, coarse: Rule, S: set<Record>) {
    && fine.upd == coarse.upd
    && forall a, b :: a in S && b in S && fine.Hash(a) == fine.Hash(b) ==> coarse.Hash(a) == coarse.Hash(b)
  }

  /** Merging part of the rows early, under a finer key, never changes the outcome. */
  lemma MergeEarly(fine: Rule, coarse: Rule, S: set<Record>, T: set<Record>)
    requires Refines(fine, coarse, S)
    ensures Maxima(coarse, Maxima(fine, S) + T) == Maxima(coarse, S + T)
  {
    var M := Maxima(fine, S);
    forall r | r in M + T && Unbeaten(coarse, M + T, r)
      ensures Unbeaten(coarse, S + T, r)
    {
      forall s | s in S + T && coarse.Hash(s) == coarse.Hash(r)
        ensures !coarse.Beats(s, r)
      {
        if s in S {
          var m := MaximumExists(fine, S, s);
          assert m in M + T;
          if m != s && coarse.Beats(s, r) {
            BeatsTransitive(coarse, m, s, r);
          }
        }
      }
    }
    forall r | r in S && Unbeaten(coarse, S + T, r)
      ensures r in M
    {
      forall s | s in S && fine.Hash(s) == fine.Hash(r)
        ensures !fine.Beats(s, r)
      {
        assert s in S + T;
      }
    }
  }

  // ---------- inserting ----------

  lemma LiveAppend(slots: Slots, s: Option<Record>)
    ensures Live(slots + [s]) == Live(slots) + (if s.Some? then {s.value} else {})
  {
    var after := slots + [s];
    forall r | r in Live(slots)
      ensures r in Live(after)
    {
      var i :| 0 <= i < |slots| && slots[i].Some? && slots[i].value == r;
      assert after[i] == slots[i];
    }
    if s.Some? {
      assert after[|slots|] == s;
    }
  }

  /** A slot that changes hands: nothing else moves. */
  lemma LiveContest(rule: Rule, slots: Slots, i: nat, r: Record)
    requires i < |slots| && slots[i].Some? && rule.Hash(slots[i].value) == rule.Hash(r)
    requires OneEach(rule, slots) && Coherent(Live(slots) + {r})
    ensures Live(Contest(rule, slots, i, r)) == Maxima(rule, Live(slots) + {r})
    ensures OneEach(rule, Contest(rule, slots, i, r))
  {
    var old_ := slots[i].value;
    var after := Contest(rule, slots, i, r);
    var S := Live(slots) + {r};
    assert old_ in S;
    if old_ != r {
      BeatsTotal(rule, r, old_);
    }
    BeatsIrreflexive(rule, r);
    forall j | 0 <= j < |slots| && slots[j].Some? && j != i
      ensures slots[j].value in Maxima(rule, S) && slots[j].value in Live(after)
    {
      assert after[j] == slots[j];
      assert slots[j].value in S;
      BeatsIrreflexive(rule, slots[j].value);
    }
    assert after[i].value in Live(after);
    assert after[i].value in Maxima(rule, S);
    forall m | m in Maxima(rule, S)
      ensures m in Live(after)
    {
      if rule.Hash(m) == rule.Hash(r) {
        MaximumUnique(rule, S, m, after[i].value);
      }
    }
  }

  lemma LiveInsert(rule: Rule, slots: Slots, r: Record)
    requires OneEach(rule, slots) && Coherent(Live(slots) + {r})
    ensures OneEach(rule, Insert(rule, slots, r))
    ensures Live(Insert(rule, slots, r)) == Maxima(rule, Live(slots) + {r})
  {
    match Find(rule, slots, rule.Hash(r))
    case Some(i) => LiveContest(rule, slots, i, r);
    case None =>
      LiveAppend(slots, Some(r));
      forall a | a in Live(slots) + {r}
        ensures a in Maxima(rule, Live(slots) + {r})
      {
        BeatsIrreflexive(rule, a);
      }
  }

  lemma LiveIsMaxima(rule: Rule, slots: Slots)
    requires OneEach(rule, slots)
    ensures Maxima(rule, Live(slots)) == Live(slots)
  {
    forall a | a in Live(slots)
      ensures a in Maxima(rule, Live(slots))
    {
      BeatsIrreflexive(rule, a);
    }
  }

  /** The live rows after any batch are the per-key maxima of everything stored and everything offered. */
  lemma {:induction false} InsertAllIsMaxima(rule: Rule, slots: Slots, rs: seq<Record>)
    requires OneEach(rule, slots) && Coherent(Live(slots) + ToSet(rs))
    ensures OneEach(rule, InsertAll(rule, slots, rs))
    ensures Live(InsertAll(rule, slots, rs)) == Maxima(rule, Live(slots) + ToSet(rs))
    decreases |rs|
  {
    if rs == [] {
      LiveIsMaxima(rule, slots);
      assert Live(slots) + ToSet(rs) == Live(slots);
    } else {
      var init, last := rs[..|rs| - 1], rs[|rs| - 1];
      assert forall i :: 0 <= i < |init| ==> init[i] == rs[i];
      assert last in ToSet(rs);
      var S := Live(slots) + ToSet(init);
      assert S + {last} == Live(slots) + ToSet(rs) by {
        forall x | x in ToSet(rs) ensures x in ToSet(init) + {last} {
          var i :| 0 <= i < |rs| && rs[i] == x;
          if i < |init| { assert init[i] == x; }
        }
      }
      InsertAllIsMaxima(rule, slots, init);
      var mid := InsertAll(rule, slots, init);
      assert Live(mid) + {last} <= S + {last};
      LiveInsert(rule, mid, last);
      MergeEarly(rule, rule, S, {last});
    }
  }

  /** Only which rows were offered matters: not their order, nor how often one is offered again. */
  lemma InsertOrderIrrelevant(rule: Rule, a: Slots, b: Slots, rs: seq<Record>, qs: seq<Record>)
    requires OneEach(rule, a) && OneEach(rule, b) && Live(a) == Live(b) && ToSet(rs) == ToSet(qs)
    requires Coherent(Live(a) + ToSet(rs))
    ensures Live(InsertAll(rule, a, rs)) == Live(InsertAll(rule, b, qs))
  {
    InsertAllIsMaxima(rule, a, rs);
    InsertAllIsMaxima(rule, b, qs);
  }

  // ---------- re-indexing ----------

  /** The live rows after re-indexing are the per-key maxima of the live rows before. */
  lemma {:induction false} ReindexIsMaxima(rule: Rule, slots: Slots)
    requires Coherent(Live(slots))
    ensures OneEach(rule, Reindex(rule, slots))
    ensures Live(Reindex(rule, slots)) == Maxima(rule, Live(slots))
    decreases |slots|
  {
    if slots != [] {
      var n := |slots| - 1;
      var init, last := slots[..n], slots[n];
      assert slots == init + [last];
      LiveAppend(init, last);
      ReindexIsMaxima(rule, init);
      var done := Reindex(rule, init);
      if last.None? {
        LiveAppend(done, None);
      } else {
        var r := last.value;
        assert Coherent(Live(done) + {r});
        LiveInsert(rule, done, r);
        MergeEarly(rule, rule, Live(init), {r});
        match Find(rule, done, rule.Hash(r))
        case None =>
        case Some(i) => LiveAppend(Contest(rule, done, i, r), None);
      }
    }
  }

  /** A row survives in a slot exactly when that slot is the first to hold its key. */
  lemma {:induction false} SlotKept(rule: Rule, slots: Slots, k: nat)
    requires k < |slots|
    ensures Reindex(rule, slots)[k].Some? <==>
              slots[k].Some? && Find(rule, slots, rule.Hash(slots[k].value)) == Some(k)
    ensures Reindex(rule, slots)[k].Some? ==>
              rule.Hash(Reindex(rule, slots)[k].value) == rule.Hash(slots[k].value)
    decreases |slots|
  {
    var n := |slots| - 1;
    var done := Reindex(rule, slots[..n]);
    if k < n {
      SlotKept(rule, slots[..n], k);
    } else if slots[n].Some? {
      var h := rule.Hash(slots[n].value);
      match Find(rule, done, h)
      case Some(i) => SlotKept(rule, slots[..n], i);
      case None =>
        match Find(rule, slots[..n], h)
        case None =>
        case Some(i) => SlotKept(rule, slots[..n], i);
    }
  }

  /** And it is the one row with that key that no other beats. */
  lemma ReindexSlot(rule: Rule, slots: Slots, k: nat)
    requires k < |slots| && Coherent(Live(slots))
    ensures Reindex(rule, slots)[k].Some? <==>
              slots[k].Some? && Find(rule, slots, rule.Hash(slots[k].value)) == Some(k)
    ensures Reindex(rule, slots)[k].Some? ==>
              var r := Reindex(rule, slots)[k].value;
              && rule.Hash(r) == rule.Hash(slots[k].value) && r in Maxima(rule, Live(slots))
              && forall m :: m in Maxima(rule, Live(slots)) && rule.Hash(m) == rule.Hash(r) ==> m == r
  {
    SlotKept(rule, slots, k);
    ReindexIsMaxima(rule, slots);
    if Reindex(rule, slots)[k].Some? {
      var r := Reindex(rule, slots)[k].value;
      assert r in Live(Reindex(rule, slots));
      forall m | m in Maxima(rule, Live(slots)) && rule.Hash(m) == rule.Hash(r)
        ensures m == r
      {
        MaximumUnique(rule, Live(slots), m, r);
      }
    }
  }

  /** Re-indexing under a key that still tells all live rows apart changes nothing: no row is lost. */
  lemma {:induction false} ReindexKeepsAll(rule: Rule, slots: Slots)
    requires OneEach(rule, slots)
    ensures Reindex(rule, slots) == slots
    decreases |slots|
  {
    if slots != [] {
      var n := |slots| - 1;
      ReindexKeepsAll(rule, slots[..n]);
    }
  }

  // ---------- rows seen through a change of layout ----------

  function MapSlots(f: Record -> Record, slots: Slots): (s: Slots)
    ensures |s| == |slots|
    ensures forall i :: 0 <= i < |slots| ==> s[i].Some? == slots[i].Some?
    ensures forall i :: 0 <= i < |slots| && slots[i].Some? ==> s[i] == Some(f(slots[i].value))
  {
    seq(|slots|, i requires 0 <= i < |slots| => if slots[i].None? then None else Some(f(slots[i].value)))
  }

  function MapAll(f: Record -> Record, rs: seq<Record>): (s: seq<Record>)
    ensures |s| == |rs| && forall i :: 0 <= i < |rs| ==> s[i] == f(rs[i])
  {
    seq(|rs|, i requires 0 <= i < |rs| => f(rs[i]))
  }

  /** Through f, `there` identifies and ranks rows as `here` does. */
  ghost predicate SameRule(f: Record -> Record, here: Rule, there: Rule, r: Record) {
    && here.hash == there.hash
    && |here.key| == |there.key|
    && (forall i :: 0 <= i < |here.key| ==> At(f(r), there.key[i]) == At(r, here.key[i]))
    && At(f(r), there.upd) == At(r, here.upd)
    && f(r).source == r.source && f(r).stamp == r.stamp
  }

  lemma SameHash(f: Record -> Record, here: Rule, there: Rule, r: Record)
    requires SameRule(f, here, there, r)
    ensures there.Hash(f(r)) == here.Hash(r)
  {
    assert KeyAt(there.key, f(r)) == KeyAt(here.key, r);
  }

  ghost predicate SameRules(f: Record -> Record, here: Rule, there: Rule, slots: Slots) {
    forall i :: 0 <= i < |slots| && slots[i].Some? ==> SameRule(f, here, there, slots[i].value)
  }

  lemma {:induction false} MapFind(f: Record -> Record, here: Rule, there: Rule, slots: Slots, h: int)
    requires SameRules(f, here, there, slots)
    ensures Find(there, MapSlots(f, slots), h) == Find(here, slots, h)
    decreases |slots|
  {
    if slots != [] {
      var n := |slots| - 1;
      MapFind(f, here, there, slots[..n], h);
      assert MapSlots(f, slots)[..n] == MapSlots(f, slots[..n]);
      if slots[n].Some? {
        SameHash(f, here, there, slots[n].value);
      }
    }
  }

  lemma MapInsert(f: Record -> Record, here: Rule, there: Rule, slots: Slots, r: Record)
    requires SameRules(f, here, there, slots) && SameRule(f, here, there, r)
    ensures MapSlots(f, Insert(here, slots, r)) == Insert(there, MapSlots(f, slots), f(r))
    ensures SameRules(f, here, there, Insert(here, slots, r))
  {
    SameHash(f, here, there, r);
    MapFind(f, here, there, slots, here.Hash(r));
  }

  lemma {:induction false} MapInsertAll(f: Record -> Record, here: Rule, there: Rule, slots: Slots, rs: seq<Record>)
    requires SameRules(f, here, there, slots) && forall i :: 0 <= i < |rs| ==> SameRule(f, here, there, rs[i])
    ensures MapSlots(f, InsertAll(here, slots, rs)) == InsertAll(there, MapSlots(f, slots), MapAll(f, rs))
    ensures SameRules(f, here, there, InsertAll(here, slots, rs))
    decreases |rs|
  {
    if rs != [] {
      var n := |rs| - 1;
      MapInsertAll(f, here, there, slots, rs[..n]);
      assert MapAll(f, rs)[..n] == MapAll(f, rs[..n]);
      MapInsert(f, here, there, InsertAll(here, slots, rs[..n]), rs[n]);
    }
  }

  lemma MapAbsorb(f: Record -> Record, here: Rule, there: Rule, done: Slots, r: Record)
    requires SameRules(f, here, there, done) && SameRule(f, here, there, r)
    ensures MapSlots(f, Absorb(here, done, r)) == Absorb(there, MapSlots(f, done), f(r))
    ensures SameRules(f, here, there, Absorb(here, done, r))
  {
    SameHash(f, here, there, r);
    MapFind(f, here, there, done, here.Hash(r));
  }

  lemma {:induction false} MapReindex(f: Record -> Record, here: Rule, there: Rule, slots: Slots)
    requires SameRules(f, here, there, slots)
    ensures MapSlots(f, Reindex(here, slots)) == Reindex(there, MapSlots(f, slots))
    ensures SameRules(f, here, there, Reindex(here, slots))
    decreases |slots|
  {
    if slots != [] {
      var n := |slots| - 1;
      MapReindex(f, here, there, slots[..n]);
      assert MapSlots(f, slots)[..n] == MapSlots(f, slots[..n]);
      if slots[n].Some? {
        MapAbsorb(f, here, there, Reindex(here, slots[..n]), slots[n].value);
      }
    }
  }
}
