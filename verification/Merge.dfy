/**
 The last-writer-wins merge on plain values. A table is a sequence of slots, some of them empty; two
 rows meet when their key columns hash alike. The searches here are linear: the hash index of the
 table classes is proved to compute the same thing.
 */
module Merge {
  import opened Text

  datatype Record = Record(vals: seq<string>, source: int, stamp: int)

  type Slots = seq<Option<Record>>

  /** The value in column p; rows are always as wide as the columns that are read. */
  function At(r: Record, p: int): string {
    if 0 <= p < |r.vals| then r.vals[p] else ""
  }

  /** The values of the given columns. */
  function KeyAt(key: seq<int>, r: Record): (k: seq<string>)
    ensures |k| == |key| && forall i :: 0 <= i < |key| ==> k[i] == At(r, key[i])
  {
    seq(|key|, i requires 0 <= i < |key| => At(r, key[i]))
  }

  /** How rows are identified and ranked: key columns, hash of their values, column of `updated_at`. */
  datatype Rule = Rule(hash: seq<string> -> int, key: seq<int>, upd: int) {

    function Hash(r: Record): int {
      hash(KeyAt(key, r))
    }

    /** Does row `a`, arriving when `b` is stored, replace it? */
    predicate Beats(a: Record, b: Record) {
      if At(b, upd) == At(a, upd) then
        a.source < b.source || (a.source == b.source && a.stamp > b.stamp)
      else
        Less(At(b, upd), At(a, upd))
    }
  }

  // ---------- one slot per hash value ----------

  /** The first slot whose row hashes to h. */
  function Find(rule: Rule, slots: Slots, h: int): (i: Option<nat>)
    ensures i.Some? ==> i.value < |slots| && slots[i.value].Some? && rule.Hash(slots[i.value].value) == h
    ensures i.Some? ==> forall j :: 0 <= j < i.value && slots[j].Some? ==> rule.Hash(slots[j].value) != h
    ensures i.None? ==> forall j :: 0 <= j < |slots| && slots[j].Some? ==> rule.Hash(slots[j].value) != h
  {
    if slots == [] then None
    else
      var n := |slots| - 1;
      match Find(rule, slots[..n], h)
      case Some(i) => Some(i)
      case None => if slots[n].Some? && rule.Hash(slots[n].value) == h then Some(n) else None
  }

  ghost predicate OneEach(rule: Rule, slots: Slots) {
    forall i, j :: 0 <= i < j < |slots| && slots[i].Some? && slots[j].Some? ==>
      rule.Hash(slots[i].value) != rule.Hash(slots[j].value)
  }

  /** The row r contests slot i. */
  function Contest(rule: Rule, slots: Slots, i: nat, r: Record): (s: Slots)
    requires i < |slots| && slots[i].Some?
  {
    if rule.Beats(r, slots[i].value) then slots[i := Some(r)] else slots
  }

  function Insert(rule: Rule, slots: Slots, r: Record): Slots {
    match Find(rule, slots, rule.Hash(r))
    case None => slots + [Some(r)]
    case Some(i) => Contest(rule, slots, i, r)
  }

  function InsertAll(rule: Rule, slots: Slots, rs: seq<Record>): Slots {
    if rs == [] then slots
    else Insert(rule, InsertAll(rule, slots, rs[..|rs| - 1]), rs[|rs| - 1])
  }

  /** The row r meets the slots before it, and leaves its own slot empty if its key is already held. */
  function Absorb(rule: Rule, done: Slots, r: Record): (s: Slots)
    ensures |s| == |done| + 1
  {
    match Find(rule, done, rule.Hash(r))
    case None => done + [Some(r)]
    case Some(i) => Contest(rule, done, i, r) + [None]
  }

  /** One pass over the slots under a new rule; a row that is merged elsewhere leaves its slot empty. */
  function Reindex(rule: Rule, slots: Slots): (s: Slots)
    ensures |s| == |slots|
  {
    if slots == [] then []
    else
      var n := |slots| - 1;
      var done := Reindex(rule, slots[..n]);
      if slots[n].None? then done + [None] else Absorb(rule, done, slots[n].value)
  }

  lemma ReindexStep(rule: Rule, slots: Slots, i: nat)
    requires i < |slots|
    ensures Reindex(rule, slots[..i + 1]) ==
              var done := Reindex(rule, slots[..i]);
              if slots[i].None? then done + [None] else Absorb(rule, done, slots[i].value)
  {
    assert slots[..i + 1][..i] == slots[..i];
  }

  // ---------- contents as a set ----------

  function Live(slots: Slots): set<Record> {
    set i | 0 <= i < |slots| && slots[i].Some? :: slots[i].value
  }

  function ToSet(rs: seq<Record>): set<Record> {
    set i | 0 <= i < |rs| :: rs[i]
  }

  /** A (source, stamp) pair names one row. */
  ghost predicate Coherent(S: set<Record>) {
    forall a, b :: a in S && b in S && a.source == b.source && a.stamp == b.stamp ==> a == b
  }

  ghost predicate Unbeaten(rule: Rule, S: set<Record>, r: Record) {
    forall s :: s in S && rule.Hash(s) == rule.Hash(r) ==> !rule.Beats(s, r)
  }

  /** The rows of S that no row of S with the same key beats. */
  ghost function Maxima(rule: Rule, S: set<Record>): set<Record> {
    set r | r in S && Unbeaten(rule, S, r)
  }
}
