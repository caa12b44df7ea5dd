/** Which of the rows with one key a table keeps: the newest, of equally new ones source 0's, and of those the last. */
module Newest {
  import opened Text
  import opened Merge
  import opened MergeTheorems
  import opened Schema
  import opened Statements
  import opened SchemaTheorems
  import opened Runs
  import opened KeyChanges
  import opened MergedRuns
  import SubWorker

  /**
   Row r stays where s comes too: its `updated_at` is not earlier; where the two are the same its source has the lower
   number, and where the sources are the same it did not come before s.
   */
  predicate Outlasts(upd: int, r: Record, s: Record) {
    && !Less(At(r, upd), At(s, upd))
    && (At(r, upd) == At(s, upd) ==> r.source <= s.source && (r.source == s.source ==> r.stamp >= s.stamp))
  }

  /** L has, of every key in S, the row of S that outlasts all others with the key. */
  ghost predicate KeepsNewest(rule: Rule, S: set<Record>, L: set<Record>) {
    && L <= S
    && (forall r, s :: r in L && s in S && rule.Hash(s) == rule.Hash(r) ==> Outlasts(rule.upd, r, s))
    && (forall s :: s in S ==> exists r :: r in L && rule.Hash(r) == rule.Hash(s))
    && (forall q, r :: q in L && r in L && rule.Hash(q) == rule.Hash(r) ==> q == r)
  }

  lemma UnbeatenOutlasts(rule: Rule, r: Record, s: Record)
    requires !rule.Beats(s, r)
    ensures Outlasts(rule.upd, r, s)
  {
    LessIrreflexive(At(r, rule.upd));
  }

  lemma MaximaAreNewest(rule: Rule, S: set<Record>)
    requires Coherent(S)
    ensures KeepsNewest(rule, S, Maxima(rule, S))
  {
    AllOutlast(rule, S);
    EachKeyStays(rule, S);
    OnePerKey(rule, S);
  }

  lemma AllOutlast(rule: Rule, S: set<Record>)
    ensures Maxima(rule, S) <= S
    ensures forall r, s :: r in Maxima(rule, S) && s in S && rule.Hash(s) == rule.Hash(r) ==> Outlasts(rule.upd, r, s)
  {
    forall r, s | r in Maxima(rule, S) && s in S && rule.Hash(s) == rule.Hash(r)
      ensures Outlasts(rule.upd, r, s)
    {
      UnbeatenOutlasts(rule, r, s);
    }
  }

  lemma OnePerKey(rule: Rule, S: set<Record>)
    requires Coherent(S)
    ensures forall q, r :: q in Maxima(rule, S) && r in Maxima(rule, S) && rule.Hash(q) == rule.Hash(r) ==> q == r
  {
    forall q, r | q in Maxima(rule, S) && r in Maxima(rule, S) && rule.Hash(q) == rule.Hash(r)
      ensures q == r
    {
      MaximumUnique(rule, S, q, r);
    }
  }

  lemma EachKeyStays(rule: Rule, S: set<Record>)
    ensures forall s :: s in S ==> exists r :: r in Maxima(rule, S) && rule.Hash(r) == rule.Hash(s)
  {
    forall s | s in S
      ensures exists r :: r in Maxima(rule, S) && rule.Hash(r) == rule.Hash(s)
    {
      var r := MaximumExists(rule, S, s);
    }
  }

  /** After a batch of rows. */
  lemma InsertNewest(rule: Rule, slots: Slots, rs: seq<Record>)
    requires OneEach(rule, slots) && Coherent(Live(slots) + ToSet(rs))
    ensures KeepsNewest(rule, Live(slots) + ToSet(rs), Live(InsertAll(rule, slots, rs)))
  {
    InsertAllIsMaxima(rule, slots, rs);
    MaximaAreNewest(rule, Live(slots) + ToSet(rs));
  }

  /** After a rebuild. */
  lemma ReindexNewest(rule: Rule, slots: Slots)
    requires Coherent(Live(slots))
    ensures KeepsNewest(rule, Live(slots), Live(Reindex(rule, slots)))
  {
    ReindexIsMaxima(rule, slots);
    MaximaAreNewest(rule, Live(slots));
  }

  /** The same of rows with the same values in the columns of the table's key. */
  ghost predicate TableKeepsNewest(t: Table, S: set<Record>) {
    && |t.indexs| == 1 && t.upd.Some? && Live(t.slots) <= S
    && (forall r, s :: r in Live(t.slots) && s in S && SameKey(t, r, s) ==> Outlasts(t.upd.value, r, s))
    && (forall s :: s in S ==> exists r :: r in Live(t.slots) && SameKey(t, r, s))
    && (forall q, r :: q in Live(t.slots) && r in Live(t.slots) && SameKey(t, q, r) ==> q == r)
  }

  predicate SameKey(t: Table, r: Record, s: Record)
    requires |t.indexs| == 1
  {
    forall j :: 0 <= j < |t.indexs[0].cols| ==> At(r, t.indexs[0].cols[j]) == At(s, t.indexs[0].cols[j])
  }

  lemma SameKeyHash(t: Table, r: Record, s: Record)
    requires |t.indexs| == 1 && t.upd.Some? && Injective(t.hash)
    ensures SameKey(t, r, s) <==> t.RuleOf(t.indexs[0]).Hash(r) == t.RuleOf(t.indexs[0]).Hash(s)
  {
    var key := t.indexs[0].cols;
    if SameKey(t, r, s) {
      assert KeyAt(key, r) == KeyAt(key, s);
    } else {
      var j :| 0 <= j < |key| && At(r, key[j]) != At(s, key[j]);
      assert KeyAt(key, r)[j] != KeyAt(key, s)[j];
    }
  }

  lemma MergedNewest(t: Table, S: set<Record>)
    requires Merged(t, S) && Coherent(S) && Injective(t.hash)
    ensures TableKeepsNewest(t, S)
  {
    var rule := t.RuleOf(t.indexs[0]);
    MaximaAreNewest(rule, S);
    forall r, s
      ensures SameKey(t, r, s) <==> rule.Hash(r) == rule.Hash(s)
    {
      SameKeyHash(t, r, s);
    }
  }

  /** After a run, of all rows that were live at state k or have been delivered since, while nothing was parted. */
  lemma RunNewest(hash: seq<string> -> int, stages: seq<Stage>, k: nat)
    requires stages != [] && k <= |stages| && RunFits(hash, stages) && IdsApart(stages) && Injective(hash)
    requires Run(hash, stages).Ok? && NothingParted(hash, stages, k)
    ensures TableKeepsNewest(Run(hash, stages).value, Carried(hash, stages, k))
  {
    MergedSince(hash, stages, k);
    CarriedNames(hash, stages, k);
    RunHash(hash, stages);
    MergedNewest(Run(hash, stages).value, Carried(hash, stages, k));
  }

  /** And so after the states of a worker, of all lines of both sources. */
  lemma WorkerNewest(hash: seq<string> -> int, inputs: seq<SubWorker.TwoFiles>, k: nat)
    requires inputs != [] && SubWorker.InputsFit(hash, inputs) && SubWorker.States(hash, inputs).Ok? && Injective(hash)
    requires k <= |inputs|
    requires RunFits(hash, SubWorker.Stages(hash, inputs)) && Run(hash, SubWorker.Stages(hash, inputs)).Ok?
    requires NothingParted(hash, SubWorker.Stages(hash, inputs), k)
    ensures TableKeepsNewest(SubWorker.States(hash, inputs).value, Carried(hash, SubWorker.Stages(hash, inputs), k))
  {
    SubWorker.StatesAreRun(hash, inputs);
    SubWorker.StagesApart(hash, inputs);
    RunNewest(hash, SubWorker.Stages(hash, inputs), k);
  }
}
