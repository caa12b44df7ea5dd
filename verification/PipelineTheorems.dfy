/** Which files a complete schedule leaves behind, and that every schedule completes. */
module PipelineTheorems {
  import opened Text
  import opened Pipeline
  import opened PipelineSafety

  // ---------- every step, every run ----------

  /** The step executes a statement that opens a file for a table whose rows are still on the way. */
  ghost predicate BadStep(es: seq<Event>, s: State, t: State) {
    RunQuery(es, s, t) && Overtakes(es, s)
  }

  lemma StepKeeps(es: seq<Event>, s: State, t: State)
    requires Inv(es, s) && Step(es, s, t)
    ensures Inv(es, t)
    ensures Declared(es) && Faithful(es, s) && !BadStep(es, s, t) ==> Faithful(es, t)
  {
    if Submit(es, s, t) {
      SubmitStep(es, s, t);
    } else if HandOver(s, t) {
      HandOverStep(es, s, t);
    } else if RunQuery(es, s, t) {
      RunQueryKeeps(es, s, t);
      if Declared(es) && Faithful(es, s) && !BadStep(es, s, t) {
        RunQueryStep(es, s, t);
      }
    } else if TakeBatch(s, t) || EndBatch(s, t) {
      BatchStep(es, s, t);
    } else if WriteOne(es, s, t) {
      WriteOneStep(es, s, t);
    } else {
      QuietStep(es, s, t);
    }
  }

  /** A closed file that differs from the sequential one: nothing can mend it. */
  ghost predicate Broken(es: seq<Event>, s: State, u: Name, n: nat) {
    u in s.files.current && n < s.files.current[u] && TextOf(s.files, u, n) != TextOf(Sequential(es), u, n)
  }

  ghost predicate IsBroken(es: seq<Event>, s: State) {
    exists u, n :: Broken(es, s, u, n)
  }

  lemma BrokenStays(es: seq<Event>, s: State, t: State, u: Name, n: nat)
    requires Step(es, s, t) && Broken(es, s, u, n)
    ensures Broken(es, t, u, n)
  {
  }

  lemma {:induction false} SequentialFrozen(es: seq<Event>, p: nat, u: Name, n: nat)
    requires p <= |es| && u in Sequential(es[..p]).current && n < Sequential(es[..p]).current[u]
    ensures TextOf(Sequential(es), u, n) == TextOf(Sequential(es[..p]), u, n)
    ensures u in Sequential(es).current && n < Sequential(es).current[u]
    decreases |es|
  {
    if p < |es| {
      var front := es[..|es| - 1];
      assert front[..p] == es[..p];
      SequentialFrozen(front, p, u, n);
    } else {
      assert es[..p] == es;
    }
  }

  /** Writing more only lengthens a table's file. */
  lemma {:induction false} WriteAllLonger(es: seq<Event>, f: Files, ids: seq<nat>, u: Name)
    requires AllRows(es, ids) && FilesOk(f) && u in f.current
    ensures u in WriteAll(es, f, ids).current && WriteAll(es, f, ids).current[u] == f.current[u]
    ensures |TextOf(WriteAll(es, f, ids), u, f.current[u])| >= |TextOf(f, u, f.current[u])|
    ensures (exists k :: 0 <= k < |ids| && es[ids[k]].table == u && es[ids[k]].text != "") ==>
              |TextOf(WriteAll(es, f, ids), u, f.current[u])| > |TextOf(f, u, f.current[u])|
    decreases |ids|
  {
    if ids != [] {
      var e := es[ids[0]];
      var g := Write(f, e.table, e.text);
      WriteAllLonger(es, g, ids[1..], u);
      forall k | 1 <= k < |ids| && es[ids[k]].table == u && es[ids[k]].text != ""
        ensures exists j :: 0 <= j < |ids[1..]| && es[ids[1..][j]].table == u && es[ids[1..][j]].text != ""
      {
        assert ids[1..][k - 1] == ids[k];
      }
    }
  }

  lemma OvertakenIsShort(es: seq<Event>, s: State, u: Name)
    requires Declared(es) && Inv(es, s) && Faithful(es, s)
    requires exists i :: i in Pending(s) && i < |es| && es[i].Rows? && es[i].table == u && es[i].text != ""
    ensures u in s.files.current && u in Sequential(es[..s.pos]).current
    ensures s.files.current[u] == Sequential(es[..s.pos]).current[u]
    ensures TextOf(s.files, u, s.files.current[u]) != TextOf(Sequential(es[..s.pos]), u, s.files.current[u])
  {
    var i :| i in Pending(s) && i < |es| && es[i].Rows? && es[i].table == u && es[i].text != "";
    PendingDeclared(es, s, i);
    var k :| 0 <= k < |Pending(s)| && Pending(s)[k] == i;
    WriteAllLonger(es, s.files, Pending(s), u);
  }

  lemma OpenCloses(f: Files, u: Name)
    requires u in f.current
    ensures u in Open(f, u).current && Open(f, u).current[u] == f.current[u] + 1
    ensures TextOf(Open(f, u), u, f.current[u]) == TextOf(f, u, f.current[u])
  {
  }

  /** Two states of a file, both closed by the same statement. */
  lemma CloseDiffers(es: seq<Event>, p: nat, f: Files, u: Name)
    requires p < |es| && es[p].Query? && es[p].ddl == Opens(u) && !Skipped(es[p].query)
    requires u in f.current && u in Sequential(es[..p]).current && f.current[u] == Sequential(es[..p]).current[u]
    requires TextOf(f, u, f.current[u]) != TextOf(Sequential(es[..p]), u, f.current[u])
    ensures var g := Execute(f, es[p]);
      u in g.current && f.current[u] < g.current[u] &&
        TextOf(g, u, f.current[u]) != TextOf(Sequential(es), u, f.current[u])
  {
    var q := Sequential(es[..p]);
    OpenCloses(f, u);
    OpenCloses(q, u);
    SequentialNext(es, p);
    assert Sequential(es[..p + 1]) == Open(q, u);
    SequentialFrozen(es, p + 1, u, f.current[u]);
  }

  lemma BadStepBreaks(es: seq<Event>, s: State, t: State)
    requires Declared(es) && Inv(es, s) && Faithful(es, s) && BadStep(es, s, t)
    ensures IsBroken(es, t)
  {
    var u := es[s.pos].ddl.table;
    OvertakenIsShort(es, s, u);
    CloseDiffers(es, s.pos, s.files, u);
    assert Broken(es, t, u, s.files.current[u]);
  }

  ghost predicate BadAt(es: seq<Event>, run: seq<State>, k: nat)
    requires k + 1 < |run|
  {
    BadStep(es, run[k], run[k + 1])
  }

  /** No step of the run is a bad one. */
  ghost predicate Clear(es: seq<Event>, run: seq<State>) {
    forall k: nat :: k + 1 < |run| ==> !BadAt(es, run, k)
  }

  /** A run grows by one step. */
  lemma Grow(es: seq<Event>, run: seq<State>, t: State)
    requires run != []
    ensures IsRun(es, run + [t]) <==> IsRun(es, run) && Step(es, run[|run| - 1], t)
    ensures Clear(es, run + [t]) <==> Clear(es, run) && !BadStep(es, run[|run| - 1], t)
  {
    var more := run + [t];
    assert StepAt(es, more, |run| - 1) <==> Step(es, run[|run| - 1], t);
    assert BadAt(es, more, |run| - 1) <==> BadStep(es, run[|run| - 1], t);
    forall k: nat | k + 1 < |run|
      ensures StepAt(es, more, k) <==> StepAt(es, run, k)
      ensures BadAt(es, more, k) <==> BadAt(es, run, k)
    {
    }
  }

  lemma Front(es: seq<Event>, run: seq<State>)
    requires IsRun(es, run) && |run| > 1
    ensures IsRun(es, run[..|run| - 1]) && Step(es, run[|run| - 2], run[|run| - 1])
    ensures Clear(es, run) <==> Clear(es, run[..|run| - 1]) && !BadStep(es, run[|run| - 2], run[|run| - 1])
  {
    assert run == run[..|run| - 1] + [run[|run| - 1]];
    Grow(es, run[..|run| - 1], run[|run| - 1]);
  }

  lemma {:induction false} EveryState(es: seq<Event>, run: seq<State>)
    requires IsRun(es, run)
    ensures Inv(es, run[|run| - 1])
    ensures Declared(es) && Clear(es, run) ==> Faithful(es, run[|run| - 1])
    ensures Declared(es) && !Clear(es, run) ==> IsBroken(es, run[|run| - 1])
    decreases |run|
  {
    if |run| == 1 {
      assert es[..0] == [];
    } else {
      var front, s, t := run[..|run| - 1], run[|run| - 2], run[|run| - 1];
      Front(es, run);
      EveryState(es, front);
      StepKeeps(es, s, t);
      if !Declared(es) {
      } else if !Clear(es, front) {
        var u, n :| Broken(es, s, u, n);
        BrokenStays(es, s, t, u, n);
      } else if BadStep(es, s, t) {
        BadStepBreaks(es, s, t);
      }
    }
  }

  /**
   A complete schedule leaves exactly the files of the one-at-a-time reading of the binlog if and only if it
   never executes a statement that opens a table's next file while that table still has text on the way.
   */
  lemma CompleteRun(es: seq<Event>, run: seq<State>)
    requires Declared(es) && IsRun(es, run) && Finished(run)
    ensures run[|run| - 1].files == Sequential(es) <==> Clear(es, run)
  {
    EveryState(es, run);
    var last := run[|run| - 1];
    assert es[..|es|] == es;
    assert Pending(last) == [];
  }

  // ---------- drained statements ----------

  predicate Around(query: string, a: string, word: string, b: string) {
    query == a + word + b
  }

  lemma ContainsMeans(query: string, word: string)
    ensures Contains(query, word) <==> exists a, b :: Around(query, a, word, b)
  {
    if Contains(query, word) {
      var i :| 0 <= i <= |query| && OccursAt(query, word, i);
      assert query == query[..i] + word + query[i..][|word|..];
      assert Around(query, query[..i], word, query[i..][|word|..]);
    }
    if a, b :| Around(query, a, word, b) {
      assert query[|a|..] == word + b;
      assert OccursAt(query, word, |a|);
    }
  }

  /** Everything is drained but the marks of transactions and texts with the word in small or capital letters. */
  lemma DrainedMeans(query: string)
    ensures Drained(query) <==>
            && query != "BEGIN" && query != "COMMIT"
            && (forall a, b :: !Around(query, a, "create", b)) && forall a, b :: !Around(query, a, "CREATE", b)
  {
    ContainsMeans(query, "create");
    ContainsMeans(query, "CREATE");
  }

  /** A drained statement finds nothing on the way. */
  lemma DrainedIsEmpty(es: seq<Event>, s: State, t: State)
    requires Inv(es, s) && RunQuery(es, s, t) && Drained(es[s.pos].query)
    ensures Pending(s) == [] && !Overtakes(es, s)
  {
  }

  /** A statement that is not drained opens a file only for a table the binlog has not opened before. */
  ghost predicate UndrainedAreNew(es: seq<Event>) {
    forall p :: 0 <= p < |es| && es[p].Query? && !Skipped(es[p].query) && !Drained(es[p].query) && es[p].ddl.Opens? ==>
      es[p].ddl.table !in Sequential(es[..p]).current
  }

  lemma NewIsNotOvertaken(es: seq<Event>, s: State, t: State)
    requires Declared(es) && UndrainedAreNew(es) && Inv(es, s) && RunQuery(es, s, t)
    ensures !BadStep(es, s, t)
  {
    if Overtakes(es, s) {
      var i :| i in Pending(s) && i < |es| && es[i].Rows? && es[i].table == es[s.pos].ddl.table;
      PendingDeclared(es, s, i);
      if Drained(es[s.pos].query) {
        DrainedIsEmpty(es, s, t);
      }
    }
  }

  /** Then every complete schedule leaves the sequential files. */
  lemma {:induction false} EveryScheduleIsClear(es: seq<Event>, run: seq<State>)
    requires Declared(es) && UndrainedAreNew(es) && IsRun(es, run)
    ensures Clear(es, run)
    decreases |run|
  {
    if |run| > 1 {
      var s, t := run[|run| - 2], run[|run| - 1];
      Front(es, run);
      EveryScheduleIsClear(es, run[..|run| - 1]);
      EveryState(es, run[..|run| - 1]);
      if RunQuery(es, s, t) {
        NewIsNotOvertaken(es, s, t);
      }
    }
  }

  lemma SafeSchedule(es: seq<Event>, run: seq<State>)
    requires Declared(es) && UndrainedAreNew(es) && IsRun(es, run) && Finished(run)
    ensures run[|run| - 1].files == Sequential(es)
  {
    EveryScheduleIsClear(es, run);
    CompleteRun(es, run);
  }
}
