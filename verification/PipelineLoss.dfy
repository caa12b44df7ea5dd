/**
 Binlogs with a row event before the statement that opens its table. The write-back worker has no writer for such a
 row, and the rest of its batch dies with it.
 */
module PipelineLoss {
  import opened Text
  import opened Pipeline
  import opened PipelineSafety
  import opened PipelineTheorems
  import opened PipelineProgress
  import opened PipelineExact

  // ---------- the batches of a binlog ----------

  /** The unfinished batch after the events. */
  function Batch(es: seq<Event>): seq<nat> {
    if es == [] then []
    else
      var front, e := es[..|es| - 1], es[|es| - 1];
      if e.Rows? then (if |Batch(front)| + 1 >= BATCH then [] else Batch(front) + [|front|])
      else if Drained(e.query) then [] else Batch(front)
  }

  predicate Emptied(es: seq<Event>, q: nat) {
    q == |es| || (q < |es| && es[q].Query? && Drained(es[q].query))
  }

  /** The batch b is handed over when the main thread is at event q: full, before a drained statement, or at the end. */
  predicate HandedAt(es: seq<Event>, b: seq<nat>, q: nat)
    requires q <= |es|
  {
    || (q > 0 && es[q - 1].Rows? && |Batch(es[..q - 1])| + 1 >= BATCH && b == Batch(es[..q - 1]) + [q - 1])
    || (Emptied(es, q) && b == Batch(es[..q]))
  }

  ghost predicate Handed(es: seq<Event>, b: seq<nat>, p: nat) {
    exists q :: 0 <= q <= p && q <= |es| && HandedAt(es, b, q)
  }

  lemma BatchNext(es: seq<Event>, p: nat)
    requires p < |es|
    ensures Batch(es[..p + 1]) ==
            if es[p].Rows? then (if |Batch(es[..p])| + 1 >= BATCH then [] else Batch(es[..p]) + [p])
            else if Drained(es[p].query) then [] else Batch(es[..p])
  {
    assert es[..p + 1][..p] == es[..p];
  }

  lemma {:induction false} BatchSmall(es: seq<Event>)
    ensures |Batch(es)| < 40
    decreases |es|
  {
    if es != [] {
      BatchSmall(es[..|es| - 1]);
    }
  }

  /** A batch has 40 rows, but for those that a drained statement or the end of the binlog calls for. */
  lemma BatchSizes(es: seq<Event>, b: seq<nat>, q: nat)
    requires q <= |es| && HandedAt(es, b, q)
    ensures |b| == 40 || (|b| < 40 && Emptied(es, q))
  {
    if q > 0 {
      BatchSmall(es[..q - 1]);
    }
    BatchSmall(es[..q]);
  }

  /** A drained statement has been met. */
  ghost predicate Drains(es: seq<Event>, pos: nat) {
    exists p :: 0 <= p <= pos && p < |es| && es[p].Query? && Drained(es[p].query)
  }

  ghost predicate Room(es: seq<Event>, s: State) {
    s.queueSize == 40 || (s.queueSize == 20 && Drains(es, s.pos))
  }

  lemma RoomKept(es: seq<Event>, s: State, t: State)
    requires Inv(es, s) && Step(es, s, t) && Room(es, s)
    ensures Room(es, t)
  {
    if AwaitParse(s, t) {
      assert s.pc.DrainParse? ==> es[s.pos].Query? && Drained(es[s.pos].query);
    } else {
      assert t.queueSize == s.queueSize && s.pos <= t.pos;
    }
  }

  lemma {:induction false} RunRoom(es: seq<Event>, run: seq<State>)
    requires IsRun(es, run)
    ensures Room(es, run[|run| - 1])
    decreases |run|
  {
    if |run| > 1 {
      Front(es, run);
      RunRoom(es, run[..|run| - 1]);
      EveryState(es, run[..|run| - 1]);
      RoomKept(es, run[|run| - 2], run[|run| - 1]);
    }
  }

  /** Nobody has more than this on hand: 40 rows to parse, 20 after the first drained statement, and 2 batches. */
  lemma OnHand(es: seq<Event>, run: seq<State>)
    requires IsRun(es, run)
    ensures var s := run[|run| - 1];
            && (|s.queue| <= 20 || (|s.queue| <= 40 && s.queueSize == 40))
            && (s.queueSize == 40 || (s.queueSize == 20 && Drains(es, s.pos)))
            && |s.running| <= 4 && |s.backQueue| <= 2
  {
    EveryState(es, run);
    RunRoom(es, run);
  }

  /** While there is less on hand, one more is taken. */
  lemma TakesMore(es: seq<Event>, run: seq<State>)
    requires IsRun(es, run)
    ensures var s := run[|run| - 1];
            && (AtRows(es, s) && (|s.queue| < 20 || (!Drains(es, s.pos) && |s.queue| < 40)) ==>
                  exists t :: Submit(es, s, t))
            && (s.queue != [] && |s.running| < 4 ==> exists t :: Take(s, t))
            && ((s.pc.Flush? || s.pc.DrainFlush? || s.pc.LastFlush?) && |s.backQueue| < 2 ==>
                  exists t :: HandOver(s, t))
  {
    var s := run[|run| - 1];
    RunRoom(es, run);
    if AtRows(es, s) && (|s.queue| < 20 || (!Drains(es, s.pos) && |s.queue| < 40)) {
      var t := s.(pos := s.pos + 1, queue := s.queue + [s.pos], batch := s.batch + [s.pos],
               pc := if |s.batch| + 1 >= BATCH then Flush else Ready);
      assert Submit(es, s, t);
    }
    if s.queue != [] && |s.running| < 4 {
      assert Take(s, s.(queue := s.queue[1..], running := s.running + {s.queue[0]}));
    }
    if (s.pc.Flush? || s.pc.DrainFlush? || s.pc.LastFlush?) && |s.backQueue| < 2 {
      var t := s.(batch := [], backQueue := s.backQueue + [s.batch],
               pc := if s.pc == Flush then Ready else if s.pc == DrainFlush then DrainParse else LastParse);
      assert HandOver(s, t);
    }
  }

  // ---------- losing a row ----------

  /** The worker gives up a batch at a row without a writer, and row j is that row or behind it. */
  ghost predicate Loses(es: seq<Event>, s: State, t: State, j: nat) {
    && WriteOne(es, s, t) && es[s.backBatch.value[0]].table !in s.files.current && j in s.backBatch.value
  }

  ghost predicate LosesAt(es: seq<Event>, run: seq<State>, k: nat, j: nat) {
    k + 1 < |run| && Loses(es, run[k], run[k + 1], j)
  }

  ghost predicate CanLose(es: seq<Event>, j: nat) {
    exists run, k :: IsRun(es, run) && Finished(run) && LosesAt(es, run, k, j)
  }

  /** Row j, or a row before it in its batch, belongs to a table that is not open when the batch is handed over. */
  ghost predicate EndangeredBy(es: seq<Event>, b: seq<nat>, q: nat, m: nat, n: nat, j: nat) {
    && q <= |es| && HandedAt(es, b, q) && m <= n < |b| && b[n] == j
    && b[m] < |es| && es[b[m]].Rows? && es[b[m]].table !in Sequential(es[..q]).current
  }

  ghost predicate Endangered(es: seq<Event>, j: nat) {
    exists b, q, m, n :: EndangeredBy(es, b, q, m, n, j)
  }

  // ---------- what every run keeps ----------

  predicate EndOf(c: seq<nat>, b: seq<nat>) {
    |c| <= |b| && b[|b| - |c|..] == c
  }

  ghost predicate BackHanded(es: seq<Event>, s: State) {
    && (forall k :: 0 <= k < |s.backQueue| ==> Handed(es, s.backQueue[k], s.pos))
    && (s.backBatch.Some? ==> exists b :: Handed(es, b, s.pos) && EndOf(s.backBatch.value, b))
  }

  ghost predicate Batched(es: seq<Event>, s: State) {
    && s.pos <= |es| && BackHanded(es, s)
    && (s.pc.Ready? || s.pc.DrainFlush? || s.pc.LastFlush? ==> s.batch == Batch(es[..s.pos]))
    && (s.pc.Flush? ==> HandedAt(es, s.batch, s.pos) && Batch(es[..s.pos]) == [])
  }

  lemma HandedLater(es: seq<Event>, s: State, t: State)
    requires BackHanded(es, s) && s.pos <= t.pos && t.backQueue == s.backQueue && t.backBatch == s.backBatch
    ensures BackHanded(es, t)
  {
    forall k | 0 <= k < |t.backQueue|
      ensures Handed(es, t.backQueue[k], t.pos)
    {
      assert Handed(es, s.backQueue[k], s.pos);
    }
    if s.backBatch.Some? {
      var b :| Handed(es, b, s.pos) && EndOf(s.backBatch.value, b);
      assert Handed(es, b, t.pos);
    }
  }

  lemma MainBatched(es: seq<Event>, s: State, t: State)
    requires Inv(es, s) && Batched(es, s) && MainStep(es, s, t) && !HandOver(s, t)
    ensures Batched(es, t)
  {
    HandedLater(es, s, t);
    if s.pos < |es| {
      BatchNext(es, s.pos);
    }
  }

  lemma HandOverBatched(es: seq<Event>, s: State, t: State)
    requires Inv(es, s) && Batched(es, s) && HandOver(s, t)
    ensures Batched(es, t)
  {
    assert HandedAt(es, s.batch, s.pos);
    assert Handed(es, s.batch, s.pos);
    forall k | 0 <= k < |t.backQueue|
      ensures Handed(es, t.backQueue[k], t.pos)
    {
      assert k < |s.backQueue| ==> Handed(es, s.backQueue[k], s.pos);
    }
  }

  lemma BackBatched(es: seq<Event>, s: State, t: State)
    requires Batched(es, s) && (TakeBatch(s, t) || WriteOne(es, s, t) || EndBatch(s, t))
    ensures Batched(es, t)
  {
    if TakeBatch(s, t) {
      var b := s.backQueue[0];
      assert Handed(es, b, t.pos) && EndOf(b, b);
      forall k | 0 <= k < |t.backQueue|
        ensures Handed(es, t.backQueue[k], t.pos)
      {
        assert Handed(es, s.backQueue[k + 1], s.pos);
      }
    } else if t.backBatch.Some? {
      var b :| Handed(es, b, s.pos) && EndOf(s.backBatch.value, b);
      assert EndOf(t.backBatch.value, b);
    }
  }

  lemma StepBatched(es: seq<Event>, s: State, t: State)
    requires Inv(es, s) && Batched(es, s) && Step(es, s, t)
    ensures Batched(es, t)
  {
    if HandOver(s, t) {
      HandOverBatched(es, s, t);
    } else if MainStep(es, s, t) {
      MainBatched(es, s, t);
    } else if TakeBatch(s, t) || WriteOne(es, s, t) || EndBatch(s, t) {
      BackBatched(es, s, t);
    } else {
      HandedLater(es, s, t);
    }
  }

  lemma {:induction false} RunBatched(es: seq<Event>, run: seq<State>)
    requires IsRun(es, run)
    ensures Batched(es, run[|run| - 1])
    decreases |run|
  {
    if |run| == 1 {
      assert es[..0] == [];
    } else {
      Front(es, run);
      RunBatched(es, run[..|run| - 1]);
      EveryState(es, run[..|run| - 1]);
      StepBatched(es, run[|run| - 2], run[|run| - 1]);
    }
  }

  lemma PrefixRun(es: seq<Event>, run: seq<State>, n: nat)
    requires IsRun(es, run) && 0 < n <= |run|
    ensures IsRun(es, run[..n])
  {
    forall k: nat | k + 1 < n
      ensures StepAt(es, run[..n], k)
    {
      assert StepAt(es, run, k);
    }
  }

  lemma ReachedState(es: seq<Event>, run: seq<State>, k: nat)
    requires IsRun(es, run) && k < |run|
    ensures Inv(es, run[k]) && Batched(es, run[k])
  {
    PrefixRun(es, run, k + 1);
    RunBatched(es, run[..k + 1]);
    EveryState(es, run[..k + 1]);
  }

  lemma LossEndangers(es: seq<Event>, s: State, t: State, j: nat)
    requires Inv(es, s) && Batched(es, s) && Loses(es, s, t, j)
    ensures Endangered(es, j)
  {
    var c := s.backBatch.value;
    var b :| Handed(es, b, s.pos) && EndOf(c, b);
    var q :| 0 <= q <= s.pos && q <= |es| && HandedAt(es, b, q);
    var x :| 0 <= x < |c| && c[x] == j;
    var m := |b| - |c|;
    assert b[m..][0] == c[0] && b[m..][x] == j;
    CurrentGrows(es, q, s.pos);
    assert EndangeredBy(es, b, q, m, m + x, j);
  }

  // ---------- a schedule that writes as soon as it can ----------

  ghost predicate Eager(es: seq<Event>, s: State) {
    && s.pc.Ready? && ParseIdle(s) && BackIdle(s) && s.queueSize > 0
    && s.pos <= |es| && s.batch == Batch(es[..s.pos])
  }

  lemma {:induction false} BackOut(es: seq<Event>, run: seq<State>) returns (r: seq<State>)
    requires IsRun(es, run) && ParseIdle(run[|run| - 1])
    ensures IsRun(es, r)
    ensures r[|r| - 1] == run[|run| - 1].(backQueue := [], backBatch := None, files := r[|r| - 1].files)
    decreases |run[|run| - 1].backQueue|
  {
    r := WriteOut(es, run);
    if r[|r| - 1].backQueue != [] {
      r := MakeRoom(es, r);
      r := BackOut(es, r);
    }
  }

  lemma EagerRow(es: seq<Event>, run: seq<State>) returns (r: seq<State>)
    requires IsRun(es, run) && Eager(es, run[|run| - 1]) && AtRows(es, run[|run| - 1])
    ensures IsRun(es, r) && Eager(es, r[|r| - 1]) && r[|r| - 1].pos == run[|run| - 1].pos + 1
  {
    r := SubmitAndParse(es, run);
    if |run[|run| - 1].batch| + 1 >= BATCH {
      r := HandOverNow(es, r);
      r := BackOut(es, r);
    }
    EagerAfterRow(es, run[|run| - 1], r[|r| - 1]);
  }

  lemma EagerAfterRow(es: seq<Event>, s: State, t: State)
    requires Eager(es, s) && AtRows(es, s) && t.pos == s.pos + 1
    requires t.pc.Ready? && ParseIdle(t) && BackIdle(t) && t.queueSize == s.queueSize
    requires t.batch == if |s.batch| + 1 >= BATCH then [] else s.batch + [s.pos]
    ensures Eager(es, t)
  {
    BatchNext(es, s.pos);
  }

  lemma EagerQuery(es: seq<Event>, run: seq<State>) returns (r: seq<State>)
    requires IsRun(es, run) && Eager(es, run[|run| - 1]) && AtQuery(es, run[|run| - 1])
    ensures IsRun(es, r) && Eager(es, r[|r| - 1]) && r[|r| - 1].pos == run[|run| - 1].pos + 1
  {
    var s := run[|run| - 1];
    BatchNext(es, s.pos);
    if Drained(es[s.pos].query) {
      SinceNext(es, s.pos);
      r := LazyDrain(es, run);
    } else {
      var t := s.(pos := s.pos + 1, pc := Ready, files := Execute(s.files, es[s.pos]));
      assert RunQuery(es, s, t);
      Grow(es, run, t);
      r := run + [t];
    }
  }

  lemma {:induction false} EagerRun(es: seq<Event>, p: nat) returns (run: seq<State>)
    requires p <= |es|
    ensures IsRun(es, run) && Eager(es, run[|run| - 1]) && run[|run| - 1].pos == p
    decreases p
  {
    if p == 0 {
      run := [Init()];
      assert es[..0] == [];
    } else {
      run := EagerRun(es, p - 1);
      if es[p - 1].Rows? {
        run := EagerRow(es, run);
      } else {
        run := EagerQuery(es, run);
      }
    }
  }

  /** From a state in which the main thread is about to hand over its batch and nothing else is going on. */
  lemma TakeOver(es: seq<Event>, run: seq<State>) returns (r: seq<State>)
    requires IsRun(es, run) && ParseIdle(run[|run| - 1]) && BackIdle(run[|run| - 1])
    requires var pc := run[|run| - 1].pc; pc.Flush? || pc.DrainFlush? || pc.LastFlush?
    ensures IsRun(es, r) && ParseIdle(r[|r| - 1]) && r[|r| - 1].pos == run[|run| - 1].pos
    ensures r[|r| - 1].backBatch == Some(run[|run| - 1].batch)
  {
    var s := run[|run| - 1];
    var t := s.(batch := [], backQueue := s.backQueue + [s.batch],
    pc := if s.pc == Flush then Ready else if s.pc == DrainFlush then DrainParse else LastParse);
    assert HandOver(s, t);
    Grow(es, run, t);
    assert t.backQueue == [s.batch];
    r := MakeRoom(es, run + [t]);
  }

  lemma AtHandOver(es: seq<Event>, b: seq<nat>, q: nat) returns (run: seq<State>)
    requires q <= |es| && HandedAt(es, b, q)
    ensures IsRun(es, run) && ParseIdle(run[|run| - 1]) && run[|run| - 1].pos == q
    ensures run[|run| - 1].backBatch == Some(b)
  {
    if Emptied(es, q) && b == Batch(es[..q]) {
      run := EagerRun(es, q);
      var s := run[|run| - 1];
      var t := s.(pc := if q == |es| then LastFlush else DrainFlush);
      assert Finish(es, s, t) || MeetQuery(es, s, t);
      Grow(es, run, t);
      run := run + [t];
    } else {
      run := EagerRun(es, q - 1);
      run := SubmitAndParse(es, run);
    }
    run := TakeOver(es, run);
  }

  /** The worker writes up to the first row without a writer. */
  lemma {:induction false} GiveUp(es: seq<Event>, run: seq<State>, m: nat, n: nat, j: nat)
    returns (r: seq<State>, k: nat)
    requires IsRun(es, run) && ParseIdle(run[|run| - 1]) && run[|run| - 1].backBatch.Some?
    requires var c := run[|run| - 1].backBatch.value;
             && m <= n < |c| && c[n] == j && c[m] < |es| && es[c[m]].Rows?
             && es[c[m]].table !in run[|run| - 1].files.current
    ensures IsRun(es, r) && LosesAt(es, r, k, j)
    decreases m
  {
    var s := run[|run| - 1];
    var c := s.backBatch.value;
    var t := WriteNext(es, run);
    if es[c[0]].table !in s.files.current {
      r, k := run + [t], |run| - 1;
    } else {
      r, k := GiveUp(es, run + [t], m - 1, n - 1, j);
    }
  }

  lemma EndangeredLoses(es: seq<Event>, b: seq<nat>, q: nat, m: nat, n: nat, j: nat)
    requires EndangeredBy(es, b, q, m, n, j)
    ensures CanLose(es, j)
  {
    var run := AtHandOver(es, b, q);
    EveryState(es, run);
    var k;
    run, k := GiveUp(es, run, m, n, j);
    var whole := Completes(es, run);
    assert whole[k] == run[k] && whole[k + 1] == run[k + 1];
    assert LosesAt(es, whole, k, j);
  }

  /**
   A row event is lost in some complete schedule if and only if it, or an earlier row event of its batch, belongs to a
   table that is not open when the batch is handed over.
   */
  lemma ExactlyEndangered(es: seq<Event>, j: nat)
    ensures CanLose(es, j) <==> Endangered(es, j)
  {
    if CanLose(es, j) {
      var run, k :| IsRun(es, run) && Finished(run) && LosesAt(es, run, k, j);
      ReachedState(es, run, k);
      LossEndangers(es, run[k], run[k + 1], j);
    }
    if Endangered(es, j) {
      var b, q, m, n :| EndangeredBy(es, b, q, m, n, j);
      EndangeredLoses(es, b, q, m, n, j);
    }
  }

  // ---------- an example ----------

  /** A row of a table that is never opened, and a row of one that is. */
  function LossExample(): seq<Event> {
    [Query("CREATE TABLE t(a int)", Opens("t")), Rows("x", "1,"), Rows("t", "2,")]
  }

  lemma ExampleSequential()
    ensures var es := LossExample();
            && Sequential(es[..1]) == Open(Files(map[], map[]), "t")
            && Sequential(es) == Write(Open(Files(map[], map[]), "t"), "t", "2,")
  {
    var es := LossExample();
    SequentialNext(es, 0);
    SequentialNext(es, 1);
    SequentialNext(es, 2);
    assert es[..0] == [] && es[..3] == es;
  }

  /** The first event, and the rows through the parse workers. */
  lemma ExampleRows() returns (run: seq<State>)
    ensures IsRun(LossExample(), run)
    ensures var s := run[|run| - 1];
            && s.pc == Ready && s.pos == 3 && s.batch == [1, 2] && s.parsed == {1, 2} && ParseIdle(s) && BackIdle(s)
            && s.files == Open(Files(map[], map[]), "t")
  {
    var es := LossExample();
    assert OccursAt(es[0].query, "CREATE", 0);
    var t := Init().(pos := 1, files := Execute(Init().files, es[0]));
    assert RunQuery(es, Init(), t);
    Grow(es, [Init()], t);
    run := SubmitAndParse(es, [Init()] + [t]);
    run := SubmitAndParse(es, run);
  }

  lemma Extend(es: seq<Event>, run: seq<State>, t: State) returns (r: seq<State>)
    requires IsRun(es, run) && Step(es, run[|run| - 1], t)
    ensures IsRun(es, r) && r[|r| - 1] == t
  {
    Grow(es, run, t);
    r := run + [t];
  }

  lemma ExampleEnd(run: seq<State>, s: State) returns (r: seq<State>)
    requires IsRun(LossExample(), run) && run[|run| - 1] == s
    requires s.pc == Ready && s.pos == 3 && s.batch == [1, 2] && s.parsed == {1, 2} && ParseIdle(s) && BackIdle(s)
    requires "x" !in s.files.current
    ensures IsRun(LossExample(), r) && Finished(r) && r[|r| - 1].files == s.files
  {
    var es := LossExample();
    var s1 := s.(pc := LastFlush);
    assert Finish(es, s, s1);
    r := Extend(es, run, s1);
    var s2 := s1.(batch := [], backQueue := [[1, 2]], pc := LastParse);
    assert HandOver(s1, s2);
    r := Extend(es, r, s2);
    var s3 := s2.(backQueue := [], backBatch := Some([1, 2]));
    assert TakeBatch(s2, s3);
    r := Extend(es, r, s3);
    var s4 := s3.(backBatch := None);
    assert WriteOne(es, s3, s4);
    r := Extend(es, r, s4);
    var s5 := s4.(pc := LastBack);
    assert AwaitParse(s4, s5);
    r := Extend(es, r, s5);
    assert Finish(es, s5, s5.(pc := Done));
    r := Extend(es, r, s5.(pc := Done));
  }

  /** The table's row is not in its file. */
  lemma RowLost() returns (run: seq<State>)
    ensures IsRun(LossExample(), run) && Finished(run)
    ensures TextOf(run[|run| - 1].files, "t", 0) == "" && TextOf(Sequential(LossExample()), "t", 0) == "2,"
  {
    run := ExampleRows();
    ExampleSequential();
    run := ExampleEnd(run, run[|run| - 1]);
  }
}
