/** For which binlogs every schedule leaves the sequential files. */
module PipelineExact {
  import opened Text
  import opened Pipeline
  import opened PipelineSafety
  import opened PipelineTheorems
  import opened PipelineProgress

  /** The row events after the last statement that empties the pipeline. */
  function Since(es: seq<Event>): seq<nat> {
    if es == [] then []
    else
      var front, e := es[..|es| - 1], es[|es| - 1];
      if e.Rows? then Since(front) + [|front|] else if Drained(e.query) then [] else Since(front)
  }

  /** How many of n row events the pipeline can hold: an unfinished batch, two queued and one being written. */
  function Capacity(n: nat): nat {
    n % 40 + 40 * (if n / 40 <= BACK_QUEUE + 1 then n / 40 else BACK_QUEUE + 1)
  }

  predicate SuffixAt(a: seq<nat>, b: seq<nat>, k: nat) {
    k < |a| <= |b| ==> b[|b| - |a| + k] == a[k]
  }

  ghost predicate Suffix(a: seq<nat>, b: seq<nat>) {
    |a| <= |b| && forall k: nat :: SuffixAt(a, b, k)
  }

  /** The row event can still be unwritten when the main thread is at event p. */
  predicate Late(es: seq<Event>, p: nat, i: nat)
    requires p <= |es|
  {
    var rows := Since(es[..p]);
    exists k :: 0 <= k < |rows| && rows[k] == i && |rows| - Capacity(|rows|) <= k
  }

  /** An undrained statement opens a table's next file though text for the table can be on the way. */
  ghost predicate RiskyAt(es: seq<Event>, p: nat) {
    && p < |es| && es[p].Query? && es[p].ddl.Opens? && !Skipped(es[p].query) && !Drained(es[p].query)
    && exists i: nat :: i < |es| && Late(es, p, i) && es[i].Rows? && es[i].table == es[p].ddl.table && es[i].text != ""
  }

  ghost predicate Riskless(es: seq<Event>) {
    forall p :: 0 <= p < |es| ==> !RiskyAt(es, p)
  }

  // ---------- the most that can be on the way ----------

  lemma {:induction false} ConcatAtMost(bs: seq<seq<nat>>)
    requires forall k :: 0 <= k < |bs| ==> |bs[k]| <= BATCH
    ensures |Concat(bs)| <= BATCH * |bs|
    ensures (forall k :: 0 <= k < |bs| ==> |bs[k]| == BATCH) ==> |Concat(bs)| == BATCH * |bs|
  {
    if bs != [] {
      ConcatAtMost(bs[1..]);
    }
  }

  ghost predicate Sizes(s: State) {
    && |s.batch| <= BATCH
    && (s.backBatch.Some? ==> |s.backBatch.value| <= BATCH)
    && forall k :: 0 <= k < |s.backQueue| ==> |s.backQueue[k]| <= BATCH
  }

  ghost predicate Backlog(es: seq<Event>, s: State) {
    && s.pos <= |es| && Sizes(s) && Suffix(Pending(s), Since(es[..s.pos]))
    && (s.pc.Ready? ==> |s.batch| == |Since(es[..s.pos])| % 40)
    && (s.pc.Flush? ==> |Since(es[..s.pos])| % 40 == 0)
  }

  lemma SinceNext(es: seq<Event>, p: nat)
    requires p < |es|
    ensures Since(es[..p + 1]) ==
            if es[p].Rows? then Since(es[..p]) + [p] else if Drained(es[p].query) then [] else Since(es[..p])
  {
    assert es[..p + 1][..p] == es[..p];
  }

  lemma SuffixAppend(a: seq<nat>, b: seq<nat>, i: nat)
    requires Suffix(a, b)
    ensures Suffix(a + [i], b + [i])
  {
    forall k: nat
      ensures SuffixAt(a + [i], b + [i], k)
    {
      assert SuffixAt(a, b, k);
    }
  }

  lemma SuffixDrop(a: seq<nat>, b: seq<nat>, n: nat)
    requires Suffix(a, b) && n <= |a|
    ensures Suffix(a[n..], b)
  {
    forall k: nat
      ensures SuffixAt(a[n..], b, k)
    {
      assert SuffixAt(a, b, n + k);
    }
  }

  lemma SuffixTrans(a: seq<nat>, b: seq<nat>, c: seq<nat>)
    requires Suffix(b, c) && Suffix(a, b)
    ensures Suffix(a, c)
  {
    forall k: nat
      ensures SuffixAt(a, c, k)
    {
      assert SuffixAt(a, b, k);
      assert SuffixAt(b, c, |b| - |a| + k);
    }
  }

  lemma SubmitBacklog(es: seq<Event>, s: State, t: State)
    requires Inv(es, s) && Backlog(es, s) && Submit(es, s, t)
    ensures Backlog(es, t)
  {
    SinceNext(es, s.pos);
    SuffixAppend(Pending(s), Since(es[..s.pos]), s.pos);
    assert Pending(t) == Pending(s) + [s.pos];
  }

  lemma RunQueryBacklog(es: seq<Event>, s: State, t: State)
    requires Inv(es, s) && Backlog(es, s) && RunQuery(es, s, t)
    ensures Backlog(es, t)
  {
    SinceNext(es, s.pos);
    assert Pending(t) == Pending(s);
    if Drained(es[s.pos].query) {
      DrainedIsEmpty(es, s, t);
    }
  }

  lemma WriteOneBacklog(es: seq<Event>, s: State, t: State)
    requires Backlog(es, s) && WriteOne(es, s, t)
    ensures Backlog(es, t)
  {
    var n := WriteOnePending(es, s, t);
    SuffixDrop(Pending(s), Since(es[..s.pos]), n);
  }

  lemma StepBacklog(es: seq<Event>, s: State, t: State)
    requires Inv(es, s) && Backlog(es, s) && Step(es, s, t)
    ensures Backlog(es, t)
  {
    if Submit(es, s, t) {
      SubmitBacklog(es, s, t);
    } else if RunQuery(es, s, t) {
      RunQueryBacklog(es, s, t);
    } else if WriteOne(es, s, t) {
      WriteOneBacklog(es, s, t);
    } else {
      OtherBacklog(es, s, t);
    }
  }

  /** The steps that leave the pending rows as they are. */
  lemma OtherBacklog(es: seq<Event>, s: State, t: State)
    requires Inv(es, s) && Backlog(es, s) && Step(es, s, t)
    requires !Submit(es, s, t) && !RunQuery(es, s, t) && !WriteOne(es, s, t)
    ensures Backlog(es, t)
  {
    if HandOver(s, t) {
      HandOverStep(es, s, t);
    } else if TakeBatch(s, t) || EndBatch(s, t) {
      BatchStep(es, s, t);
    } else {
      QuietStep(es, s, t);
      QuietBacklog(es, s, t);
    }
  }

  lemma QuietBacklog(es: seq<Event>, s: State, t: State)
    requires Inv(es, s) && Backlog(es, s) && Pending(t) == Pending(s) && t.pos == s.pos
    requires MeetQuery(es, s, t) || AwaitParse(s, t) || Finish(es, s, t) || Take(s, t) ||
             (exists i :: i in s.running && Parse(s, t, i))
    ensures Backlog(es, t)
  {
  }

  lemma BacklogIsLate(es: seq<Event>, s: State, i: nat)
    requires Inv(es, s) && Backlog(es, s) && s.pc.Ready? && i in Pending(s)
    ensures Late(es, s.pos, i)
  {
    var rows := Since(es[..s.pos]);
    ConcatAtMost(s.backQueue);
    assert |Pending(s)| <= Capacity(|rows|);
    var k :| 0 <= k < |Pending(s)| && Pending(s)[k] == i;
    assert SuffixAt(Pending(s), rows, k);
  }

  lemma BadStepIsRisky(es: seq<Event>, s: State, t: State)
    requires Inv(es, s) && Backlog(es, s) && BadStep(es, s, t)
    ensures RiskyAt(es, s.pos)
  {
    if Drained(es[s.pos].query) {
      DrainedIsEmpty(es, s, t);
    } else {
      var i :| i in Pending(s) && i < |es| && es[i].Rows? && es[i].table == es[s.pos].ddl.table && es[i].text != "";
      BacklogIsLate(es, s, i);
    }
  }

  lemma InitBacklog(es: seq<Event>)
    ensures Backlog(es, Init())
  {
    assert es[..0] == [];
  }

  lemma {:induction false} RisklessIsClear(es: seq<Event>, run: seq<State>)
    requires IsRun(es, run) && Riskless(es)
    ensures Clear(es, run) && Backlog(es, run[|run| - 1])
    decreases |run|
  {
    if |run| == 1 {
      InitBacklog(es);
    } else {
      var front, s, t := run[..|run| - 1], run[|run| - 2], run[|run| - 1];
      Front(es, run);
      RisklessIsClear(es, front);
      EveryState(es, front);
      StepBacklog(es, s, t);
      if BadStep(es, s, t) {
        BadStepIsRisky(es, s, t);
      }
    }
  }

  // ---------- a schedule that puts off writing as long as it can ----------

  /** The rows wait in full batches, as many as there is room for, and none has been written that need not be. */
  ghost predicate Backed(s: State, batches: nat) {
    && |s.backQueue| == (if batches < BACK_QUEUE then batches else BACK_QUEUE)
    && (s.backBatch.Some? <==> batches > BACK_QUEUE)
    && (s.backBatch.Some? ==> |s.backBatch.value| == BATCH)
    && forall k :: 0 <= k < |s.backQueue| ==> |s.backQueue[k]| == BATCH
  }

  /** Between events, with the given row events since the pipeline was last emptied. */
  ghost predicate Holds(s: State, rows: seq<nat>, batches: nat) {
    && s.pc.Ready? && ParseIdle(s) && s.queueSize > 0
    && |rows| == 40 * batches + |s.batch| && |s.batch| < 40
    && Backed(s, batches) && Suffix(Pending(s), rows)
  }

  ghost predicate Lazy(es: seq<Event>, s: State, batches: nat) {
    s.pos <= |es| && Holds(s, Since(es[..s.pos]), batches)
  }

  lemma LazyHoldsAll(es: seq<Event>, s: State, batches: nat, i: nat)
    requires Lazy(es, s, batches) && Late(es, s.pos, i)
    ensures i in Pending(s)
  {
    var rows := Since(es[..s.pos]);
    ConcatAtMost(s.backQueue);
    assert |Pending(s)| == Capacity(|rows|);
    var k :| 0 <= k < |rows| && rows[k] == i && |rows| - Capacity(|rows|) <= k;
    assert SuffixAt(Pending(s), rows, k - (|rows| - |Pending(s)|));
  }

  /** The write-back worker finishes the batch it is on, or gives it up. */
  lemma {:induction false} WriteOut(es: seq<Event>, run: seq<State>) returns (r: seq<State>)
    requires IsRun(es, run) && ParseIdle(run[|run| - 1])
    ensures IsRun(es, r)
    ensures r[|r| - 1] == run[|run| - 1].(backBatch := None, files := r[|r| - 1].files)
    decreases Measure(es, run[|run| - 1])
  {
    var s := run[|run| - 1];
    if s.backBatch.None? {
      r := run;
    } else {
      var t := WriteNext(es, run);
      StepDecreases(es, s, t);
      r := WriteOut(es, run + [t]);
    }
  }

  /** One step of the write-back worker on its batch. */
  lemma WriteNext(es: seq<Event>, run: seq<State>) returns (t: State)
    requires IsRun(es, run) && ParseIdle(run[|run| - 1]) && run[|run| - 1].backBatch.Some?
    ensures Step(es, run[|run| - 1], t) && IsRun(es, run + [t])
    ensures t == run[|run| - 1].(backBatch := t.backBatch, files := t.files)
    ensures run[|run| - 1].backBatch.value != [] ==> WriteOne(es, run[|run| - 1], t)
  {
    var s := run[|run| - 1];
    EveryState(es, run);
    if s.backBatch.value == [] {
      t := s.(backBatch := None);
      assert EndBatch(s, t);
    } else {
      t := WriteEnabled(es, s);
    }
    Grow(es, run, t);
  }

  lemma WriteEnabled(es: seq<Event>, s: State) returns (t: State)
    requires Inv(es, s) && ParseIdle(s) && s.backBatch.Some? && s.backBatch.value != []
    ensures WriteOne(es, s, t)
    ensures t == s.(backBatch := t.backBatch, files := t.files)
  {
    var i := s.backBatch.value[0];
    assert Pending(s)[0] == i && Known(es, s, i);
    t := if es[i].table in s.files.current then
      s.(backBatch := Some(s.backBatch.value[1..]), files := Write(s.files, es[i].table, es[i].text))
    else s.(backBatch := None);
  }

  /** It then starts on the next batch, which leaves room in its queue. */
  lemma MakeRoom(es: seq<Event>, run: seq<State>) returns (r: seq<State>)
    requires IsRun(es, run) && ParseIdle(run[|run| - 1]) && run[|run| - 1].backQueue != []
    ensures IsRun(es, r)
    ensures var s := run[|run| - 1];
      r[|r| - 1] == s.(backQueue := s.backQueue[1..], backBatch := Some(s.backQueue[0]), files := r[|r| - 1].files)
  {
    r := WriteOut(es, run);
    var s := r[|r| - 1];
    var u := s.(backQueue := s.backQueue[1..], backBatch := Some(s.backQueue[0]));
    assert TakeBatch(s, u);
    Grow(es, r, u);
    r := r + [u];
  }

  lemma TakeAndParse(es: seq<Event>, run: seq<State>, i: nat) returns (r: seq<State>)
    requires IsRun(es, run) && run[|run| - 1].queue == [i] && run[|run| - 1].running == {}
    ensures IsRun(es, r)
    ensures var s := run[|run| - 1]; r[|r| - 1] == s.(queue := [], parsed := s.parsed + {i})
  {
    var s := run[|run| - 1];
    var t := s.(queue := [], running := {i});
    assert s.queue[1..] == [] && s.running + {s.queue[0]} == {i};
    assert Take(s, t);
    Grow(es, run, t);
    var u := s.(queue := [], parsed := s.parsed + {i});
    assert t.running - {i} == {};
    assert Parse(t, u, i);
    Grow(es, run + [t], u);
    r := run + [t] + [u];
  }

  /** A row event goes through the parse workers at once. */
  lemma SubmitAndParse(es: seq<Event>, run: seq<State>) returns (r: seq<State>)
    requires IsRun(es, run) && AtRows(es, run[|run| - 1]) && ParseIdle(run[|run| - 1]) && run[|run| - 1].queueSize > 0
    ensures IsRun(es, r)
    ensures var s := run[|run| - 1];
      r[|r| - 1] == s.(pos := s.pos + 1, batch := s.batch + [s.pos], parsed := s.parsed + {s.pos},
                       pc := if |s.batch| + 1 >= BATCH then Flush else Ready)
  {
    var s := run[|run| - 1];
    var t := s.(pos := s.pos + 1, queue := [s.pos], batch := s.batch + [s.pos],
    pc := if |s.batch| + 1 >= BATCH then Flush else Ready);
    assert s.queue + [s.pos] == [s.pos];
    assert Submit(es, s, t);
    Grow(es, run, t);
    r := TakeAndParse(es, run + [t], s.pos);
  }

  // ---------- the lazy schedule reaches every event ----------

  lemma HandOverNow(es: seq<Event>, run: seq<State>) returns (r: seq<State>)
    requires IsRun(es, run) && run[|run| - 1].pc.Flush? && |run[|run| - 1].backQueue| < BACK_QUEUE
    ensures IsRun(es, r)
    ensures var s := run[|run| - 1]; r[|r| - 1] == s.(batch := [], backQueue := s.backQueue + [s.batch], pc := Ready)
  {
    var s := run[|run| - 1];
    var t := s.(batch := [], backQueue := s.backQueue + [s.batch], pc := Ready);
    assert HandOver(s, t);
    Grow(es, run, t);
    r := run + [t];
  }

  /** A full batch waits where there is room; if there is none, the oldest batch is written first. */
  lemma FlushLazily(es: seq<Event>, run: seq<State>, batches: nat) returns (r: seq<State>)
    requires IsRun(es, run) && ParseIdle(run[|run| - 1])
    requires run[|run| - 1].pc.Flush? && |run[|run| - 1].batch| == BATCH && Backed(run[|run| - 1], batches)
    ensures IsRun(es, r)
    ensures var s, t := run[|run| - 1], r[|r| - 1];
      && t == s.(batch := [], backQueue := t.backQueue, backBatch := t.backBatch, pc := Ready, files := t.files)
      && Backed(t, batches + 1) && Suffix(Pending(t), Pending(s))
  {
    var s := run[|run| - 1];
    if batches < BACK_QUEUE {
      r := HandOverNow(es, run);
      HandOverPending(s, r[|r| - 1]);
    } else {
      r := MakeRoom(es, run);
      RoomPending(s, r[|r| - 1]);
      ghost var u := r[|r| - 1];
      r := HandOverNow(es, r);
      HandOverPending(u, r[|r| - 1]);
    }
  }

  lemma HandOverPending(s: State, t: State)
    requires HandOver(s, t)
    ensures Pending(t) == Pending(s) && Suffix(Pending(t), Pending(s))
  {
    ConcatAppend(s.backQueue, s.batch);
    var front := if s.backBatch.Some? then s.backBatch.value else [];
    assert Pending(t) == front + (Concat(s.backQueue) + s.batch) + [] == Pending(s);
  }

  lemma RoomPending(s: State, t: State)
    requires s.backQueue != []
    requires t == s.(backQueue := s.backQueue[1..], backBatch := Some(s.backQueue[0]), files := t.files)
    ensures Suffix(Pending(t), Pending(s))
  {
    var front := if s.backBatch.Some? then s.backBatch.value else [];
    assert Concat(s.backQueue) == s.backQueue[0] + Concat(s.backQueue[1..]);
    assert Pending(t) == Concat(s.backQueue) + s.batch;
    assert Pending(s) == front + Pending(t);
    forall k: nat
      ensures SuffixAt(Pending(t), Pending(s), k)
    {
    }
  }

  /** After a row event that does not fill the batch. */
  lemma HoldsKept(s: State, t: State, rows: seq<nat>, batches: nat)
    requires Holds(s, rows, batches) && |s.batch| + 1 < BATCH
    requires t == s.(pos := s.pos + 1, batch := s.batch + [s.pos], parsed := s.parsed + {s.pos}, pc := Ready)
    ensures Holds(t, rows + [s.pos], batches)
  {
    SuffixAppend(Pending(s), rows, s.pos);
    assert Pending(t) == Pending(s) + [s.pos];
  }

  /** After a row event that does, and the hand-over that follows. */
  lemma HoldsFlushed(s: State, t: State, u: State, rows: seq<nat>, batches: nat)
    requires Holds(s, rows, batches) && |s.batch| + 1 >= BATCH
    requires t == s.(pos := s.pos + 1, batch := s.batch + [s.pos], parsed := s.parsed + {s.pos}, pc := Flush)
    requires u == t.(batch := [], backQueue := u.backQueue, backBatch := u.backBatch, pc := Ready, files := u.files)
    requires Backed(u, batches + 1) && Suffix(Pending(u), Pending(t))
    ensures Holds(u, rows + [s.pos], batches + 1)
  {
    SuffixAppend(Pending(s), rows, s.pos);
    assert Pending(t) == Pending(s) + [s.pos];
    SuffixTrans(Pending(u), Pending(t), rows + [s.pos]);
  }

  lemma LazyFlushed(es: seq<Event>, s: State, t: State, u: State, batches: nat)
    requires Lazy(es, s, batches) && |s.batch| + 1 >= BATCH && AtRows(es, s)
    requires t == s.(pos := s.pos + 1, batch := s.batch + [s.pos], parsed := s.parsed + {s.pos}, pc := Flush)
    requires u == t.(batch := [], backQueue := u.backQueue, backBatch := u.backBatch, pc := Ready, files := u.files)
    requires Backed(u, batches + 1) && Suffix(Pending(u), Pending(t))
    ensures Lazy(es, u, batches + 1)
  {
    SinceNext(es, s.pos);
    HoldsFlushed(s, t, u, Since(es[..s.pos]), batches);
  }

  lemma LazyRowFlushed(es: seq<Event>, run: seq<State>, batches: nat) returns (r: seq<State>)
    requires IsRun(es, run) && Lazy(es, run[|run| - 1], batches) && AtRows(es, run[|run| - 1])
    requires |run[|run| - 1].batch| + 1 >= BATCH
    ensures IsRun(es, r) && Lazy(es, r[|r| - 1], batches + 1) && r[|r| - 1].pos == run[|run| - 1].pos + 1
  {
    r := SubmitAndParse(es, run);
    var t := r[|r| - 1];
    r := FlushLazily(es, r, batches);
    LazyFlushed(es, run[|run| - 1], t, r[|r| - 1], batches);
  }

  lemma LazyRow(es: seq<Event>, run: seq<State>, batches: nat) returns (r: seq<State>, more: nat)
    requires IsRun(es, run) && Lazy(es, run[|run| - 1], batches) && AtRows(es, run[|run| - 1])
    ensures IsRun(es, r) && Lazy(es, r[|r| - 1], more) && r[|r| - 1].pos == run[|run| - 1].pos + 1
  {
    var s := run[|run| - 1];
    if |s.batch| + 1 >= BATCH {
      r := LazyRowFlushed(es, run, batches);
      more := batches + 1;
    } else {
      r := LazyRowKept(es, run, batches);
      more := batches;
    }
  }

  lemma LazyRowKept(es: seq<Event>, run: seq<State>, batches: nat) returns (r: seq<State>)
    requires IsRun(es, run) && Lazy(es, run[|run| - 1], batches) && AtRows(es, run[|run| - 1])
    requires |run[|run| - 1].batch| + 1 < BATCH
    ensures IsRun(es, r) && Lazy(es, r[|r| - 1], batches) && r[|r| - 1].pos == run[|run| - 1].pos + 1
  {
    var s := run[|run| - 1];
    SinceNext(es, s.pos);
    r := SubmitAndParse(es, run);
    HoldsKept(s, r[|r| - 1], Since(es[..s.pos]), batches);
  }

  lemma LazyQuery(es: seq<Event>, run: seq<State>, batches: nat) returns (t: State)
    requires IsRun(es, run) && Lazy(es, run[|run| - 1], batches) && AtQuery(es, run[|run| - 1])
    requires !Drained(es[run[|run| - 1].pos].query)
    ensures RunQuery(es, run[|run| - 1], t) && IsRun(es, run + [t])
    ensures Lazy(es, t, batches) && t.pos == run[|run| - 1].pos + 1
  {
    var s := run[|run| - 1];
    SinceNext(es, s.pos);
    t := s.(pos := s.pos + 1, pc := Ready, files := Execute(s.files, es[s.pos]));
    assert RunQuery(es, s, t);
    Grow(es, run, t);
    assert Pending(t) == Pending(s);
  }

  predicate Draining(s: State) {
    s.pc.DrainFlush? || s.pc.DrainParse? || s.pc.DrainBack?
  }

  /** Whatever the threads do while a statement is drained, it is executed on an empty pipeline. */
  lemma DrainingStep(es: seq<Event>, s: State, t: State)
    requires Inv(es, s) && Draining(s) && Step(es, s, t)
    ensures (Draining(t) && t.pos == s.pos) || (t.pos == s.pos + 1 && Lazy(es, t, 0))
  {
    if RunQuery(es, s, t) {
      SinceNext(es, s.pos);
    }
  }

  lemma {:induction false} DrainOut(es: seq<Event>, run: seq<State>) returns (r: seq<State>)
    requires IsRun(es, run) && Draining(run[|run| - 1])
    ensures IsRun(es, r) && Lazy(es, r[|r| - 1], 0) && r[|r| - 1].pos == run[|run| - 1].pos + 1
    decreases Measure(es, run[|run| - 1])
  {
    var s := run[|run| - 1];
    var t := OneMore(es, run);
    EveryState(es, run);
    Grow(es, run, t);
    DrainingStep(es, s, t);
    StepDecreases(es, s, t);
    r := run + [t];
    if Draining(t) {
      r := DrainOut(es, r);
    }
  }

  lemma LazyDrain(es: seq<Event>, run: seq<State>) returns (r: seq<State>)
    requires IsRun(es, run) && run[|run| - 1].pc.Ready? && AtQuery(es, run[|run| - 1])
    requires Drained(es[run[|run| - 1].pos].query)
    ensures IsRun(es, r) && Lazy(es, r[|r| - 1], 0) && r[|r| - 1].pos == run[|run| - 1].pos + 1
  {
    var t := run[|run| - 1].(pc := DrainFlush);
    assert MeetQuery(es, run[|run| - 1], t);
    Grow(es, run, t);
    r := DrainOut(es, run + [t]);
  }

  lemma {:induction false} LazyRun(es: seq<Event>, p: nat) returns (run: seq<State>, batches: nat)
    requires p <= |es|
    ensures IsRun(es, run) && Lazy(es, run[|run| - 1], batches) && run[|run| - 1].pos == p
    decreases p
  {
    if p == 0 {
      run, batches := [Init()], 0;
      assert es[..0] == [];
    } else {
      run, batches := LazyRun(es, p - 1);
      if es[p - 1].Rows? {
        run, batches := LazyRow(es, run, batches);
      } else if Drained(es[p - 1].query) {
        run := LazyDrain(es, run);
        batches := 0;
      } else {
        var t := LazyQuery(es, run, batches);
        run := run + [t];
      }
    }
  }

  // ---------- the exact condition ----------

  /** A complete schedule in which the risky statement overtakes a row. */
  lemma RiskyOvertakes(es: seq<Event>, p: nat) returns (run: seq<State>)
    requires RiskyAt(es, p)
    ensures IsRun(es, run) && Finished(run) && !Clear(es, run)
  {
    var batches;
    run, batches := LazyRun(es, p);
    var s := run[|run| - 1];
    var i: nat :| i < |es| && Late(es, p, i) && es[i].Rows? && es[i].table == es[p].ddl.table && es[i].text != "";
    LazyHoldsAll(es, s, batches, i);
    assert Overtakes(es, s);
    var t := LazyQuery(es, run, batches);
    Grow(es, run, t);
    run := Completes(es, run + [t]);
  }

  ghost predicate NothingOvertaken(es: seq<Event>) {
    forall run: seq<State> :: IsRun(es, run) && Finished(run) ==> Clear(es, run)
  }

  /** In every binlog: no schedule lets a statement overtake rows of its table if and only if none is risky. */
  lemma ExactlyClear(es: seq<Event>)
    ensures NothingOvertaken(es) <==> Riskless(es)
  {
    if Riskless(es) {
      forall run: seq<State> | IsRun(es, run) && Finished(run)
        ensures Clear(es, run)
      {
        RisklessIsClear(es, run);
      }
    } else {
      var p :| 0 <= p < |es| && RiskyAt(es, p);
      var run := RiskyOvertakes(es, p);
      assert !NothingOvertaken(es);
    }
  }

  lemma RiskyGoesWrong(es: seq<Event>, p: nat) returns (run: seq<State>)
    requires Declared(es) && RiskyAt(es, p)
    ensures IsRun(es, run) && Finished(run) && run[|run| - 1].files != Sequential(es)
  {
    run := RiskyOvertakes(es, p);
    CompleteRun(es, run);
  }

  ghost predicate EveryScheduleIsRight(es: seq<Event>) {
    forall run: seq<State> :: IsRun(es, run) && Finished(run) ==> run[|run| - 1].files == Sequential(es)
  }

  /**
   Every complete schedule leaves the sequential files if and only if no undrained statement opens the next
   file of a table that has text among the rows the pipeline can still hold at that point.
   */
  lemma ExactlyRiskless(es: seq<Event>)
    requires Declared(es)
    ensures EveryScheduleIsRight(es) <==> Riskless(es)
  {
    if Riskless(es) {
      forall run: seq<State> | IsRun(es, run) && Finished(run)
        ensures run[|run| - 1].files == Sequential(es)
      {
        RisklessIsClear(es, run);
        CompleteRun(es, run);
      }
    } else {
      var p :| 0 <= p < |es| && RiskyAt(es, p);
      var run := RiskyGoesWrong(es, p);
      assert !EveryScheduleIsRight(es);
    }
  }

  function RaceExample(): seq<Event> {
    [Query("CREATE TABLE t(a int)", Opens("t")), Rows("t", "1,"),
      Query("ALTER TABLE t ADD create_time int", Opens("t"))]
  }

  lemma RaceDeclared()
    ensures Declared(RaceExample())
  {
    var es := RaceExample();
    SequentialNext(es, 0);
    assert es[..0] == [];
  }

  lemma RaceSince()
    ensures Since(RaceExample()[..2]) == [1]
  {
    var es := RaceExample();
    assert OccursAt(es[0].query, "CREATE", 0);
    SinceNext(es, 0);
    SinceNext(es, 1);
    assert es[..0] == [];
    assert Since(es[..1]) == [] && [] + [1] == [1];
  }

  lemma RaceLate()
    ensures Late(RaceExample(), 2, 1)
  {
    RaceSince();
    var rows := Since(RaceExample()[..2]);
    assert rows[0] == 1 && Capacity(1) == 1;
  }

  /** An ALTER whose text happens to contain "create" is not drained, and its table's last rows can end up after it. */
  lemma AlterCanOvertakeRows() returns (run: seq<State>)
    ensures Declared(RaceExample())
    ensures IsRun(RaceExample(), run) && Finished(run) && run[|run| - 1].files != Sequential(RaceExample())
  {
    var es := RaceExample();
    RaceDeclared();
    RaceLate();
    assert OccursAt(es[2].query, "create", 18);
    assert es[1].table == es[2].ddl.table && es[1].text != "";
    run := RiskyGoesWrong(es, 2);
  }
}
