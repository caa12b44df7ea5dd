/** No schedule gets stuck, and none goes on for ever. */
module PipelineProgress {
  import opened Text
  import opened Pipeline
  import opened PipelineSafety
  import opened PipelineTheorems

  function PcRank(pc: Pc): nat {
    match pc
    case Done => 0
    case LastBack => 1
    case DrainBack => 1
    case LastParse => 2
    case DrainParse => 2
    case LastFlush => 5
    case DrainFlush => 5
    case Ready => 6
    case Flush => 9
  }

  /** What is left to do: events, then tasks, then rows, each worth more than the work it makes. */
  function Measure(es: seq<Event>, s: State): nat {
    var events := if s.pos <= |es| then |es| - s.pos else 0;
    20 * events + PcRank(s.pc) + 2 * |s.queue| + |s.running| + |Pending(s)| + 2 * |s.backQueue|
    + (if s.backBatch.Some? then 1 else 0)
  }

  lemma MainDecreases(es: seq<Event>, s: State, t: State)
    requires MainStep(es, s, t)
    ensures Measure(es, t) < Measure(es, s)
  {
    if Submit(es, s, t) {
      assert Pending(t) == Pending(s) + [s.pos];
    } else if HandOver(s, t) {
      ConcatAppend(s.backQueue, s.batch);
      assert |Pending(t)| == |Pending(s)|;
    } else {
      assert Pending(t) == Pending(s);
    }
  }

  lemma WorkerDecreases(es: seq<Event>, s: State, t: State)
    requires WorkerStep(es, s, t)
    ensures Measure(es, t) < Measure(es, s)
  {
    if WriteOne(es, s, t) {
      assert |Pending(t)| < |Pending(s)|;
    } else {
      if TakeBatch(s, t) {
        assert Concat(s.backQueue) == s.backQueue[0] + Concat(s.backQueue[1..]);
      }
      assert Pending(t) == Pending(s);
    }
  }

  lemma StepDecreases(es: seq<Event>, s: State, t: State)
    requires Step(es, s, t)
    ensures Measure(es, t) < Measure(es, s)
  {
    if MainStep(es, s, t) {
      MainDecreases(es, s, t);
    } else {
      WorkerDecreases(es, s, t);
    }
  }

  /** However the threads are scheduled, the run is over after a number of steps linear in the binlog. */
  lemma {:induction false} RunsAreBounded(es: seq<Event>, run: seq<State>)
    requires IsRun(es, run)
    ensures |run| + Measure(es, run[|run| - 1]) <= 20 * |es| + 7
    decreases |run|
  {
    if |run| > 1 {
      Front(es, run);
      RunsAreBounded(es, run[..|run| - 1]);
      StepDecreases(es, run[|run| - 2], run[|run| - 1]);
    }
  }

  ghost predicate Enabled(es: seq<Event>, s: State) {
    exists t :: Step(es, s, t)
  }

  /** While the parse workers have something to do, one of them can move. */
  lemma ParseMoves(es: seq<Event>, s: State)
    requires !ParseIdle(s)
    ensures Enabled(es, s)
  {
    if s.running != {} {
      var i :| i in s.running;
      var t := s.(running := s.running - {i}, parsed := s.parsed + {i});
      assert Parse(s, t, i);
      assert Step(es, s, t);
    } else {
      var t := s.(queue := s.queue[1..], running := s.running + {s.queue[0]});
      assert Take(s, t);
      assert Step(es, s, t);
    }
  }

  /** While the write-back worker has something to do, it or a parse worker it waits for can move. */
  lemma BackMoves(es: seq<Event>, s: State)
    requires Inv(es, s) && !BackIdle(s)
    ensures Enabled(es, s)
  {
    if s.backBatch.None? {
      var t := s.(backQueue := s.backQueue[1..], backBatch := Some(s.backQueue[0]));
      assert TakeBatch(s, t);
      assert Step(es, s, t);
    } else if s.backBatch.value == [] {
      var t := s.(backBatch := None);
      assert EndBatch(s, t);
      assert Step(es, s, t);
    } else {
      var i := s.backBatch.value[0];
      assert Pending(s)[0] == i && Known(es, s, i);
      if i in s.parsed {
        var t := if es[i].table in s.files.current then
          s.(backBatch := Some(s.backBatch.value[1..]), files := Write(s.files, es[i].table, es[i].text))
        else s.(backBatch := None);
        assert WriteOne(es, s, t);
        assert Step(es, s, t);
      } else {
        ParseMoves(es, s);
      }
    }
  }

  lemma ReadyMoves(es: seq<Event>, s: State)
    requires Inv(es, s) && s.pc.Ready?
    ensures Enabled(es, s)
  {
    if s.pos == |es| {
      assert Step(es, s, s.(pc := LastFlush));
    } else if es[s.pos].Query? {
      if Drained(es[s.pos].query) {
        assert Step(es, s, s.(pc := DrainFlush));
      } else {
        var t := s.(pos := s.pos + 1, pc := Ready, files := Execute(s.files, es[s.pos]));
        assert RunQuery(es, s, t);
        assert Step(es, s, t);
      }
    } else if |s.queue| < s.queueSize {
      var t := s.(pos := s.pos + 1, queue := s.queue + [s.pos], batch := s.batch + [s.pos],
      pc := if |s.batch| + 1 >= BATCH then Flush else Ready);
      assert Submit(es, s, t);
      assert Step(es, s, t);
    } else {
      ParseMoves(es, s);
    }
  }

  /** In every reachable state that is not the end, some thread can move, though every queue is bounded. */
  lemma NeverStuck(es: seq<Event>, s: State)
    requires Inv(es, s) && !s.pc.Done?
    ensures Enabled(es, s)
  {
    if s.pc.Ready? {
      ReadyMoves(es, s);
    } else if s.pc.Flush? || s.pc.DrainFlush? || s.pc.LastFlush? {
      if |s.backQueue| < BACK_QUEUE {
        var t := s.(batch := [], backQueue := s.backQueue + [s.batch],
        pc := if s.pc == Flush then Ready else if s.pc == DrainFlush then DrainParse else LastParse);
        assert HandOver(s, t);
        assert Step(es, s, t);
      } else {
        BackMoves(es, s);
      }
    } else if s.pc.DrainParse? || s.pc.LastParse? {
      if ParseIdle(s) {
        var t := s.(queueSize := if s.pc == DrainParse then LATER_QUEUE else s.queueSize,
        pc := if s.pc == DrainParse then DrainBack else LastBack);
        assert AwaitParse(s, t);
        assert Step(es, s, t);
      } else {
        ParseMoves(es, s);
      }
    } else if !BackIdle(s) {
      BackMoves(es, s);
    } else if s.pc.DrainBack? {
      var t := s.(pos := s.pos + 1, pc := Ready, files := Execute(s.files, es[s.pos]));
      assert RunQuery(es, s, t);
      assert Step(es, s, t);
    } else {
      assert Step(es, s, s.(pc := Done));
    }
  }

  /** Every run that stops where nothing can move has processed the whole binlog. */
  lemma StopsAtTheEnd(es: seq<Event>, run: seq<State>)
    requires IsRun(es, run) && !Enabled(es, run[|run| - 1])
    ensures run[|run| - 1].pc.Done? && Pending(run[|run| - 1]) == []
  {
    EveryState(es, run);
    var last := run[|run| - 1];
    if !last.pc.Done? {
      NeverStuck(es, last);
    }
  }

  lemma OneMore(es: seq<Event>, run: seq<State>) returns (t: State)
    requires IsRun(es, run) && !run[|run| - 1].pc.Done?
    ensures Step(es, run[|run| - 1], t)
  {
    EveryState(es, run);
    NeverStuck(es, run[|run| - 1]);
    t :| Step(es, run[|run| - 1], t);
  }

  lemma PrefixShrinks(run: seq<State>, t: State, whole: seq<State>)
    requires run + [t] <= whole
    ensures run <= whole
  {
    assert whole[..|run|] == (run + [t])[..|run|] == run;
  }

  /** Every run can be carried to the end. */
  lemma {:induction false} Completes(es: seq<Event>, run: seq<State>) returns (whole: seq<State>)
    requires IsRun(es, run)
    ensures IsRun(es, whole) && Finished(whole) && run <= whole
    ensures !Clear(es, run) ==> !Clear(es, whole)
    decreases Measure(es, run[|run| - 1])
  {
    if Finished(run) {
      whole := run;
    } else {
      var t := OneMore(es, run);
      Grow(es, run, t);
      StepDecreases(es, run[|run| - 1], t);
      whole := Completes(es, run + [t]);
      PrefixShrinks(run, t, whole);
    }
  }

  // ---------- what the files hold ----------

  predicate OpensAt(e: Event, u: Name) {
    e.Query? && !Skipped(e.query) && e.ddl == Opens(u)
  }

  /** How many statements open a file of the table: the count written next to its files. */
  function Opened(es: seq<Event>, u: Name): nat {
    if es == [] then 0
    else Opened(es[..|es| - 1], u) + (if OpensAt(es[|es| - 1], u) then 1 else 0)
  }

  /** The table's rows between its k-th opening statement and the next, in binlog order. */
  function Segment(es: seq<Event>, u: Name, k: nat): string {
    if es == [] then ""
    else
      var front, e := es[..|es| - 1], es[|es| - 1];
      Segment(front, u, k) + (if e.Rows? && e.table == u && Opened(front, u) == k + 1 then e.text else "")
  }

  lemma {:induction false} SegmentUnopened(es: seq<Event>, u: Name, k: nat)
    requires Opened(es, u) <= k
    ensures Segment(es, u, k) == ""
    decreases |es|
  {
    if es != [] {
      SegmentUnopened(es[..|es| - 1], u, k);
    }
  }

  lemma {:induction false} SequentialSegments(es: seq<Event>, u: Name, k: nat)
    ensures u in Sequential(es).current <==> Opened(es, u) > 0
    ensures u in Sequential(es).current ==> Sequential(es).current[u] + 1 == Opened(es, u)
    ensures (u, k) in Sequential(es).text <==> k < Opened(es, u)
    ensures TextOf(Sequential(es), u, k) == Segment(es, u, k)
    decreases |es|
  {
    if es != [] {
      var front := es[..|es| - 1];
      SequentialSegments(front, u, k);
      if Opened(front, u) <= k {
        SegmentUnopened(front, u, k);
      }
    }
  }

  /**
   The k-th file of every table holds exactly the table's row texts between its k-th and (k+1)-th opening
   statements, in binlog order: none is lost, doubled or in a neighbouring file.
   */
  lemma FilesOfARun(es: seq<Event>, run: seq<State>, u: Name, k: nat)
    requires Declared(es) && IsRun(es, run) && Finished(run) && Clear(es, run)
    ensures var f := run[|run| - 1].files;
      && TextOf(f, u, k) == Segment(es, u, k)
      && ((u, k) in f.text <==> k < Opened(es, u))
      && (u in f.current <==> Opened(es, u) > 0)
      && (u in f.current ==> f.current[u] + 1 == Opened(es, u))
  {
    CompleteRun(es, run);
    SequentialSegments(es, u, k);
  }
}
