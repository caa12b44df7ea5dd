/** Which files a complete schedule leaves behind, and that every schedule completes. */
module PipelineSafety {
  import opened Text
  import opened Pipeline

  // ---------- the row events that are not written yet, in the order they will be ----------

  function Concat(bs: seq<seq<nat>>): seq<nat> {
    if bs == [] then [] else bs[0] + Concat(bs[1..])
  }

  function Pending(s: State): seq<nat> {
    (if s.backBatch.Some? then s.backBatch.value else []) + Concat(s.backQueue) + s.batch
  }

  predicate AllRows(es: seq<Event>, ids: seq<nat>) {
    forall k :: 0 <= k < |ids| ==> ids[k] < |es| && es[ids[k]].Rows?
  }

  function WriteAll(es: seq<Event>, f: Files, ids: seq<nat>): Files
    requires AllRows(es, ids)
    decreases |ids|
  {
    if ids == [] then f else WriteAll(es, Write(f, es[ids[0]].table, es[ids[0]].text), ids[1..])
  }

  /** Every open table has its current file. */
  ghost predicate FilesOk(f: Files) {
    forall t :: t in f.current ==> (t, f.current[t]) in f.text
  }

  ghost predicate Known(es: seq<Event>, s: State, i: nat) {
    i < s.pos <= |es| && es[i].Rows? && (i in s.queue || i in s.running || i in s.parsed)
  }

  ghost predicate Controlled(es: seq<Event>, s: State) {
    && s.pos <= |es|
    && |s.queue| <= s.queueSize && s.queueSize > 0 && |s.running| <= WORKERS && |s.backQueue| <= BACK_QUEUE
    && (s.pc.Ready? ==> |s.batch| < BATCH)
    && (s.pc.DrainFlush? || s.pc.DrainParse? || s.pc.DrainBack? ==>
          s.pos < |es| && es[s.pos].Query? && Drained(es[s.pos].query))
    && (s.pc.LastFlush? || s.pc.LastParse? || s.pc.LastBack? || s.pc.Done? ==> s.pos == |es|)
    && (s.pc.DrainParse? || s.pc.DrainBack? || s.pc.LastParse? || s.pc.LastBack? || s.pc.Done? ==> s.batch == [])
    && (s.pc.DrainBack? || s.pc.LastBack? || s.pc.Done? ==> ParseIdle(s))
    && (s.pc.Done? ==> BackIdle(s))
  }

  /** What holds in every reachable state, whatever happens to the files. */
  ghost predicate Inv(es: seq<Event>, s: State) {
    && Controlled(es, s)
    && (forall k :: 0 <= k < |Pending(s)| ==> Known(es, s, Pending(s)[k]))
    && FilesOk(s.files) && s.files.current == Sequential(es[..s.pos]).current
  }

  /** Writing what is pending, in order, would bring the files to the sequential result. */
  ghost predicate Faithful(es: seq<Event>, s: State)
    requires Inv(es, s)
  {
    WriteAll(es, s.files, Pending(s)) == Sequential(es[..s.pos])
  }

  // ---------- files and order ----------

  lemma {:induction false} ConcatAppend(bs: seq<seq<nat>>, b: seq<nat>)
    ensures Concat(bs + [b]) == Concat(bs) + b
  {
    if bs == [] {
      assert Concat([b]) == b + Concat([]);
    } else {
      assert (bs + [b])[1..] == bs[1..] + [b];
      ConcatAppend(bs[1..], b);
    }
  }

  lemma {:induction false} WriteAllAppend(es: seq<Event>, f: Files, ids: seq<nat>, i: nat)
    requires AllRows(es, ids)
    requires i < |es| && es[i].Rows?
    ensures AllRows(es, ids + [i])
    ensures WriteAll(es, f, ids + [i]) == Write(WriteAll(es, f, ids), es[i].table, es[i].text)
    decreases |ids|
  {
    if ids == [] {
      assert (ids + [i])[1..] == [];
    } else {
      assert (ids + [i])[1..] == ids[1..] + [i];
      WriteAllAppend(es, Write(f, es[ids[0]].table, es[ids[0]].text), ids[1..], i);
    }
  }

  lemma {:induction false} WriteAllKeeps(es: seq<Event>, f: Files, ids: seq<nat>)
    requires AllRows(es, ids)
    requires FilesOk(f)
    ensures WriteAll(es, f, ids).current == f.current && FilesOk(WriteAll(es, f, ids))
    decreases |ids|
  {
    if ids != [] {
      WriteAllKeeps(es, Write(f, es[ids[0]].table, es[ids[0]].text), ids[1..]);
    }
  }

  lemma WriteOpenCommutes(f: Files, t: Name, u: Name, s: string)
    requires FilesOk(f) && u in f.current && (t == u ==> s == "")
    ensures Write(Open(f, t), u, s) == Open(Write(f, u, s), t)
  {
    var left, right := Write(Open(f, t), u, s), Open(Write(f, u, s), t);
    assert left.current == right.current;
    if t == u {
      var k := f.current[t];
      assert TextOf(f, t, k) + s == f.text[(t, k)];
      assert Write(f, u, s).text == f.text;
    }
    assert left.text == right.text;
  }

  /** Opening a table's next file commutes with writing rows that add nothing to that table. */
  lemma {:induction false} OpenCommutes(es: seq<Event>, f: Files, ids: seq<nat>, t: Name)
    requires AllRows(es, ids)
    requires forall k :: 0 <= k < |ids| ==> es[ids[k]].table in f.current
    requires forall k :: 0 <= k < |ids| && es[ids[k]].table == t ==> es[ids[k]].text == ""
    requires FilesOk(f)
    ensures WriteAll(es, Open(f, t), ids) == Open(WriteAll(es, f, ids), t)
    decreases |ids|
  {
    if ids != [] {
      var e := es[ids[0]];
      WriteOpenCommutes(f, t, e.table, e.text);
      OpenCommutes(es, Write(f, e.table, e.text), ids[1..], t);
    }
  }

  lemma {:induction false} SequentialOk(es: seq<Event>)
    ensures FilesOk(Sequential(es))
    decreases |es|
  {
    if es != [] {
      SequentialOk(es[..|es| - 1]);
    }
  }

  lemma SequentialNext(es: seq<Event>, p: nat)
    requires p < |es|
    ensures Sequential(es[..p + 1]) == Apply(Sequential(es[..p]), es[p])
  {
    assert es[..p + 1][..p] == es[..p];
  }

  // ---------- every step ----------

  /** The statement at hand opens a new file for a table that still has rows on the way. */
  ghost predicate Overtakes(es: seq<Event>, s: State) {
    && s.pos < |es| && es[s.pos].Query? && !Skipped(es[s.pos].query) && es[s.pos].ddl.Opens?
    && exists i :: i in Pending(s) && i < |es| && es[i].Rows? && es[i].table == es[s.pos].ddl.table && es[i].text != ""
  }

  lemma SubmitStep(es: seq<Event>, s: State, t: State)
    requires Inv(es, s) && Submit(es, s, t)
    ensures Inv(es, t) && (Faithful(es, s) ==> Faithful(es, t))
  {
    var i := s.pos;
    SequentialNext(es, i);
    assert Pending(t) == Pending(s) + [i];
    forall k | 0 <= k < |Pending(t)|
      ensures Known(es, t, Pending(t)[k])
    {
      if k < |Pending(s)| {
        assert Known(es, s, Pending(s)[k]);
      }
    }
    WriteAllAppend(es, s.files, Pending(s), i);
    WriteAllKeeps(es, s.files, Pending(s));
  }

  lemma HandOverStep(es: seq<Event>, s: State, t: State)
    requires Inv(es, s) && HandOver(s, t)
    ensures Inv(es, t) && Pending(t) == Pending(s)
  {
    ConcatAppend(s.backQueue, s.batch);
    var front := if s.backBatch.Some? then s.backBatch.value else [];
    assert Pending(t) == front + (Concat(s.backQueue) + s.batch) + [] == Pending(s);
    forall k | 0 <= k < |Pending(t)|
      ensures Known(es, t, Pending(t)[k])
    {
      assert Known(es, s, Pending(s)[k]);
    }
  }

  lemma {:induction false} CurrentGrows(es: seq<Event>, i: nat, p: nat)
    requires i <= p <= |es|
    ensures forall t :: t in Sequential(es[..i]).current ==>
              t in Sequential(es[..p]).current && Sequential(es[..i]).current[t] <= Sequential(es[..p]).current[t]
    decreases p
  {
    if i < p {
      CurrentGrows(es, i, p - 1);
      SequentialNext(es, p - 1);
    }
  }

  /** A pending row always has a writer. */
  lemma PendingDeclared(es: seq<Event>, s: State, j: nat)
    requires Declared(es) && Inv(es, s) && j in Pending(s)
    ensures es[j].table in s.files.current
  {
    assert Known(es, s, j);
    CurrentGrows(es, j, s.pos);
  }

  lemma RunQueryKeeps(es: seq<Event>, s: State, t: State)
    requires Inv(es, s) && RunQuery(es, s, t)
    ensures Inv(es, t) && Pending(t) == Pending(s)
  {
    SequentialNext(es, s.pos);
    assert Pending(t) == Pending(s);
    forall k | 0 <= k < |Pending(t)|
      ensures Known(es, t, Pending(t)[k])
    {
      assert Known(es, s, Pending(s)[k]);
    }
  }

  lemma NotOvertaken(es: seq<Event>, s: State, k: nat)
    requires Declared(es) && Inv(es, s) && !Overtakes(es, s) && k < |Pending(s)|
    requires s.pos < |es| && es[s.pos].Query? && !Skipped(es[s.pos].query) && es[s.pos].ddl.Opens?
    ensures Pending(s)[k] < |es| && es[Pending(s)[k]].Rows? && es[Pending(s)[k]].table in s.files.current
    ensures es[Pending(s)[k]].table == es[s.pos].ddl.table ==> es[Pending(s)[k]].text == ""
  {
    assert Known(es, s, Pending(s)[k]);
    PendingDeclared(es, s, Pending(s)[k]);
  }

  lemma ExecuteCommutes(es: seq<Event>, f: Files, ids: seq<nat>, p: nat)
    requires p < |es| && es[p].Query? && AllRows(es, ids) && FilesOk(f)
    requires WriteAll(es, f, ids) == Sequential(es[..p])
    requires !Skipped(es[p].query) && es[p].ddl.Opens? ==> forall k :: 0 <= k < |ids| ==>
               es[ids[k]].table in f.current && (es[ids[k]].table == es[p].ddl.table ==> es[ids[k]].text == "")
    ensures WriteAll(es, Execute(f, es[p]), ids) == Sequential(es[..p + 1])
  {
    SequentialNext(es, p);
    if !Skipped(es[p].query) && es[p].ddl.Opens? {
      OpenCommutes(es, f, ids, es[p].ddl.table);
    }
  }

  lemma RunQueryStep(es: seq<Event>, s: State, t: State)
    requires Declared(es) && Inv(es, s) && RunQuery(es, s, t)
    requires Inv(es, t) && Pending(t) == Pending(s)
    requires Faithful(es, s) && !Overtakes(es, s)
    ensures Faithful(es, t)
  {
    PendingRows(es, s);
    if !Skipped(es[s.pos].query) && es[s.pos].ddl.Opens? {
      NoneOvertaken(es, s);
    }
    ExecuteCommutes(es, s.files, Pending(s), s.pos);
  }

  lemma PendingRows(es: seq<Event>, s: State)
    requires Inv(es, s)
    ensures AllRows(es, Pending(s))
  {
    forall k | 0 <= k < |Pending(s)|
      ensures Pending(s)[k] < |es| && es[Pending(s)[k]].Rows?
    {
      assert Known(es, s, Pending(s)[k]);
    }
  }

  lemma NoneOvertaken(es: seq<Event>, s: State)
    requires Declared(es) && Inv(es, s) && !Overtakes(es, s) && AllRows(es, Pending(s))
    requires s.pos < |es| && es[s.pos].Query? && !Skipped(es[s.pos].query) && es[s.pos].ddl.Opens?
    ensures forall k :: 0 <= k < |Pending(s)| ==>
              && es[Pending(s)[k]].table in s.files.current
              && (es[Pending(s)[k]].table == es[s.pos].ddl.table ==> es[Pending(s)[k]].text == "")
  {
    forall k | 0 <= k < |Pending(s)|
      ensures es[Pending(s)[k]].table in s.files.current
      ensures es[Pending(s)[k]].table == es[s.pos].ddl.table ==> es[Pending(s)[k]].text == ""
    {
      NotOvertaken(es, s, k);
    }
  }

  /** The steps that touch neither the files nor what is pending. */
  lemma QuietStep(es: seq<Event>, s: State, t: State)
    requires Inv(es, s)
    requires MeetQuery(es, s, t) || AwaitParse(s, t) || Finish(es, s, t) || Take(s, t) ||
             (exists i :: i in s.running && Parse(s, t, i))
    ensures Inv(es, t) && Pending(t) == Pending(s) && t.files == s.files && t.pos == s.pos
  {
    assert Pending(t) == Pending(s);
    forall k | 0 <= k < |Pending(t)|
      ensures Known(es, t, Pending(t)[k])
    {
      var j := Pending(s)[k];
      assert Known(es, s, j);
      if Take(s, t) && j in s.queue {
        assert j == s.queue[0] || j in s.queue[1..];
      }
    }
  }

  lemma BatchStep(es: seq<Event>, s: State, t: State)
    requires Inv(es, s) && (TakeBatch(s, t) || EndBatch(s, t))
    ensures Inv(es, t) && Pending(t) == Pending(s) && t.files == s.files && t.pos == s.pos
  {
    if TakeBatch(s, t) {
      assert Concat(s.backQueue) == s.backQueue[0] + Concat(s.backQueue[1..]);
    }
    forall k | 0 <= k < |Pending(t)|
      ensures Known(es, t, Pending(t)[k])
    {
      assert Known(es, s, Pending(s)[k]);
    }
  }

  /** A row is written, or the rest of its batch is given up. */
  lemma WriteOnePending(es: seq<Event>, s: State, t: State) returns (n: nat)
    requires WriteOne(es, s, t)
    ensures n <= |Pending(s)| && Pending(t) == Pending(s)[n..]
    ensures t.backBatch.Some? ==> n == 1
  {
    var front, rest := s.backBatch.value, Concat(s.backQueue) + s.batch;
    assert Pending(s) == front + rest;
    n := if t.backBatch.Some? then 1 else |front|;
    assert Pending(t) == front[n..] + rest;
  }

  lemma WriteOneStep(es: seq<Event>, s: State, t: State)
    requires Inv(es, s) && WriteOne(es, s, t)
    ensures Inv(es, t)
    ensures Declared(es) && Faithful(es, s) ==> Faithful(es, t)
  {
    var n := WriteOnePending(es, s, t);
    forall k | 0 <= k < |Pending(t)|
      ensures Known(es, t, Pending(t)[k])
    {
      assert Known(es, s, Pending(s)[n + k]);
    }
    if Declared(es) {
      assert Pending(s)[0] == s.backBatch.value[0];
      PendingDeclared(es, s, s.backBatch.value[0]);
    }
  }
}
