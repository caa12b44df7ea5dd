/** A worker's whole run over the states of one table: per state a statement, then the rows of both sources. */
module Runs {
  import opened Text
  import opened Merge
  import opened MergeTheorems
  import opened Schema
  import opened Statements
  import opened SchemaTheorems

  datatype Stage = Stage(st: Statement, rs: seq<Record>)

  function EmptyTable(hash: seq<string> -> int): Table {
    Table(hash, [], None, [], [])
  }

  /** CREATE counts only in state 0. */
  function Trace(t: Table, i: nat, st: Statement): Result<Table>
    requires i == 0 || !st.CreateTable? ==> Fits(t, st)
  {
    if st.CreateTable? && i != 0 then Ok(t) else Fill(t, st)
  }

  predicate StageFits(t: Table, i: nat, stage: Stage) {
    && (i == 0 || !stage.st.CreateTable? ==> Fits(t, stage.st))
    && (i == 0 ==> stage.st.CreateTable?)
    && match Trace(t, i, stage.st)
       case Err(_) => true
       case Ok(t1) => (t1.indexs != [] ==> t1.upd.Some?) && forall j :: 0 <= j < |stage.rs| ==>
         |stage.rs[j].vals| == |t1.cols|
  }

  function Step(t: Table, i: nat, stage: Stage): Result<Table>
    requires StageFits(t, i, stage)
  {
    match Trace(t, i, stage.st)
    case Err(m) => Err(m)
    case Ok(t1) => InsertRows(t1, stage.rs)
  }

  predicate RunFits(hash: seq<string> -> int, stages: seq<Stage>)
    decreases |stages|, 0
  {
    stages == [] ||
    var n := |stages| - 1;
    RunFits(hash, stages[..n]) &&
    (Run(hash, stages[..n]).Ok? ==> StageFits(Run(hash, stages[..n]).value, n, stages[n]))
  }

  function Run(hash: seq<string> -> int, stages: seq<Stage>): Result<Table>
    requires RunFits(hash, stages)
    decreases |stages|, 1
  {
    if stages == [] then Ok(EmptyTable(hash))
    else
      var n := |stages| - 1;
      match Run(hash, stages[..n])
      case Err(m) => Err(m)
      case Ok(t) => Step(t, n, stages[n])
  }

  /** No two rows of the run share source and stamp. */
  ghost predicate IdsApart(stages: seq<Stage>) {
    forall i, j, a, b | 0 <= i < |stages| && 0 <= j < |stages| && a in stages[i].rs && b in stages[j].rs ::
      a.source == b.source && a.stamp == b.stamp ==> i == j && a == b
  }

  /** The row r carries the name of a row of the run. */
  ghost predicate Known(stages: seq<Stage>, r: Record) {
    exists i, a :: 0 <= i < |stages| && a in stages[i].rs && a.source == r.source && a.stamp == r.stamp
  }

  ghost predicate AllKnown(stages: seq<Stage>, t: Table) {
    forall r :: r in Live(t.slots) ==> Known(stages, r)
  }

  lemma InsertAllJoins(rule: Rule, slots: Slots, rs: seq<Record>, qs: seq<Record>)
    ensures InsertAll(rule, InsertAll(rule, slots, rs), qs) == InsertAll(rule, slots, rs + qs)
    decreases |qs|
  {
    if qs == [] {
      assert rs + qs == rs;
    } else {
      InsertAllJoins(rule, slots, rs, qs[..|qs| - 1]);
      LastOfBoth(rs, qs);
    }
  }

  lemma LastOfBoth(rs: seq<Record>, qs: seq<Record>)
    requires qs != []
    ensures rs + qs != [] && (rs + qs)[|rs + qs| - 1] == qs[|qs| - 1]
    ensures (rs + qs)[..|rs + qs| - 1] == rs + qs[..|qs| - 1]
  {
  }

  /** A statement neither adds nor renames rows. */
  lemma TraceNames(t: Table, i: nat, st: Statement, r: Record)
    requires WellFormed(t) && (i == 0 || !st.CreateTable? ==> Fits(t, st)) && Trace(t, i, st).Ok?
    requires r in Live(Trace(t, i, st).value.slots)
    ensures exists s :: s in Live(t.slots) && s.source == r.source && s.stamp == r.stamp
  {
    if st.CreateTable? && i != 0 {
    } else {
      FillNames(t, st, r);
    }
  }

  lemma FillNames(t: Table, st: Statement, r: Record)
    requires WellFormed(t) && Fits(t, st) && Fill(t, st).Ok? && r in Live(Fill(t, st).value.slots)
    ensures exists s :: s in Live(t.slots) && s.source == r.source && s.stamp == r.stamp
  {
    match st
    case CreateTable(_, cols, indexs) => CreateEmpty(t, st);
    case AddCol(col, after) => AddColNames(t, col.Column(), after, r);
    case Nothing =>
    case DropCol(colName) =>
      var p := FindCol(t.cols, colName).value;
      ShrinkIndexFits(t, p);
      FinishDropFits(ShrinkIndex(t, p), p);
    case DropIndex(isPrimary, indexName) => DropUniqueIndexFits(t, isPrimary, false, indexName);
    case AddIndex(isPrimary, indexName, keys) =>
      AddUniqueIndexFits(t, if isPrimary then "" else indexName, keys, isPrimary);
    case ChangeCol(col, prevName) =>
  }

  lemma AddColNames(t: Table, c: Column, after: Option<string>, r: Record)
    requires WellFormed(t) && AddColumn(t, c, after).Ok? && r in Live(AddColumn(t, c, after).value.slots)
    ensures exists s :: s in Live(t.slots) && s.source == r.source && s.stamp == r.stamp
  {
    var p := PlaceAfter(t.cols, after).value;
    PlaceColumnFits(t, c, p);
    RenewNames(PlaceColumn(t, c, p), r);
    PlaceNames(t, c, p, r);
  }

  lemma RenewNames(t: Table, r: Record)
    requires WellFormed(t) && (t.indexs != [] ==> HasUpd(t)) && r in Live(RenewTemporary(t).slots)
    ensures r in Live(t.slots)
  {
    if t.indexs != [] && t.indexs[0].isTemp {
      DropUniqueIndexFits(t, false, true, "");
    }
  }

  lemma PlaceNames(t: Table, c: Column, p: nat, r: Record)
    requires WellFormed(t) && p <= |t.cols| && r in Live(PlaceColumn(t, c, p).slots)
    ensures exists s :: s in Live(t.slots) && s.source == r.source && s.stamp == r.stamp
  {
    PlaceColumnFits(t, c, p);
  }

  lemma CreateEmpty(t: Table, st: Statement)
    requires WellFormed(t) && st.CreateTable? && Fits(t, st)
    ensures Fill(t, st).value.slots == []
  {
    FillColumnsFits(t, st.cols);
    var t1 := FillColumns(t, st.cols);
    FillColumnsEmpty(t, st.cols);
    if st.indexs != [] {
      FillIndexsFits(t1, st.indexs);
    }
  }

  lemma {:induction false} FillColumnsEmpty(t: Table, cols: seq<ColumnStatement>)
    requires t.slots == [] && t.indexs == []
    ensures FillColumns(t, cols).slots == []
    decreases |cols|
  {
    if cols != [] {
      FillColumnsEmpty(t, cols[..|cols| - 1]);
    }
  }

  /** After every state the table is well formed, has exactly one key, and holds only rows it was given. */
  lemma {:induction false} RunWellFormed(hash: seq<string> -> int, stages: seq<Stage>)
    requires RunFits(hash, stages) && IdsApart(stages) && Run(hash, stages).Ok?
    ensures WellFormed(Run(hash, stages).value)
    ensures stages != [] ==> |Run(hash, stages).value.indexs| == 1
    ensures AllKnown(stages, Run(hash, stages).value)
    decreases |stages|
  {
    if stages != [] {
      var n := |stages| - 1;
      var init, last := stages[..n], stages[n];
      assert forall i :: 0 <= i < n ==> init[i] == stages[i];
      RunWellFormed(hash, init);
      StepWellFormed(Run(hash, init).value, stages);
    }
  }

  /** One state on top of the states before it. */
  lemma StepWellFormed(t: Table, stages: seq<Stage>)
    requires stages != [] && IdsApart(stages) && WellFormed(t) && StageFits(t, |stages| - 1, stages[|stages| - 1])
    requires AllKnown(stages[..|stages| - 1], t)
    requires Step(t, |stages| - 1, stages[|stages| - 1]).Ok?
    ensures var r := Step(t, |stages| - 1, stages[|stages| - 1]).value;
            WellFormed(r) && |r.indexs| == 1 && AllKnown(stages, r)
    ensures var t1 := Trace(t, |stages| - 1, stages[|stages| - 1].st).value;
            WellFormed(t1) && Coherent(Live(t1.slots) + ToSet(stages[|stages| - 1].rs))
  {
    var n := |stages| - 1;
    var last := stages[n];
    var t1 := Trace(t, n, last.st).value;
    TraceWellFormed(t, stages);
    InsertRowsFits(t1, last.rs);
    forall s | s in ToSet(last.rs)
      ensures Known(stages, s)
    {
      assert s in stages[n].rs;
    }
  }

  lemma TraceWellFormed(t: Table, stages: seq<Stage>)
    requires stages != [] && IdsApart(stages) && WellFormed(t) && StageFits(t, |stages| - 1, stages[|stages| - 1])
    requires AllKnown(stages[..|stages| - 1], t)
    requires Trace(t, |stages| - 1, stages[|stages| - 1].st).Ok?
    ensures var t1 := Trace(t, |stages| - 1, stages[|stages| - 1].st).value;
            && WellFormed(t1) && Coherent(Live(t1.slots) + ToSet(stages[|stages| - 1].rs))
            && AllKnown(stages, t1)
  {
    var n := |stages| - 1;
    var last := stages[n];
    var t1 := Trace(t, n, last.st).value;
    if !(last.st.CreateTable? && n != 0) {
      FillFits(t, last.st);
    }
    forall s | s in Live(t1.slots)
      ensures Known(stages, s) && forall b :: b in last.rs ==> b.source != s.source || b.stamp != s.stamp
    {
      TraceNames(t, n, last.st, s);
      NewNames(stages, s);
    }
    CoherentUnion(Live(t1.slots), last.rs, stages);
  }

  lemma NewNames(stages: seq<Stage>, s: Record)
    requires stages != [] && IdsApart(stages) && Known(stages[..|stages| - 1], s)
    ensures Known(stages, s)
    ensures forall b :: b in stages[|stages| - 1].rs ==> b.source != s.source || b.stamp != s.stamp
  {
    var n := |stages| - 1;
    var i, a :| 0 <= i < n && a in stages[..n][i].rs && a.source == s.source && a.stamp == s.stamp;
    assert a in stages[i].rs;
  }

  lemma CoherentUnion(S: set<Record>, rs: seq<Record>, stages: seq<Stage>)
    requires Coherent(S) && IdsApart(stages) && stages != [] && rs == stages[|stages| - 1].rs
    requires forall s, b :: s in S && b in rs ==> b.source != s.source || b.stamp != s.stamp
    ensures Coherent(S + ToSet(rs))
  {
    forall a, b | a in ToSet(rs) && b in ToSet(rs) && a.source == b.source && a.stamp == b.stamp
      ensures a == b
    {
      assert a in stages[|stages| - 1].rs && b in stages[|stages| - 1].rs;
    }
  }

  /**
   What a run leaves behind depends, state by state, only on which rows were delivered: the order within
   a source and the interleaving of the two sources do not matter.
   */
  lemma {:induction false} RunOrderIrrelevant(hash: seq<string> -> int, p: seq<Stage>, q: seq<Stage>)
    requires |p| == |q| && forall i :: 0 <= i < |p| ==> p[i].st == q[i].st && ToSet(p[i].rs) == ToSet(q[i].rs)
    requires RunFits(hash, p) && IdsApart(p)
    ensures RunFits(hash, q) && (Run(hash, p).Ok? <==> Run(hash, q).Ok?)
    ensures Run(hash, p).Ok? ==> Alike(Run(hash, p).value, Run(hash, q).value)
    decreases |p|
  {
    SameIdsApart(p, q);
    if p != [] {
      var n := |p| - 1;
      var p0, q0 := p[..n], q[..n];
      assert forall i :: 0 <= i < n ==> p0[i] == p[i] && q0[i] == q[i];
      RunOrderIrrelevant(hash, p0, q0);
      if Run(hash, p0).Ok? {
        RunExtend(hash, p, q);
      }
    }
  }

  lemma BeforeLast(hash: seq<string> -> int, p: seq<Stage>)
    requires p != [] && IdsApart(p) && RunFits(hash, p[..|p| - 1]) && Run(hash, p[..|p| - 1]).Ok?
    ensures WellFormed(Run(hash, p[..|p| - 1]).value)
    ensures AllKnown(p[..|p| - 1], Run(hash, p[..|p| - 1]).value)
  {
    assert forall i :: 0 <= i < |p| - 1 ==> p[..|p| - 1][i] == p[i];
    RunWellFormed(hash, p[..|p| - 1]);
  }

  lemma RunExtend(hash: seq<string> -> int, p: seq<Stage>, q: seq<Stage>)
    requires p != [] && |p| == |q| && IdsApart(p) && IdsApart(q)
    requires p[|p| - 1].st == q[|p| - 1].st && ToSet(p[|p| - 1].rs) == ToSet(q[|p| - 1].rs)
    requires RunFits(hash, p) && RunFits(hash, q[..|p| - 1]) && Run(hash, p[..|p| - 1]).Ok? &&
             Run(hash, q[..|p| - 1]).Ok?
    requires Alike(Run(hash, p[..|p| - 1]).value, Run(hash, q[..|p| - 1]).value)
    ensures RunFits(hash, q) && (Run(hash, p).Ok? <==> Run(hash, q).Ok?)
    ensures Run(hash, p).Ok? ==> Alike(Run(hash, p).value, Run(hash, q).value)
  {
    var n := |p| - 1;
    BeforeLast(hash, p);
    BeforeLast(hash, q);
    StepAlike(Run(hash, p[..n]).value, Run(hash, q[..n]).value, p, q);
  }

  lemma SameIdsApart(p: seq<Stage>, q: seq<Stage>)
    requires |p| == |q| && IdsApart(p) && forall i :: 0 <= i < |p| ==> ToSet(p[i].rs) == ToSet(q[i].rs)
    ensures IdsApart(q)
  {
    forall i, a | 0 <= i < |q| && a in q[i].rs
      ensures a in p[i].rs
    {
      assert a in ToSet(q[i].rs);
    }
  }

  lemma StepAlike(t: Table, u: Table, p: seq<Stage>, q: seq<Stage>)
    requires p != [] && |p| == |q| && IdsApart(p) && IdsApart(q) && WellFormed(t) && WellFormed(u) && Alike(t, u)
    requires p[|p| - 1].st == q[|p| - 1].st && ToSet(p[|p| - 1].rs) == ToSet(q[|p| - 1].rs)
    requires AllKnown(p[..|p| - 1], t) && AllKnown(q[..|p| - 1], u)
    requires StageFits(t, |p| - 1, p[|p| - 1])
    ensures StageFits(u, |p| - 1, q[|p| - 1])
    ensures Step(t, |p| - 1, p[|p| - 1]).Ok? <==> Step(u, |p| - 1, q[|p| - 1]).Ok?
    ensures Step(t, |p| - 1, p[|p| - 1]).Ok? ==>
              Alike(Step(t, |p| - 1, p[|p| - 1]).value, Step(u, |p| - 1, q[|p| - 1]).value)
  {
    var n := |p| - 1;
    var last := p[n];
    if !(last.st.CreateTable? && n != 0) {
      FillAlike(t, u, last.st);
    }
    forall j | 0 <= j < |q[n].rs|
      ensures q[n].rs[j] in last.rs
    {
      assert q[n].rs[j] in ToSet(q[n].rs);
    }
    if Step(t, n, last).Ok? {
      StepWellFormed(t, p);
      StepWellFormed(u, q);
      var t1, u1 := Trace(t, n, last.st).value, Trace(u, n, last.st).value;
      InsertOrderIrrelevant(t1.RuleOf(t1.indexs[0]), t1.slots, u1.slots, last.rs, q[n].rs);
    }
  }
}
