/** Which statements of a run lose rows that the key after them would keep apart, and a run that loses one. */
module MergedLoss {
  import opened Text
  import opened Merge
  import opened MergeTheorems
  import opened Schema
  import opened Statements
  import opened SchemaTheorems
  import opened Runs
  import opened KeyChanges
  import opened MergedRuns

  /**
   After a run that parted nothing, a statement without rows leaves the maxima of everything delivered exactly when it
   parts nothing either.
   */
  lemma LastStatement(hash: seq<string> -> int, stages: seq<Stage>, k: nat)
    requires |stages| > 1 && k < |stages| && RunFits(hash, stages) && IdsApart(stages) && Injective(hash)
    requires Run(hash, stages).Ok? && NothingParted(hash, stages[..|stages| - 1], k)
    requires AltersOnly(Earlier(hash, stages), stages[|stages| - 1])
    ensures Merged(Run(hash, stages).value, Carried(hash, stages, k)) <==>
            !Parts(Earlier(hash, stages), stages[|stages| - 1].st, Carried(hash, stages[..|stages| - 1], k))
  {
    LastStep(hash, stages);
    BeforeStatement(hash, stages, k);
    WithoutRows(Earlier(hash, stages), |stages| - 1, stages[|stages| - 1]);
    ExactlyMerged(Earlier(hash, stages), stages[|stages| - 1].st, Carried(hash, stages[..|stages| - 1], k));
    CarriedLayout(hash, stages, k);
  }

  /** A state without rows, whose statement leaves `updated_at` alone. */
  predicate AltersOnly(t: Table, stage: Stage) {
    !stage.st.CreateTable? && stage.rs == [] && |t.indexs| == 1 && HasUpd(t) && LeavesUpd(t, stage.st)
  }

  lemma WithoutRows(t: Table, n: nat, stage: Stage)
    requires StageFits(t, n, stage) && AltersOnly(t, stage) && Step(t, n, stage).Ok?
    ensures Fits(t, stage.st) && Fill(t, stage.st) == Step(t, n, stage)
  {
  }

  lemma CarriedLayout(hash: seq<string> -> int, stages: seq<Stage>, k: nat)
    requires k < |stages| && RunFits(hash, stages) && Run(hash, stages).Ok? && stages[|stages| - 1].rs == []
    ensures var n := |stages| - 1;
            Carried(hash, stages, k) ==
              Image(Layout(Earlier(hash, stages), stages[n].st), Carried(hash, stages[..n], k))
  {
    assert ToSet([]) == {};
  }

  lemma BeforeStatement(hash: seq<string> -> int, stages: seq<Stage>, k: nat)
    requires |stages| > 1 && k < |stages| && RunFits(hash, stages) && IdsApart(stages) && Injective(hash)
    requires Run(hash, stages).Ok? && NothingParted(hash, stages[..|stages| - 1], k)
    ensures var t, C := Earlier(hash, stages), Carried(hash, stages[..|stages| - 1], k);
            WellFormed(t) && TempComplete(t) && t.hash == hash && Merged(t, C) && Coherent(C)
  {
    var n := |stages| - 1;
    FrontApart(stages, n);
    RunWellFormed(hash, stages[..n]);
    MergedSince(hash, stages[..n], k);
    CarriedNames(hash, stages[..n], k);
    RunTempComplete(hash, stages[..n]);
    RunHash(hash, stages[..n]);
  }

  // ---------- every state of a run ----------

  /** From state k on, no statement but the first CREATE touches `updated_at`. */
  ghost predicate UpdLeft(hash: seq<string> -> int, stages: seq<Stage>, k: nat)
    requires RunFits(hash, stages) && Run(hash, stages).Ok? && k <= |stages|
    decreases |stages|
  {
    |stages| == k ||
    var n := |stages| - 1;
    && UpdLeft(hash, stages[..n], k)
    && (n > 0 ==> |Earlier(hash, stages).indexs| == 1 && HasUpd(Earlier(hash, stages))
                  && LeavesUpd(Earlier(hash, stages), stages[n].st))
  }

  /** From state k on, every statement leaves the maxima of what was delivered before it. */
  ghost predicate AlwaysMerged(hash: seq<string> -> int, stages: seq<Stage>, k: nat)
    requires RunFits(hash, stages) && Run(hash, stages).Ok? && k <= |stages|
    decreases |stages|
  {
    |stages| == k ||
    var n := |stages| - 1;
    && AlwaysMerged(hash, stages[..n], k)
    && (n > 0 ==> MergedAfter(Earlier(hash, stages), n, stages[n].st, Carried(hash, stages[..n], k)))
  }

  ghost predicate MergedAfter(t: Table, n: nat, st: Statement, C: set<Record>) {
    && (n == 0 || !st.CreateTable? ==> Fits(t, st)) && Trace(t, n, st).Ok?
    && Merged(Trace(t, n, st).value, Image(Layout(t, st), C))
  }

  lemma MergedAfterExactly(t: Table, n: nat, st: Statement, C: set<Record>)
    requires WellFormed(t) && TempComplete(t) && Injective(t.hash) && Merged(t, C) && Coherent(C)
    requires n > 0 && (!st.CreateTable? ==> Fits(t, st)) && Trace(t, n, st).Ok? && LeavesUpd(t, st)
    ensures MergedAfter(t, n, st, C) <==> PartsNothing(t, st, C)
  {
    if st.CreateTable? {
      ImageSame(C);
    } else {
      ExactlyMerged(t, st, C);
    }
  }

  /** In a run that leaves `updated_at` alone, every statement does so exactly when none parts rows that were merged. */
  lemma {:induction false} ExactlyAlwaysMerged(hash: seq<string> -> int, stages: seq<Stage>, k: nat)
    requires stages != [] && k <= |stages| && RunFits(hash, stages) && IdsApart(stages) && Injective(hash)
    requires Run(hash, stages).Ok? && UpdLeft(hash, stages, k)
    ensures AlwaysMerged(hash, stages, k) <==> NothingParted(hash, stages, k)
    decreases |stages|
  {
    var n := |stages| - 1;
    if |stages| > k && n > 0 {
      FrontApart(stages, n);
      ExactlyAlwaysMerged(hash, stages[..n], k);
      if NothingParted(hash, stages[..n], k) {
        LastStep(hash, stages);
        BeforeStatement(hash, stages, k);
        MergedAfterExactly(Earlier(hash, stages), n, stages[n].st, Carried(hash, stages[..n], k));
      }
    }
  }

  // ---------- an example ----------

  const COLUMNS := [
    ColumnStatement("id", "int", true, None), ColumnStatement("v", "char", false, None),
    ColumnStatement("updated_at", "int", true, None)]
  const CREATED := CreateTable("t", COLUMNS, [IndexStatement("", true, ["id"])])
  const OLD := Record(["1", "a", "1"], 0, 0)
  const NEW := Record(["1", "b", "2"], 0, 1)

  /** Two rows with the same id, and then the primary key is dropped. */
  function ExampleStages(): seq<Stage> {
    [Stage(CREATED, [OLD, NEW]), Stage(DropIndex(true, ""), [])]
  }

  function ExampleColumns(n: nat): seq<Column>
    requires n <= 3
  {
    seq(n, i requires 0 <= i < n => COLUMNS[i].Column())
  }

  lemma NextColumn(hash: seq<string> -> int, n: nat)
    requires n < 3
    ensures PlaceColumn(Table(hash, ExampleColumns(n), None, [], []), COLUMNS[n].Column(), n) ==
              Table(hash, ExampleColumns(n + 1), if n == 2 then Some(2) else None, [], [])
  {
    var t := PlaceColumn(Table(hash, ExampleColumns(n), None, [], []), COLUMNS[n].Column(), n);
    assert t.cols == ExampleColumns(n + 1) && t.slots == [] && t.indexs == [];
    assert COLUMNS[n].name == UPDATED_AT <==> n == 2 by {
      assert |COLUMNS[0].name| == 2 && |COLUMNS[1].name| == 1;
    }
  }

  lemma ExampleFilled(hash: seq<string> -> int)
    ensures FillColumns(EmptyTable(hash), COLUMNS) == Table(hash, ExampleColumns(3), Some(2), [], [])
  {
    var t := EmptyTable(hash);
    assert COLUMNS[..3] == COLUMNS && COLUMNS[..2][..1] == COLUMNS[..1] && COLUMNS[..1][..0] == [];
    assert ExampleColumns(0) == [];
    NextColumn(hash, 0);
    NextColumn(hash, 1);
    NextColumn(hash, 2);
    assert FillColumns(t, COLUMNS[..0]) == t;
    assert FillColumns(t, COLUMNS[..1]) == Table(hash, ExampleColumns(1), None, [], []);
    assert FillColumns(t, COLUMNS[..2]) == Table(hash, ExampleColumns(2), None, [], []);
  }

  /** The table that CREATE makes. */
  function ExampleTable(hash: seq<string> -> int): Table {
    Table(hash, ExampleColumns(3), Some(2), [Index("", true, false, [0])], [])
  }

  lemma OneKey(t: Table, name: string, p: nat)
    requires FindCol(t.cols, name) == Some(p)
    ensures KeysKnown(t, [name]) && FindAll(t.cols, [name]) == Some([p])
  {
    assert [name][..0] == [] && FindAll(t.cols, [name][..0]) == Some([]);
    assert [p] == [] + [p];
  }

  lemma ExampleCreated(hash: seq<string> -> int)
    ensures Fits(EmptyTable(hash), CREATED) && Fill(EmptyTable(hash), CREATED) == Ok(ExampleTable(hash))
  {
    ExampleFilled(hash);
    var t := Table(hash, ExampleColumns(3), Some(2), [], []);
    assert t.cols[0] == COLUMNS[0].Column();
    assert FindCol(t.cols, "id") == Some(0);
    OneKey(t, "id", 0);
    ExampleIndexed(t);
  }

  lemma ExampleIndexed(t: Table)
    requires t.indexs == [] && t.slots == [] && t.upd.Some?
    requires KeysKnown(t, ["id"]) && FindAll(t.cols, ["id"]) == Some([0])
    ensures FillIndexs(t, CREATED.indexs) == t.(indexs := [Index("", true, false, [0])])
  {
    assert CREATED.indexs[..0] == [] && FillIndexs(t, CREATED.indexs[..0]) == t;
    assert [] + [Index("", true, false, [0])] == [Index("", true, false, [0])];
  }

  lemma TwoRows()
    ensures ToSet([OLD, NEW]) == {OLD, NEW}
  {
    assert [OLD, NEW][0] == OLD && [OLD, NEW][1] == NEW;
  }

  function FirstStage(): seq<Stage> {
    [Stage(CREATED, [OLD, NEW])]
  }

  lemma ExampleFirst(hash: seq<string> -> int)
    ensures RunFits(hash, FirstStage()) && Run(hash, FirstStage()).Ok?
    ensures Run(hash, FirstStage()).value.(slots := []) == ExampleTable(hash)
  {
    var stages := FirstStage();
    assert stages[..0] == [] && Run(hash, []) == Ok(EmptyTable(hash));
    ExampleCreated(hash);
    ExampleStep(hash);
  }

  lemma ExampleStep(hash: seq<string> -> int)
    requires Fits(EmptyTable(hash), CREATED) && Trace(EmptyTable(hash), 0, CREATED) == Ok(ExampleTable(hash))
    ensures StageFits(EmptyTable(hash), 0, FirstStage()[0])
    ensures Step(EmptyTable(hash), 0, FirstStage()[0]) == InsertRows(ExampleTable(hash), [OLD, NEW])
  {
    forall j | 0 <= j < 2
      ensures |[OLD, NEW][j].vals| == 3
    {
    }
  }

  lemma ExampleCarried(hash: seq<string> -> int)
    requires RunFits(hash, FirstStage()) && Run(hash, FirstStage()).Ok?
    ensures Carried(hash, FirstStage(), 0) == {OLD, NEW}
  {
    var stages := FirstStage();
    assert stages[..0] == [] && Live(EmptyTable(hash).slots) == {} && Carried(hash, stages[..0], 0) == {};
    assert Image(Layout(EmptyTable(hash), CREATED), {}) == {};
    TwoRows();
  }

  lemma ExampleApart(stages: seq<Stage>)
    requires stages == ExampleStages() || stages == FirstStage()
    ensures IdsApart(stages)
  {
    assert forall i :: 0 < i < |stages| ==> stages[i].rs == [];
    assert forall a :: a in stages[0].rs <==> a in [OLD, NEW];
  }

  /** After the first state the newer row is the table's only one. */
  lemma ExampleMerged(hash: seq<string> -> int)
    requires Injective(hash)
    requires RunFits(hash, FirstStage()) && Run(hash, FirstStage()).Ok?
    requires Run(hash, FirstStage()).value.(slots := []) == ExampleTable(hash)
    ensures Merged(Run(hash, FirstStage()).value, {OLD, NEW}) && OLD !in Live(Run(hash, FirstStage()).value.slots)
  {
    ExampleApart(FirstStage());
    FirstMerged(hash, FirstStage()[0]);
    ExampleCarried(hash);
    var rule := Rule(hash, [0], 2);
    assert KeyAt([0], OLD) == KeyAt([0], NEW);
    assert At(OLD, 2) == "1" && At(NEW, 2) == "2" && Less("1", "2");
    assert NEW in {OLD, NEW} && rule.Beats(NEW, OLD);
  }

  lemma ExampleTwoStages(hash: seq<string> -> int)
    requires RunFits(hash, FirstStage()) && Run(hash, FirstStage()).Ok?
    requires Run(hash, FirstStage()).value.(slots := []) == ExampleTable(hash)
    ensures RunFits(hash, ExampleStages()) && Run(hash, ExampleStages()).Ok?
    ensures Earlier(hash, ExampleStages()) == Run(hash, FirstStage()).value
    ensures Run(hash, ExampleStages()).value == DropUniqueIndex(Run(hash, FirstStage()).value, true, false, "")
  {
    var stages, t := ExampleStages(), Run(hash, FirstStage()).value;
    assert stages[..1] == FirstStage();
    assert FindIndex(true, false, "", t.indexs) == Some(0);
    assert t.(indexs := RemoveAt(t.indexs, 0)).indexs == [];
  }

  lemma ExampleKeepsBoth(t: Table)
    requires t.upd == Some(2) && t.cols == ExampleColumns(3) && Injective(t.hash)
    ensures HasUpd(t) && OLD in Maxima(t.RuleOf(TempIndex(t)), {OLD, NEW})
  {
    assert t.cols[2] == COLUMNS[2].Column();
    var rule := t.RuleOf(TempIndex(t));
    assert rule.key == [0, 1];
    assert KeyAt([0, 1], OLD)[1] == "a" && KeyAt([0, 1], NEW)[1] == "b";
    BeatsIrreflexive(rule, OLD);
  }

  lemma ExampleDropped(t: Table)
    requires WellFormed(t) && t.(slots := []) == ExampleTable(t.hash) && Injective(t.hash) && OLD !in Live(t.slots)
    ensures HasUpd(t)
    ensures var t1 := DropUniqueIndex(t, true, false, "");
            && |t1.indexs| == 1 && HasUpd(t1) && OLD !in Live(t1.slots)
            && OLD in Maxima(t1.RuleOf(t1.indexs[0]), {OLD, NEW})
  {
    ExampleKeepsBoth(t.(indexs := []));
    DropUniqueIndexKeepsRows(t, true, false, "");
    assert FindIndex(true, false, "", t.indexs) == Some(0);
    assert RemoveAt(t.indexs, 0) == [];
  }

  lemma ExampleDelivered(hash: seq<string> -> int)
    requires RunFits(hash, FirstStage()) && Run(hash, FirstStage()).Ok?
    requires RunFits(hash, ExampleStages()) && Run(hash, ExampleStages()).Ok?
    ensures Carried(hash, ExampleStages(), 0) == {OLD, NEW}
  {
    ExampleCarried(hash);
    CarriedLayout(hash, ExampleStages(), 0);
    assert ExampleStages()[..1] == FirstStage();
    ImageSame({OLD, NEW});
  }

  /** The older row was merged away under the id, and is missing among the best rows of the key that follows. */
  lemma LostByDrop(hash: seq<string> -> int)
    requires Injective(hash)
    ensures RunFits(hash, ExampleStages()) && IdsApart(ExampleStages()) && Run(hash, ExampleStages()).Ok?
    ensures var t := Run(hash, ExampleStages()).value;
            && |t.indexs| == 1 && HasUpd(t) && Carried(hash, ExampleStages(), 0) == {OLD, NEW}
            && OLD in Maxima(t.RuleOf(t.indexs[0]), {OLD, NEW}) && OLD !in Live(t.slots)
  {
    ExampleFirst(hash);
    ExampleTwoStages(hash);
    ExampleMerged(hash);
    ExampleApart(FirstStage());
    ExampleApart(ExampleStages());
    ExampleDelivered(hash);
    RunWellFormed(hash, FirstStage());
    ExampleDropped(Run(hash, FirstStage()).value);
  }
}
