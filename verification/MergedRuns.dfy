/** What a run leaves in the table, in terms of all the rows that were delivered. */
module MergedRuns {
  import opened Text
  import opened Merge
  import opened MergeTheorems
  import opened Schema
  import opened Statements
  import opened SchemaTheorems
  import opened Runs
  import opened KeyChanges

  // ---------- rows carried through a change of columns ----------

  /** What a statement does to the layout of a row. */
  function Layout(t: Table, st: Statement): Record -> Record {
    match st
    case AddCol(col, after) =>
      (match PlaceAfter(t.cols, after) case None => Same() case Some(p) => Widen(p, Default(col.Column())))
    case DropCol(name) => (match FindCol(t.cols, name) case None => Same() case Some(p) => Narrow(p))
    case _ => Same()
  }

  function Same(): Record -> Record {
    (r: Record) => r
  }

  /** The statement puts a key with more columns in the place of a key that has already merged rows. */
  predicate Widens(t: Table, st: Statement) {
    match st
    case DropIndex(isPrimary, name) =>
      var k := FindIndex(isPrimary, false, name, t.indexs);
      k.Some? && !t.indexs[k.value].isTemp
    case DropCol(name) =>
      var p := FindCol(t.cols, name);
      p.Some? && |t.indexs| == 1 && RemoveValue(t.indexs[0].cols, p.value) == []
    case _ => false
  }

  /** The statement leaves `updated_at` alone: it adds no second one, takes it into no key, and drops no key with it. */
  predicate LeavesUpd(t: Table, st: Statement)
    requires t.upd.Some?
  {
    match st
    case AddCol(col, _) => col.name != UPDATED_AT
    case AddIndex(_, _, keys) => FindAll(t.cols, keys).Some? ==> t.upd.value !in FindAll(t.cols, keys).value
    case DropIndex(_, _) => Widens(t, st) && |t.indexs| == 1 ==> t.upd.value !in t.indexs[0].cols
    case _ => true
  }

  ghost predicate Wide(t: Table, C: set<Record>) {
    forall r :: r in C ==> |r.vals| == |t.cols|
  }

  /** The table's rows are the best of C under its only key. */
  ghost predicate Merged(t: Table, C: set<Record>) {
    && |t.indexs| == 1 && HasUpd(t) && Wide(t, C)
    && Live(t.slots) == Maxima(t.RuleOf(t.indexs[0]), C)
  }

  // ---------- maxima through a change of layout ----------

  /** Through f, `there` tells rows of C apart, and ranks them, just as `here` does. */
  ghost predicate Alongside(f: Record -> Record, here: Rule, there: Rule, C: set<Record>) {
    forall a, b :: a in C && b in C ==> AlongsideAt(f, here, there, a, b)
  }

  ghost predicate AlongsideAt(f: Record -> Record, here: Rule, there: Rule, a: Record, b: Record) {
    && (there.Hash(f(a)) == there.Hash(f(b)) <==> here.Hash(a) == here.Hash(b))
    && there.Beats(f(a), f(b)) == here.Beats(a, b)
  }

  lemma ImageMaxima(f: Record -> Record, here: Rule, there: Rule, C: set<Record>)
    requires Alongside(f, here, there, C)
    ensures Maxima(there, Image(f, C)) == Image(f, Maxima(here, C))
  {
    forall m | m in Maxima(there, Image(f, C))
      ensures m in Image(f, Maxima(here, C))
    {
      var a :| a in C && f(a) == m;
      forall b | b in C && here.Hash(b) == here.Hash(a)
        ensures !here.Beats(b, a)
      {
        assert AlongsideAt(f, here, there, b, a) && f(b) in Image(f, C);
      }
      assert a in Maxima(here, C);
    }
    forall m | m in Image(f, Maxima(here, C))
      ensures m in Maxima(there, Image(f, C))
    {
      var a :| a in Maxima(here, C) && f(a) == m;
      forall s | s in Image(f, C) && there.Hash(s) == there.Hash(m)
        ensures !there.Beats(s, m)
      {
        var b :| b in C && f(b) == s;
        assert AlongsideAt(f, here, there, b, a);
      }
    }
  }

  lemma ImageSame(C: set<Record>)
    ensures Image(Same(), C) == C
  {
  }

  /** Through f, rows of C that `there` puts together are together under `here`, and both rank rows alike. */
  ghost predicate Finer(f: Record -> Record, here: Rule, there: Rule, C: set<Record>) {
    forall a, b :: a in C && b in C ==> FinerAt(f, here, there, a, b)
  }

  ghost predicate FinerAt(f: Record -> Record, here: Rule, there: Rule, a: Record, b: Record) {
    && (there.Hash(f(a)) == there.Hash(f(b)) ==> here.Hash(a) == here.Hash(b))
    && there.Beats(f(a), f(b)) == here.Beats(a, b)
  }

  ghost predicate Torn(f: Record -> Record, here: Rule, there: Rule, a: Record, b: Record) {
    here.Hash(a) == here.Hash(b) && there.Hash(f(a)) != there.Hash(f(b))
  }

  ghost predicate AnyTorn(f: Record -> Record, here: Rule, there: Rule, C: set<Record>) {
    exists a, b :: a in C && b in C && Torn(f, here, there, a, b)
  }

  /** Where no two rows are torn apart, the best rows are the same; where two are, one of them had been merged away. */
  lemma FinerMaxima(f: Record -> Record, here: Rule, there: Rule, C: set<Record>)
    requires Finer(f, here, there, C) && Coherent(C)
    ensures Image(f, Maxima(here, C)) == Maxima(there, Image(f, C)) <==> !AnyTorn(f, here, there, C)
  {
    if AnyTorn(f, here, there, C) {
      var a, b :| a in C && b in C && Torn(f, here, there, a, b);
      if Image(f, Maxima(here, C)) == Maxima(there, Image(f, C)) {
        var x := Champion(f, here, there, C, a);
        var y := Champion(f, here, there, C, b);
        MaximumUnique(here, C, x, y);
      }
    } else {
      forall a, b | a in C && b in C
        ensures AlongsideAt(f, here, there, a, b)
      {
        assert FinerAt(f, here, there, a, b) && !Torn(f, here, there, a, b);
      }
      ImageMaxima(f, here, there, C);
    }
  }

  lemma Champion(f: Record -> Record, here: Rule, there: Rule, C: set<Record>, a: Record) returns (x: Record)
    requires Finer(f, here, there, C) && a in C
    requires Image(f, Maxima(here, C)) == Maxima(there, Image(f, C))
    ensures x in Maxima(here, C) && there.Hash(f(x)) == there.Hash(f(a)) && here.Hash(x) == here.Hash(a)
  {
    assert f(a) in Image(f, C);
    var m := MaximumExists(there, Image(f, C), f(a));
    x :| x in Maxima(here, C) && f(x) == m;
    assert FinerAt(f, here, there, x, a);
  }

  /** The key covers exactly the columns below n other than upd. */
  predicate Complete(key: seq<int>, n: nat, upd: int) {
    && (forall j :: 0 <= j < |key| ==> 0 <= key[j] < n && key[j] != upd)
    && (forall q :: 0 <= q < n && q != upd ==> q in key)
  }

  ghost predicate Agree(n: nat, upd: int, a: Record, b: Record) {
    forall q :: 0 <= q < n && q != upd ==> At(a, q) == At(b, q)
  }

  /**
   Two rows of C that have been merged into one, or are as the statement begins, are told apart by the key it ends with:
   they differ in a column that stays, other than `updated_at`.
   */
  ghost predicate Parts(t: Table, st: Statement, C: set<Record>)
    requires |t.indexs| == 1 && HasUpd(t)
  {
    match st
    case DropIndex(_, _) => Widens(t, st) && exists a, b :: a in C && b in C && PartsKey(t, a, b)
    case DropCol(name) =>
      Widens(t, st) && exists a, b :: a in C && b in C && PartsRest(t, FindCol(t.cols, name).value, a, b)
    case _ => false
  }

  /** The rows have the same key and different values elsewhere. */
  ghost predicate PartsKey(t: Table, a: Record, b: Record)
    requires |t.indexs| == 1 && t.upd.Some?
  {
    KeyAt(t.indexs[0].cols, a) == KeyAt(t.indexs[0].cols, b) && !Agree(|t.cols|, t.upd.value, a, b)
  }

  /** The rows have different values outside column p. */
  ghost predicate PartsRest(t: Table, p: nat, a: Record, b: Record)
    requires t.upd.Some? && p < |t.cols|
  {
    !Agree(|t.cols| - 1, Down(p, t.upd.value), Narrow(p)(a), Narrow(p)(b))
  }

  lemma CompleteAgree(key: seq<int>, n: nat, upd: int, a: Record, b: Record)
    requires Complete(key, n, upd)
    ensures KeyAt(key, a) == KeyAt(key, b) <==> Agree(n, upd, a, b)
  {
    if KeyAt(key, a) == KeyAt(key, b) {
      SameValues(key, a, b);
    }
    if Agree(n, upd, a, b) {
      assert forall j :: 0 <= j < |key| ==> KeyAt(key, a)[j] == KeyAt(key, b)[j];
    }
  }

  lemma TempIsComplete(t: Table)
    requires HasUpd(t)
    ensures Complete(TempIndex(t).cols, |t.cols|, t.upd.value)
  {
    TempInRange(t);
    forall j | 0 <= j < |TempIndex(t).cols|
      ensures TempIndex(t).cols[j] != t.upd.value
    {
    }
  }

  lemma KeptComplete(t: Table)
    requires TempComplete(t) && |t.indexs| == 1 && t.indexs[0].isTemp
    ensures t.upd.Some? && Complete(t.indexs[0].cols, |t.cols|, t.upd.value)
  {
    assert forall j :: 0 <= j < |t.indexs[0].cols| ==> t.indexs[0].cols[j] in t.indexs[0].cols;
  }

  lemma WidenAgree(n: nat, upd: nat, p: nat, x: string, a: Record, b: Record)
    requires p <= n == |a.vals| == |b.vals|
    ensures Agree(n + 1, Up(p, upd), Widen(p, x)(a), Widen(p, x)(b)) <==> Agree(n, upd, a, b)
  {
    var c, d := Widen(p, x)(a), Widen(p, x)(b);
    assert At(c, p) == At(d, p) == x;
    forall q | 0 <= q < n
      ensures At(c, Up(p, q)) == At(a, q) && At(d, Up(p, q)) == At(b, q)
    {
    }
    if Agree(n + 1, Up(p, upd), c, d) {
      forall q | 0 <= q < n && q != upd
        ensures At(a, q) == At(b, q)
      {
        assert At(c, Up(p, q)) == At(d, Up(p, q));
      }
    }
    if Agree(n, upd, a, b) {
      forall q | 0 <= q < n + 1 && q != Up(p, upd)
        ensures At(c, q) == At(d, q)
      {
        if q != p {
          var r := if q < p then q else q - 1;
          assert q == Up(p, r) && At(a, r) == At(b, r);
        }
      }
    }
  }

  // ---------- each statement ----------

  lemma WidenRanks(p: nat, x: string, here: Rule, there: Rule, a: Record, b: Record)
    requires p <= |a.vals| == |b.vals| && 0 <= here.upd < |a.vals| && there.upd == Up(p, here.upd)
    ensures there.Beats(Widen(p, x)(a), Widen(p, x)(b)) == here.Beats(a, b)
  {
    assert At(Widen(p, x)(a), there.upd) == At(a, here.upd) && At(Widen(p, x)(b), there.upd) == At(b, here.upd);
  }

  lemma AddColMerged(t: Table, col: ColumnStatement, after: Option<string>, C: set<Record>)
    requires WellFormed(t) && TempComplete(t) && Injective(t.hash) && Merged(t, C) && col.name != UPDATED_AT
    requires Fill(t, AddCol(col, after)).Ok?
    ensures Merged(Fill(t, AddCol(col, after)).value, Image(Layout(t, AddCol(col, after)), C))
  {
    var p := PlaceAfter(t.cols, after).value;
    AddColWidens(t, col, after);
    WidenedMerged(t, Fill(t, AddCol(col, after)).value, p, Default(col.Column()), C);
  }

  /** What ADD COLUMN makes of a table: its rows, its key and the place of `updated_at`. */
  ghost predicate Widened(t: Table, t1: Table, p: nat, x: string)
    requires |t.indexs| == 1 && HasUpd(t)
  {
    && p <= |t.cols| && |t1.cols| == |t.cols| + 1 && |t1.indexs| == 1 && t1.hash == t.hash
    && t1.upd == Some(Up(p, t.upd.value)) && HasUpd(t1)
    && Live(t1.slots) == Image(Widen(p, x), Live(t.slots))
    && (if t.indexs[0].isTemp then Complete(t1.indexs[0].cols, |t1.cols|, t1.upd.value)
        else t1.indexs[0].cols == UpAll(p, t.indexs[0].cols))
  }

  lemma WidenedMerged(t: Table, t1: Table, p: nat, x: string, C: set<Record>)
    requires WellFormed(t) && TempComplete(t) && Injective(t.hash) && Merged(t, C) && Widened(t, t1, p, x)
    ensures Merged(t1, Image(Widen(p, x), C))
  {
    var f, here, there := Widen(p, x), t.RuleOf(t.indexs[0]), t1.RuleOf(t1.indexs[0]);
    forall a, b | a in C && b in C
      ensures AlongsideAt(f, here, there, a, b)
    {
      WidenedAlongside(t, t1, p, x, a, b);
    }
    ImageMaxima(f, here, there, C);
  }

  /** Two rows stand to each other as before: in rank, and in whether their keys are the same. */
  lemma WidenedAlongside(t: Table, t1: Table, p: nat, x: string, a: Record, b: Record)
    requires WellFormed(t) && TempComplete(t) && Injective(t.hash) && |t.indexs| == 1 && HasUpd(t)
    requires Widened(t, t1, p, x) && |t.cols| == |a.vals| == |b.vals|
    ensures AlongsideAt(Widen(p, x), t.RuleOf(t.indexs[0]), t1.RuleOf(t1.indexs[0]), a, b)
  {
    var f, here, there := Widen(p, x), t.RuleOf(t.indexs[0]), t1.RuleOf(t1.indexs[0]);
    WidenRanks(p, x, here, there, a, b);
    if t.indexs[0].isTemp {
      KeptComplete(t);
      CompleteAgree(here.key, |t.cols|, t.upd.value, a, b);
      CompleteAgree(there.key, |t1.cols|, t1.upd.value, f(a), f(b));
      WidenAgree(|t.cols|, t.upd.value, p, x, a, b);
    } else {
      assert KeyInRange(t, t.indexs[0]);
      WidenKey(here.key, p, x, a);
      WidenKey(here.key, p, x, b);
    }
  }

  lemma AddColWidens(t: Table, col: ColumnStatement, after: Option<string>)
    requires WellFormed(t) && TempComplete(t) && Injective(t.hash) && |t.indexs| == 1 && HasUpd(t) &&
             col.name != UPDATED_AT
    requires Fill(t, AddCol(col, after)).Ok?
    ensures var p := PlaceAfter(t.cols, after).value;
            Widened(t, Fill(t, AddCol(col, after)).value, p, Default(col.Column()))
  {
    var p := PlaceAfter(t.cols, after).value;
    var c := col.Column();
    var placed := PlaceColumn(t, c, p);
    PlaceColumnFits(t, c, p);
    if t.indexs[0].isTemp {
      AddColumnKeepsRows(t, c, after);
      LiveMap(Widen(p, Default(c)), t.slots);
      assert FindIndex(false, true, "", placed.indexs) == Some(0);
      var t2 := placed.(indexs := RemoveAt(placed.indexs, 0));
      assert t2.indexs == [];
      TempIsComplete(t2);
    }
  }

  lemma NarrowRanks(p: nat, here: Rule, there: Rule, a: Record, b: Record)
    requires p < |a.vals| == |b.vals| && 0 <= here.upd < |a.vals| && here.upd != p && there.upd == Down(p, here.upd)
    ensures there.Beats(Narrow(p)(a), Narrow(p)(b)) == here.Beats(a, b)
  {
    assert At(Narrow(p)(a), there.upd) == At(a, here.upd) && At(Narrow(p)(b), there.upd) == At(b, here.upd);
  }

  lemma DropColMerged(t: Table, name: string, C: set<Record>)
    requires WellFormed(t) && Injective(t.hash) && Merged(t, C) && Fits(t, DropCol(name)) && !Widens(t, DropCol(name))
    requires Fill(t, DropCol(name)).Ok?
    ensures Merged(Fill(t, DropCol(name)).value, Image(Layout(t, DropCol(name)), C))
  {
    var p := FindCol(t.cols, name).value;
    var t1 := ShrinkIndex(t, p);
    var rule, left := t.RuleOf(t.indexs[0]), t1.RuleOf(t1.indexs[0]);
    ShrinkMerged(t, p, C);
    var t2 := FinishDrop(t1, p);
    FinishDropFits(t1, p);
    assert t1.indexs[0].cols != [];
    var there := t2.RuleOf(t2.indexs[0]);
    forall a, b | a in C && b in C
      ensures AlongsideAt(Narrow(p), left, there, a, b)
    {
      NarrowRanks(p, left, there, a, b);
      NarrowKey(left.key, p, a);
      NarrowKey(left.key, p, b);
    }
    ImageMaxima(Narrow(p), left, there, C);
  }

  /** The key gives up a column, if it has it. */
  lemma ShrinkMerged(t: Table, p: nat, C: set<Record>)
    requires WellFormed(t) && Injective(t.hash) && Merged(t, C) && p < |t.cols|
    ensures var t1 := ShrinkIndex(t, p);
            && WellFormed(t1) && Merged(t1, C) && p !in t1.indexs[0].cols && KeyInRange(t1, t1.indexs[0])
            && (RemoveValue(t.indexs[0].cols, p) == [] <==> t1.indexs[0].cols == [])
            && t1.cols == t.cols && t1.upd == t.upd && t1.hash == t.hash
  {
    var t1 := ShrinkIndex(t, p);
    var rule, left := t.RuleOf(t.indexs[0]), t1.RuleOf(t1.indexs[0]);
    ShrinkIndexFits(t, p);
    assert KeyInRange(t, t.indexs[0]);
    DistinctRemove(t.indexs[0].cols, p);
    FewerColumnsRefine(rule, left, C);
    MergeEarly(rule, left, C, {});
    assert Maxima(rule, C) + {} == Maxima(rule, C) && C + {} == C;
    if p !in t.indexs[0].cols {
      RemoveAbsent(t.indexs[0].cols, p);
    }
  }

  lemma AddIndexMerged(t: Table, st: Statement, C: set<Record>)
    requires WellFormed(t) && TempComplete(t) && Injective(t.hash) && Merged(t, C)
    requires st.AddIndex? && Fits(t, st) && LeavesUpd(t, st) && Fill(t, st).Ok?
    ensures Merged(Fill(t, st).value, C)
  {
    var ps := FindAll(t.cols, st.keys).value;
    var fine, coarse := t.RuleOf(t.indexs[0]), Rule(t.hash, ps, t.upd.value);
    KeysInRange(t, st.keys);
    KeptComplete(t);
    assert forall p :: p in ps ==> p in fine.key by {
      forall p | p in ps
        ensures p in fine.key
      {
        var j :| 0 <= j < |ps| && ps[j] == p;
      }
    }
    AddUniqueIndexFits(t, if st.isPrimary then "" else st.indexName, st.keys, st.isPrimary);
    FewerColumnsRefine(fine, coarse, C);
    MergeEarly(fine, coarse, C, {});
    assert Maxima(fine, C) + {} == Maxima(fine, C) && C + {} == C;
  }

  lemma DropIndexMerged(t: Table, isPrimary: bool, name: string, C: set<Record>)
    requires WellFormed(t) && TempComplete(t) && Injective(t.hash) && Merged(t, C)
    requires !Widens(t, DropIndex(isPrimary, name))
    ensures Merged(DropUniqueIndex(t, isPrimary, false, name), C)
  {
    match FindIndex(isPrimary, false, name, t.indexs)
    case None =>
    case Some(k) =>
      KeptComplete(t);
      DropUniqueIndexKeepsRows(t, isPrimary, false, name);
      var t1 := t.(indexs := RemoveAt(t.indexs, k));
      assert t1.indexs == [];
      TempIsComplete(t1);
      var here, there := t.RuleOf(t.indexs[0]), t1.RuleOf(TempIndex(t1));
      forall a, b | a in C && b in C
        ensures AlongsideAt(Same(), here, there, a, b)
      {
        CompleteAgree(here.key, |t.cols|, t.upd.value, a, b);
        CompleteAgree(there.key, |t.cols|, t.upd.value, a, b);
      }
      ImageMaxima(Same(), here, there, C);
      ImageSame(C);
      ImageSame(Maxima(here, C));
  }

  lemma DropIndexExactly(t: Table, isPrimary: bool, name: string, C: set<Record>)
    requires WellFormed(t) && Injective(t.hash) && Merged(t, C) && Coherent(C)
    requires Widens(t, DropIndex(isPrimary, name)) && LeavesUpd(t, DropIndex(isPrimary, name))
    ensures Merged(DropUniqueIndex(t, isPrimary, false, name), C) <==> !Parts(t, DropIndex(isPrimary, name), C)
  {
    var t1 := t.(indexs := []);
    DropUniqueIndexKeepsRows(t, isPrimary, false, name);
    assert RemoveAt(t.indexs, 0) == [];
    TempIsComplete(t1);
    var here, there, n, upd := t.RuleOf(t.indexs[0]), t1.RuleOf(TempIndex(t1)), |t.cols|, t.upd.value;
    forall a, b | a in C && b in C
      ensures FinerAt(Same(), here, there, a, b)
      ensures Torn(Same(), here, there, a, b) <==> PartsKey(t, a, b)
    {
      CompleteAgree(there.key, n, upd, a, b);
      if Agree(n, upd, a, b) {
        AgreeOnKey(t, a, b);
      }
    }
    FinerMaxima(Same(), here, there, C);
    ImageSame(C);
    ImageSame(Maxima(here, C));
  }

  lemma AgreeOnKey(t: Table, a: Record, b: Record)
    requires Fitting(t) && |t.indexs| == 1 && t.upd.Some? && t.upd.value !in t.indexs[0].cols
    requires Agree(|t.cols|, t.upd.value, a, b)
    ensures KeyAt(t.indexs[0].cols, a) == KeyAt(t.indexs[0].cols, b)
  {
    var key := t.indexs[0].cols;
    assert KeyInRange(t, t.indexs[0]);
    forall j | 0 <= j < |key|
      ensures KeyAt(key, a)[j] == KeyAt(key, b)[j]
    {
      assert key[j] in key;
    }
  }

  lemma DropColExactly(t: Table, name: string, C: set<Record>)
    requires WellFormed(t) && Injective(t.hash) && Merged(t, C) && Coherent(C)
    requires Fits(t, DropCol(name)) && Fill(t, DropCol(name)).Ok? && Widens(t, DropCol(name))
    ensures var t2, p := Fill(t, DropCol(name)).value, FindCol(t.cols, name).value;
            Merged(t2, Image(Narrow(p), C)) <==> !Parts(t, DropCol(name), C)
  {
    var p := FindCol(t.cols, name).value;
    ShrinkMerged(t, p, C);
    EmptyKeyExactly(ShrinkIndex(t, p), p, C);
    SameRest(t, ShrinkIndex(t, p), p, C);
  }

  lemma SameRest(t: Table, t1: Table, p: nat, C: set<Record>)
    requires t.upd.Some? && t1.upd == t.upd && t1.cols == t.cols && p < |t.cols|
    ensures (exists a, b :: a in C && b in C && PartsRest(t, p, a, b)) <==>
            (exists a, b :: a in C && b in C && PartsRest(t1, p, a, b))
  {
    assert forall a, b :: PartsRest(t, p, a, b) == PartsRest(t1, p, a, b);
  }

  /** The key is empty, so the table has at most one row, when the column goes and a temporary key is built. */
  lemma EmptyKeyExactly(t: Table, p: nat, C: set<Record>)
    requires WellFormed(t) && Injective(t.hash) && Merged(t, C) && Coherent(C)
    requires p < |t.cols| && t.upd.value != p && t.indexs[0].cols == []
    ensures Merged(FinishDrop(t, p), Image(Narrow(p), C)) <==>
            !exists a, b :: a in C && b in C && PartsRest(t, p, a, b)
  {
    var t2 := EraseColumn(t.(indexs := []), p);
    FinishDropFits(t, p);
    TempIsComplete(t2);
    var f, here, there := Narrow(p), t.RuleOf(t.indexs[0]), t2.RuleOf(TempIndex(t2));
    forall a, b | a in C && b in C
      ensures FinerAt(f, here, there, a, b)
      ensures Torn(f, here, there, a, b) <==> PartsRest(t, p, a, b)
    {
      NarrowRanks(p, here, there, a, b);
      CompleteAgree(there.key, |t2.cols|, t2.upd.value, f(a), f(b));
      SameEmptyKey(a, b);
    }
    FinerMaxima(f, here, there, C);
    OneRowStays(t, p, there, C);
  }

  /** The only row of the table is still there. */
  lemma OneRowStays(t: Table, p: nat, there: Rule, C: set<Record>)
    requires WellFormed(t) && Merged(t, C) && Coherent(C)
    requires p < |t.cols| && t.upd.value != p && t.indexs[0].cols == []
    requires Finer(Narrow(p), t.RuleOf(t.indexs[0]), there, C)
    ensures Maxima(there, Image(Narrow(p), Live(t.slots))) == Image(Narrow(p), Live(t.slots))
  {
    var here, L := t.RuleOf(t.indexs[0]), Live(t.slots);
    forall a, b | a in L && b in L
      ensures FinerAt(Narrow(p), here, there, a, b) && !Torn(Narrow(p), here, there, a, b)
    {
      SameEmptyKey(a, b);
      MaximumUnique(here, C, a, b);
      assert FinerAt(Narrow(p), here, there, a, b);
    }
    FinerMaxima(Narrow(p), here, there, L);
    LiveIsMaxima(here, t.slots);
  }

  /** A statement that does not widen the key carries the merge of C to the merge of C in the new layout. */
  lemma FillMerged(t: Table, st: Statement, C: set<Record>)
    requires WellFormed(t) && TempComplete(t) && Injective(t.hash) && Merged(t, C)
    requires !st.CreateTable? && Fits(t, st) && Fill(t, st).Ok? && LeavesUpd(t, st) && !Widens(t, st)
    ensures Merged(Fill(t, st).value, Image(Layout(t, st), C))
  {
    match st
    case AddCol(col, after) => AddColMerged(t, col, after, C);
    case Nothing => ImageSame(C);
    case DropCol(name) => DropColMerged(t, name, C);
    case DropIndex(isPrimary, name) =>
      DropIndexMerged(t, isPrimary, name, C);
      ImageSame(C);
    case AddIndex(_, _, _) =>
      AddIndexMerged(t, st, C);
      ImageSame(C);
    case ChangeCol(_, _) => ImageSame(C);
  }

  /**
   The merge of C becomes the merge of C in the new layout exactly when the statement parts no two rows that were
   merged. Otherwise the table lacks a row that the new key would have kept.
   */
  lemma ExactlyMerged(t: Table, st: Statement, C: set<Record>)
    requires WellFormed(t) && TempComplete(t) && Injective(t.hash) && Merged(t, C) && Coherent(C)
    requires !st.CreateTable? && Fits(t, st) && Fill(t, st).Ok? && LeavesUpd(t, st)
    ensures Merged(Fill(t, st).value, Image(Layout(t, st), C)) <==> !Parts(t, st, C)
  {
    if !Widens(t, st) {
      FillMerged(t, st, C);
    } else if st.DropIndex? {
      DropIndexExactly(t, st.isPrimary, st.indexName, C);
      ImageSame(C);
    } else {
      DropColExactly(t, st.colName, C);
    }
  }

  lemma InsertMerged(t: Table, rs: seq<Record>, C: set<Record>)
    requires WellFormed(t) && Merged(t, C) && Coherent(Live(t.slots) + ToSet(rs))
    requires forall i :: 0 <= i < |rs| ==> |rs[i].vals| == |t.cols|
    ensures Merged(InsertRows(t, rs).value, C + ToSet(rs))
  {
    var rule := t.RuleOf(t.indexs[0]);
    InsertRowsFits(t, rs);
    MergeEarly(rule, rule, C, ToSet(rs));
  }

  // ---------- runs ----------

  /** The table after the states before the last. */
  function Earlier(hash: seq<string> -> int, stages: seq<Stage>): Table
    requires stages != [] && RunFits(hash, stages) && Run(hash, stages).Ok?
  {
    Run(hash, stages[..|stages| - 1]).value
  }

  /** The rows live after the first k states and all rows delivered since, in the layout of the last state. */
  ghost function Carried(hash: seq<string> -> int, stages: seq<Stage>, k: nat): set<Record>
    requires RunFits(hash, stages) && Run(hash, stages).Ok? && k <= |stages|
    decreases |stages|
  {
    if |stages| == k then Live(Run(hash, stages).value.slots)
    else
      var n := |stages| - 1;
      Image(Layout(Earlier(hash, stages), stages[n].st), Carried(hash, stages[..n], k)) + ToSet(stages[n].rs)
  }

  /** From state k on, no statement but the first CREATE parts rows that were merged, or touches `updated_at`. */
  ghost predicate NothingParted(hash: seq<string> -> int, stages: seq<Stage>, k: nat)
    requires RunFits(hash, stages) && Run(hash, stages).Ok? && k <= |stages|
    decreases |stages|
  {
    |stages| == k ||
    var n := |stages| - 1;
    && NothingParted(hash, stages[..n], k)
    && (n > 0 ==> PartsNothing(Earlier(hash, stages), stages[n].st, Carried(hash, stages[..n], k)))
  }

  ghost predicate PartsNothing(t: Table, st: Statement, C: set<Record>) {
    |t.indexs| == 1 && HasUpd(t) && LeavesUpd(t, st) && !Parts(t, st, C)
  }

  lemma StepTempComplete(t: Table, n: nat, stage: Stage)
    requires WellFormed(t) && TempComplete(t) && StageFits(t, n, stage) && Step(t, n, stage).Ok?
    ensures TempComplete(Step(t, n, stage).value)
  {
    var t1 := Trace(t, n, stage.st).value;
    if n == 0 || !stage.st.CreateTable? {
      FillTempComplete(t, stage.st);
    }
    assert Step(t, n, stage).value == t1.(slots := Step(t, n, stage).value.slots);
  }

  lemma FrontApart(stages: seq<Stage>, n: nat)
    requires IdsApart(stages) && n <= |stages|
    ensures IdsApart(stages[..n])
  {
    assert forall i :: 0 <= i < n ==> stages[..n][i] == stages[i];
  }

  /** The last state of a run. */
  lemma LastStep(hash: seq<string> -> int, stages: seq<Stage>)
    requires stages != [] && RunFits(hash, stages) && Run(hash, stages).Ok?
    ensures var n := |stages| - 1;
            && RunFits(hash, stages[..n]) && Run(hash, stages[..n]) == Ok(Earlier(hash, stages))
            && StageFits(Earlier(hash, stages), n, stages[n])
            && Step(Earlier(hash, stages), n, stages[n]) == Run(hash, stages)
  {
  }

  lemma {:induction false} RunTempComplete(hash: seq<string> -> int, stages: seq<Stage>)
    requires RunFits(hash, stages) && IdsApart(stages) && Run(hash, stages).Ok?
    ensures TempComplete(Run(hash, stages).value)
    decreases |stages|
  {
    if stages != [] {
      var n := |stages| - 1;
      LastStep(hash, stages);
      FrontApart(stages, n);
      EarlierFits(hash, stages);
      RunTempComplete(hash, stages[..n]);
      StepTempComplete(Earlier(hash, stages), n, stages[n]);
    }
  }

  lemma EarlierFits(hash: seq<string> -> int, stages: seq<Stage>)
    requires stages != [] && RunFits(hash, stages) && IdsApart(stages) && Run(hash, stages).Ok?
    ensures WellFormed(Earlier(hash, stages))
  {
    FrontApart(stages, |stages| - 1);
    RunWellFormed(hash, stages[..|stages| - 1]);
  }

  lemma FirstMerged(hash: seq<string> -> int, stage: Stage)
    requires RunFits(hash, [stage]) && IdsApart([stage]) && Run(hash, [stage]).Ok?
    ensures Merged(Run(hash, [stage]).value, Carried(hash, [stage], 0))
  {
    var t := EmptyTable(hash);
    assert [stage][..0] == [] && Run(hash, []) == Ok(t) && Live(t.slots) == {};
    CreateEmpty(t, stage.st);
    var t1 := Trace(t, 0, stage.st).value;
    StepWellFormed(t, [stage]);
    assert Live(t1.slots) == {} && Merged(t1, {});
    InsertMerged(t1, stage.rs, {});
    assert Image(Layout(t, stage.st), {}) == {};
  }

  lemma NextMerged(hash: seq<string> -> int, stages: seq<Stage>, C: set<Record>)
    requires |stages| > 1 && RunFits(hash, stages) && IdsApart(stages) && Run(hash, stages).Ok? && Injective(hash)
    requires Merged(Earlier(hash, stages), C) && Coherent(C)
    requires PartsNothing(Earlier(hash, stages), stages[|stages| - 1].st, C)
    ensures var n := |stages| - 1;
            Merged(Run(hash, stages).value, Image(Layout(Earlier(hash, stages), stages[n].st), C) + ToSet(stages[n].rs))
  {
    var n, t := |stages| - 1, Earlier(hash, stages);
    var last := stages[n];
    BeforeLast(hash, stages);
    FrontApart(stages, n);
    RunTempComplete(hash, stages[..n]);
    RunHash(hash, stages[..n]);
    var t1 := Trace(t, n, last.st).value;
    StepWellFormed(t, stages);
    if last.st.CreateTable? {
      ImageSame(C);
    } else {
      ExactlyMerged(t, last.st, C);
    }
    InsertMerged(t1, last.rs, Image(Layout(t, last.st), C));
  }

  lemma {:induction false} RunHash(hash: seq<string> -> int, stages: seq<Stage>)
    requires RunFits(hash, stages) && Run(hash, stages).Ok?
    ensures Run(hash, stages).value.hash == hash
    decreases |stages|
  {
    if stages != [] {
      var n := |stages| - 1;
      RunHash(hash, stages[..n]);
      if n == 0 || !stages[n].st.CreateTable? {
        FillHash(Run(hash, stages[..n]).value, stages[n].st);
      }
    }
  }

  lemma FillHash(t: Table, st: Statement)
    requires Fits(t, st) && Fill(t, st).Ok?
    ensures Fill(t, st).value.hash == t.hash
  {
    if st.CreateTable? {
      ColumnsHash(t, st.cols);
      if st.indexs != [] {
        IndexsHash(FillColumns(t, st.cols), st.indexs);
      }
    }
  }

  lemma {:induction false} ColumnsHash(t: Table, cols: seq<ColumnStatement>)
    requires t.indexs == []
    ensures FillColumns(t, cols).hash == t.hash
    decreases |cols|
  {
    if cols != [] {
      ColumnsHash(t, cols[..|cols| - 1]);
    }
  }

  lemma {:induction false} IndexsHash(t: Table, indexs: seq<IndexStatement>)
    requires t.upd.Some? && forall i :: 0 <= i < |indexs| ==> KeysKnown(t, indexs[i].keys)
    ensures FillIndexs(t, indexs).hash == t.hash
    decreases |indexs|
  {
    if indexs != [] {
      IndexsHash(t, indexs[..|indexs| - 1]);
      assert KeysKnown(t, indexs[|indexs| - 1].keys);
    }
  }

  lemma KeepsNames(t: Table, st: Statement)
    ensures forall r :: Layout(t, st)(r).source == r.source && Layout(t, st)(r).stamp == r.stamp
  {
  }

  /** Every row of S has the name of a delivered row, and no two have the same. */
  ghost predicate Named(stages: seq<Stage>, S: set<Record>) {
    Coherent(S) && forall r :: r in S ==> Known(stages, r)
  }

  /** What is carried still has the names it was delivered under. */
  lemma {:induction false} CarriedNames(hash: seq<string> -> int, stages: seq<Stage>, k: nat)
    requires k <= |stages| && RunFits(hash, stages) && IdsApart(stages) && Run(hash, stages).Ok?
    ensures Named(stages, Carried(hash, stages, k))
    decreases |stages|
  {
    if |stages| == k {
      LiveNames(hash, stages);
    } else {
      var n := |stages| - 1;
      FrontApart(stages, n);
      CarriedNames(hash, stages[..n], k);
      KeepsNames(Earlier(hash, stages), stages[n].st);
      NextNames(stages, Layout(Earlier(hash, stages), stages[n].st), Carried(hash, stages[..n], k));
    }
  }

  lemma LiveNames(hash: seq<string> -> int, stages: seq<Stage>)
    requires RunFits(hash, stages) && IdsApart(stages) && Run(hash, stages).Ok?
    ensures Named(stages, Live(Run(hash, stages).value.slots))
  {
    RunWellFormed(hash, stages);
  }

  lemma NextNames(stages: seq<Stage>, f: Record -> Record, C: set<Record>)
    requires stages != [] && IdsApart(stages) && Named(stages[..|stages| - 1], C)
    requires forall r :: f(r).source == r.source && f(r).stamp == r.stamp
    ensures Named(stages, Image(f, C) + ToSet(stages[|stages| - 1].rs))
  {
    var n := |stages| - 1;
    CoherentImage(f, C);
    forall r | r in Image(f, C)
      ensures Known(stages, r) && forall b :: b in stages[n].rs ==> b.source != r.source || b.stamp != r.stamp
    {
      var c :| c in C && f(c) == r;
      NewNames(stages, c);
    }
    CoherentUnion(Image(f, C), stages[n].rs, stages);
    forall r | r in ToSet(stages[n].rs)
      ensures Known(stages, r)
    {
      assert r in stages[n].rs;
    }
  }

  /**
   While no statement parts rows that were merged, the table holds the per-key maxima, under its present key, of all
   rows that were live at state k or have been delivered since, in its present layout. With k = 0: of everything
   delivered.
   */
  lemma {:induction false} MergedSince(hash: seq<string> -> int, stages: seq<Stage>, k: nat)
    requires stages != [] && k <= |stages| && RunFits(hash, stages) && IdsApart(stages) && Injective(hash)
    requires Run(hash, stages).Ok? && NothingParted(hash, stages, k)
    ensures Merged(Run(hash, stages).value, Carried(hash, stages, k))
    decreases |stages|
  {
    var n := |stages| - 1;
    if |stages| == k {
      var t := Run(hash, stages).value;
      RunWellFormed(hash, stages);
      LiveWidth(t.slots, |t.cols|);
      LiveIsMaxima(t.RuleOf(t.indexs[0]), t.slots);
    } else if n == 0 {
      assert stages == [stages[0]];
      FirstMerged(hash, stages[0]);
    } else {
      FrontApart(stages, n);
      MergedSince(hash, stages[..n], k);
      CarriedNames(hash, stages[..n], k);
      NextMerged(hash, stages, Carried(hash, stages[..n], k));
    }
  }
}
