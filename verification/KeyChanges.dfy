/** What happens to the rows when the key under which they are merged changes. */
module KeyChanges {
  import opened Text
  import opened Merge
  import opened MergeTheorems
  import opened Schema
  import opened Statements
  import opened SchemaTheorems

  /** No two different keys collide. */
  ghost predicate Injective(hash: seq<string> -> int) {
    forall a, b :: hash(a) == hash(b) ==> a == b
  }

  /** A temporary key is the table's only key and covers exactly the columns other than `updated_at`. */
  ghost predicate TempComplete(t: Table) {
    forall k :: 0 <= k < |t.indexs| && t.indexs[k].isTemp ==>
      |t.indexs| == 1 && t.upd.Some? && forall p :: p in t.indexs[k].cols <==> 0 <= p < |t.cols| && p != t.upd.value
  }

  lemma TempIndexComplete(t: Table, p: int)
    requires HasUpd(t)
    ensures p in TempIndex(t).cols <==> 0 <= p < |t.cols| && p != t.upd.value
  {
    TempInRange(t);
    if p in TempIndex(t).cols {
      var j :| 0 <= j < |TempIndex(t).cols| && TempIndex(t).cols[j] == p;
    }
  }

  lemma PushTempComplete(t: Table)
    requires HasUpd(t) && t.indexs == []
    ensures TempComplete(PushIndex(t, TempIndex(t)))
  {
    forall p
      ensures p in TempIndex(t).cols <==> 0 <= p < |t.cols| && p != t.upd.value
    {
      TempIndexComplete(t, p);
    }
  }

  /** Every statement keeps temporary keys complete. */
  lemma FillTempComplete(t: Table, st: Statement)
    requires WellFormed(t) && TempComplete(t) && Fits(t, st) && Fill(t, st).Ok?
    ensures TempComplete(Fill(t, st).value)
  {
    match st
    case CreateTable(_, cols, indexs) =>
      var t1 := FillColumns(t, cols);
      if indexs == [] {
        PushTempComplete(t1);
      } else {
        FillIndexsNamed(t1, indexs);
      }
    case AddCol(col, after) => AddColumnComplete(t, col.Column(), after);
    case Nothing =>
    case DropCol(colName) => DropColumnComplete(t, FindCol(t.cols, colName).value);
    case DropIndex(isPrimary, indexName) => DropUniqueIndexComplete(t, isPrimary, false, indexName);
    case AddIndex(_, _, _) =>
    case ChangeCol(col, prevName) =>
  }

  lemma {:induction false} FillIndexsNamed(t: Table, indexs: seq<IndexStatement>)
    requires t.upd.Some? && t.indexs == [] && forall i :: 0 <= i < |indexs| ==> KeysKnown(t, indexs[i].keys)
    ensures forall k :: 0 <= k < |FillIndexs(t, indexs).indexs| ==> !FillIndexs(t, indexs).indexs[k].isTemp
    decreases |indexs|
  {
    if indexs != [] {
      FillIndexsNamed(t, indexs[..|indexs| - 1]);
      assert KeysKnown(t, indexs[|indexs| - 1].keys);
    }
  }

  lemma DropUniqueIndexComplete(t: Table, isPrimary: bool, isTemp: bool, name: string)
    requires TempComplete(t) && HasUpd(t)
    ensures TempComplete(DropUniqueIndex(t, isPrimary, isTemp, name))
  {
    match FindIndex(isPrimary, isTemp, name, t.indexs)
    case None =>
    case Some(k) =>
      if |t.indexs| == 1 {
        PushTempComplete(t.(indexs := RemoveAt(t.indexs, k)));
      } else {
        forall i | 0 <= i < |t.indexs| - 1
          ensures !RemoveAt(t.indexs, k)[i].isTemp
        {
          assert RemoveAt(t.indexs, k)[i] == t.indexs[if i < k then i else i + 1];
        }
      }
  }

  lemma AddColumnComplete(t: Table, c: Column, after: Option<string>)
    requires WellFormed(t) && TempComplete(t) && AddColumn(t, c, after).Ok?
    ensures TempComplete(AddColumn(t, c, after).value)
  {
    var p := PlaceAfter(t.cols, after).value;
    var t1 := PlaceColumn(t, c, p);
    if t1.indexs != [] && t1.indexs[0].isTemp {
      assert |t.indexs| == 1;
      PushTempComplete(t1.(indexs := RemoveAt(t1.indexs, 0)));
    } else {
      forall k | 0 <= k < |t.indexs|
        ensures !t1.indexs[k].isTemp
      {
        assert t1.indexs[k].isTemp == t.indexs[k].isTemp;
      }
    }
  }

  lemma DropColumnComplete(t: Table, p: nat)
    requires WellFormed(t) && TempComplete(t) && HasUpd(t) && |t.indexs| == 1 && p < |t.cols| && t.upd.value != p
    ensures TempComplete(FinishDrop(ShrinkIndex(t, p), p))
  {
    var t1 := ShrinkIndex(t, p);
    ShrinkIndexFits(t, p);
    var cols, cols1 := t.indexs[0].cols, t1.indexs[0].cols;
    assert KeyInRange(t, t.indexs[0]);
    DistinctRemove(cols, p);
    if cols1 == [] {
      PushTempComplete(EraseColumn(t1.(indexs := []), p));
    } else if t.indexs[0].isTemp {
      forall q
        ensures q in DownAll(p, cols1) <==> 0 <= q < |t.cols| - 1 && q != Down(p, t.upd.value)
      {
        var r := if q < p then q else q + 1;
        RemoveKeeps(cols, p, r);
        DownMember(cols1, p, q);
      }
    }
  }

  lemma DownMember(qs: seq<int>, p: nat, q: int)
    requires p !in qs
    ensures q in DownAll(p, qs) <==> (if q < p then q else q + 1) in qs
  {
    var down, r := DownAll(p, qs), if q < p then q else q + 1;
    if q in down {
      var j :| 0 <= j < |down| && down[j] == q;
      assert qs[j] in qs;
    }
    if r in qs {
      var j :| 0 <= j < |qs| && qs[j] == r;
      assert down[j] == q;
    }
  }

  lemma {:induction false} RemoveKeeps(qs: seq<int>, p: int, q: int)
    ensures q != p ==> (q in RemoveValue(qs, p) <==> q in qs)
  {
    if qs != [] && qs[0] != p {
      RemoveKeeps(qs[1..], p, q);
    }
  }

  // ---------- narrower keys ----------

  /** A key with fewer columns agrees wherever a key with more columns agrees. */
  lemma FewerColumnsRefine(fine: Rule, coarse: Rule, S: set<Record>)
    requires fine.hash == coarse.hash && fine.upd == coarse.upd && Injective(fine.hash)
    requires forall p :: p in coarse.key ==> p in fine.key
    ensures Refines(fine, coarse, S)
  {
    forall a, b | a in S && b in S && fine.Hash(a) == fine.Hash(b)
      ensures coarse.Hash(a) == coarse.Hash(b)
    {
      SameValues(fine.key, a, b);
      assert forall j :: 0 <= j < |coarse.key| ==> coarse.key[j] in coarse.key;
      assert KeyAt(coarse.key, a) == KeyAt(coarse.key, b);
    }
  }

  lemma SameValues(key: seq<int>, a: Record, b: Record)
    requires KeyAt(key, a) == KeyAt(key, b)
    ensures forall p :: p in key ==> At(a, p) == At(b, p)
  {
    forall p | p in key
      ensures At(a, p) == At(b, p)
    {
      var j :| 0 <= j < |key| && key[j] == p;
      assert KeyAt(key, a)[j] == KeyAt(key, b)[j];
    }
  }

  /**
   Collecting rows under the temporary key and merging them under a real key afterwards leaves the same
   rows as having the real key from the start.
   */
  lemma CollectThenNarrow(t: Table, name: string, keys: seq<string>, isPrimary: bool, rs: seq<Record>)
    requires WellFormed(t) && TempComplete(t) && |t.indexs| == 1 && t.indexs[0].isTemp && Injective(t.hash)
    requires KeysKnown(t, keys) && t.upd.value !in FindAll(t.cols, keys).value
    requires Coherent(Live(t.slots) + ToSet(rs)) && forall i :: 0 <= i < |rs| ==> |rs[i].vals| == |t.cols|
    ensures var late := AddUniqueIndex(InsertRows(t, rs).value, name, keys, isPrimary).value;
            var early := InsertRows(AddUniqueIndex(t, name, keys, isPrimary).value, rs).value;
            Alike(late, early)
  {
    var ps := FindAll(t.cols, keys).value;
    var fine, coarse := t.RuleOf(t.indexs[0]), Rule(t.hash, ps, t.upd.value);
    var S, T := Live(t.slots), ToSet(rs);
    KeysInRange(t, keys);
    InsertRowsFits(t, rs);
    AddUniqueIndexFits(InsertRows(t, rs).value, name, keys, isPrimary);
    AddUniqueIndexFits(t, name, keys, isPrimary);
    InsertRowsFits(AddUniqueIndex(t, name, keys, isPrimary).value, rs);
    FewerColumnsRefine(fine, coarse, S + T);
    MergeEarly(fine, coarse, S + T, {});
    assert Maxima(fine, S + T) + {} == Maxima(fine, S + T) && S + T + {} == S + T;
    MergeEarly(coarse, coarse, S, T);
  }

  // ---------- wider keys ----------

  /** A key that shows at least what the old key showed tells rows apart that the old key told apart. */
  lemma WiderKeepsApart(f: Record -> Record, old_: Rule, new_: Rule, slots: Slots)
    requires old_.hash == new_.hash && Injective(old_.hash) && OneEach(old_, slots)
    requires forall i, j :: 0 <= i < |slots| && 0 <= j < |slots| && slots[i].Some? && slots[j].Some? ==>
               var a, b := slots[i].value, slots[j].value;
               KeyAt(new_.key, f(a)) == KeyAt(new_.key, f(b)) ==> KeyAt(old_.key, a) == KeyAt(old_.key, b)
    ensures Reindex(new_, MapSlots(f, slots)) == MapSlots(f, slots)
  {
    ReindexKeepsAll(new_, MapSlots(f, slots));
  }

  lemma WideShowsOld(wide: seq<int>, key: seq<int>, p: nat, x: string, a: Record, b: Record)
    requires p <= |a.vals| == |b.vals| && forall k :: 0 <= k < |key| ==> 0 <= key[k] < |a.vals| && Up(p, key[k]) in wide
    requires KeyAt(wide, Widen(p, x)(a)) == KeyAt(wide, Widen(p, x)(b))
    ensures KeyAt(key, a) == KeyAt(key, b)
  {
    SameValues(wide, Widen(p, x)(a), Widen(p, x)(b));
    WidenKey(key, p, x, a);
    WidenKey(key, p, x, b);
    assert forall k :: 0 <= k < |key| ==>
           KeyAt(UpAll(p, key), Widen(p, x)(a))[k] == KeyAt(UpAll(p, key), Widen(p, x)(b))[k];
  }

  /** A table on a temporary key that gains a column loses no row and moves none. */
  lemma AddColumnKeepsRows(t: Table, c: Column, after: Option<string>)
    requires WellFormed(t) && TempComplete(t) && |t.indexs| == 1 && t.indexs[0].isTemp && Injective(t.hash)
    requires AddColumn(t, c, after).Ok?
    ensures var p := PlaceAfter(t.cols, after).value;
            AddColumn(t, c, after).value.slots == MapSlots(Widen(p, Default(c)), t.slots)
  {
    var p := PlaceAfter(t.cols, after).value;
    var x, t1, key := Default(c), PlaceColumn(t, c, p), t.indexs[0].cols;
    var t2 := t1.(indexs := RemoveAt(t1.indexs, 0));
    var wide := TempIndex(t2);
    assert KeyInRange(t, t.indexs[0]);
    forall k | 0 <= k < |key|
      ensures Up(p, key[k]) in wide.cols
    {
      assert key[k] in key;
      TempIndexComplete(t2, Up(p, key[k]));
    }
    forall i, j | 0 <= i < |t.slots| && 0 <= j < |t.slots| && t.slots[i].Some? && t.slots[j].Some? &&
                  KeyAt(wide.cols, Widen(p, x)(t.slots[i].value)) == KeyAt(wide.cols, Widen(p, x)(t.slots[j].value))
      ensures KeyAt(key, t.slots[i].value) == KeyAt(key, t.slots[j].value)
    {
      WideShowsOld(wide.cols, key, p, x, t.slots[i].value, t.slots[j].value);
    }
    WiderKeepsApart(Widen(p, x), t.RuleOf(t.indexs[0]), t2.RuleOf(wide), t.slots);
  }

  /** Dropping a key that does not involve `updated_at` loses no row and moves none. */
  lemma DropUniqueIndexKeepsRows(t: Table, isPrimary: bool, isTemp: bool, name: string)
    requires WellFormed(t) && |t.indexs| == 1 && HasUpd(t) && Injective(t.hash) && t.upd.value !in t.indexs[0].cols
    ensures DropUniqueIndex(t, isPrimary, isTemp, name).slots == t.slots
  {
    if FindIndex(isPrimary, isTemp, name, t.indexs).Some? {
      var key := t.indexs[0].cols;
      var t1 := t.(indexs := RemoveAt(t.indexs, 0));
      var wide := TempIndex(t1);
      assert KeyInRange(t, t.indexs[0]);
      var same := (r: Record) => r;
      forall i, j | 0 <= i < |t.slots| && 0 <= j < |t.slots| && t.slots[i].Some? && t.slots[j].Some? &&
                    KeyAt(wide.cols, same(t.slots[i].value)) == KeyAt(wide.cols, same(t.slots[j].value))
        ensures KeyAt(key, t.slots[i].value) == KeyAt(key, t.slots[j].value)
      {
        SameValues(wide.cols, t.slots[i].value, t.slots[j].value);
        forall k | 0 <= k < |key|
          ensures At(t.slots[i].value, key[k]) == At(t.slots[j].value, key[k])
        {
          assert key[k] in key;
          TempIndexComplete(t1, key[k]);
        }
      }
      WiderKeepsApart(same, t.RuleOf(t.indexs[0]), t1.RuleOf(wide), t.slots);
      assert MapSlots(same, t.slots) == t.slots;
    }
  }

  // ---------- dropping key columns ----------

  /** While the key keeps a column, dropping a column leaves the per-key maxima under the key that is left. */
  lemma DropColumnIsMaxima(t: Table, name: string)
    requires WellFormed(t) && HasUpd(t) && |t.indexs| == 1 && FindCol(t.cols, name).Some? &&
             FindCol(t.cols, name) != t.upd
    requires RemoveValue(t.indexs[0].cols, FindCol(t.cols, name).value) != []
    ensures var p := FindCol(t.cols, name).value;
            var left := Rule(t.hash, RemoveValue(t.indexs[0].cols, p), t.upd.value);
            Live(DropColumn(t, name).value.slots) == Image(Narrow(p), Maxima(left, Live(t.slots)))
  {
    var p := FindCol(t.cols, name).value;
    ShrinkIndexFits(t, p);
    FinishDropFits(ShrinkIndex(t, p), p);
    if p !in t.indexs[0].cols {
      RemoveAbsent(t.indexs[0].cols, p);
    }
  }

  lemma {:induction false} RemoveAbsent(qs: seq<int>, p: int)
    requires p !in qs
    ensures RemoveValue(qs, p) == qs
  {
    if qs != [] {
      RemoveAbsent(qs[1..], p);
    }
  }

  /** design.txt: an index left without columns is removed, and only then is a temporary one built. */
  ghost function DesignedDrop(t: Table, p: nat): Table
    requires HasUpd(t) && |t.indexs| == 1 && p < |t.cols| && t.upd.value != p
  {
    FinishDrop(t.(indexs := [t.indexs[0].(cols := [])]), p)
  }

  /** All rows show the same values outside column p and `updated_at`. */
  ghost predicate AgreeElsewhere(t: Table, p: nat)
    requires t.upd.Some?
  {
    forall a, b :: a in Live(t.slots) && b in Live(t.slots) ==>
      forall q :: 0 <= q < |t.cols| && q != p && q != t.upd.value ==> At(a, q) == At(b, q)
  }

  /** The table's only key has p as its only column. */
  predicate OnlyKey(t: Table, p: nat) {
    HasUpd(t) && |t.indexs| == 1 && t.indexs[0].cols == [p] && p < |t.cols| && t.upd.value != p
  }

  /** The code merges under the empty key first: at most one row is left. */
  lemma DropOnlyKeyCollapses(t: Table, p: nat, a: Record, b: Record)
    requires WellFormed(t) && OnlyKey(t, p)
    requires a in Live(FinishDrop(ShrinkIndex(t, p), p).slots) && b in Live(FinishDrop(ShrinkIndex(t, p), p).slots)
    ensures a == b
  {
    ShrinkIndexFits(t, p);
    var t1 := ShrinkIndex(t, p);
    FinishDropFits(t1, p);
    var x :| x in Live(t1.slots) && Narrow(p)(x) == a;
    var y :| y in Live(t1.slots) && Narrow(p)(y) == b;
    SameEmptyKey(x, y);
    MaximumUnique(t.RuleOf(t1.indexs[0]), Live(t.slots), x, y);
  }

  lemma SameEmptyKey(x: Record, y: Record)
    ensures KeyAt([], x) == KeyAt([], y)
  {
  }

  /**
   Dropping a key's only column does what the design says exactly when the rows already agreed everywhere
   else; otherwise rows are lost.
   */
  lemma DropOnlyKeyMeetsDesign(t: Table, p: nat)
    requires WellFormed(t) && OnlyKey(t, p)
    requires Injective(t.hash)
    ensures Live(FinishDrop(ShrinkIndex(t, p), p).slots) == Live(DesignedDrop(t, p).slots) <==> AgreeElsewhere(t, p)
  {
    if AgreeElsewhere(t, p) {
      AgreeMeansSame(t, p);
    } else {
      var a, b :| a in Live(t.slots) && b in Live(t.slots) &&
        !(forall q :: 0 <= q < |t.cols| && q != p && q != t.upd.value ==> At(a, q) == At(b, q));
      DisagreeMeansLost(t, p, a, b);
    }
  }

  /** The temporary key after column p has gone. */
  ghost function RuleAfter(t: Table, p: nat): Rule
    requires HasUpd(t) && p < |t.cols| && t.upd.value != p
  {
    var t2 := EraseColumn(t.(indexs := []), p);
    t2.RuleOf(TempIndex(t2))
  }

  lemma DesignedRows(t: Table, p: nat)
    requires WellFormed(t) && OnlyKey(t, p)
    ensures Live(DesignedDrop(t, p).slots) == Maxima(RuleAfter(t, p), Image(Narrow(p), Live(t.slots)))
    ensures Coherent(Image(Narrow(p), Live(t.slots)))
  {
    var t2 := EraseColumn(t.(indexs := []), p);
    EraseColumnFits(t.(indexs := []), p);
    TempInRange(t2);
    PushIndexFits(t2, TempIndex(t2));
  }

  lemma CodedRows(t: Table, p: nat)
    requires WellFormed(t) && OnlyKey(t, p)
    ensures Live(FinishDrop(ShrinkIndex(t, p), p).slots) ==
              Maxima(RuleAfter(t, p), Image(Narrow(p), Maxima(Rule(t.hash, [], t.upd.value), Live(t.slots))))
  {
    ShrinkIndexFits(t, p);
    FinishDropFits(ShrinkIndex(t, p), p);
    assert RemoveValue([p], p) == [];
  }

  lemma KeyShowsRest(t: Table, p: nat, key: seq<int>, a: Record, b: Record, q: nat)
    requires p < |t.cols| && |a.vals| == |b.vals| == |t.cols|
    requires KeyAt(key, Narrow(p)(a)) == KeyAt(key, Narrow(p)(b))
    requires q < |t.cols| && q != p && Down(p, q) in key
    ensures At(a, q) == At(b, q)
  {
    SameValues(key, Narrow(p)(a), Narrow(p)(b));
    assert At(Narrow(p)(a), Down(p, q)) == At(a, q) && At(Narrow(p)(b), Down(p, q)) == At(b, q);
  }

  lemma RestShowsKey(t: Table, p: nat, key: seq<int>, a: Record, b: Record)
    requires p < |t.cols| && |a.vals| == |b.vals| == |t.cols|
    requires forall j :: 0 <= j < |key| ==> 0 <= key[j] < |t.cols| - 1 && At(a, Up(p, key[j])) == At(b, Up(p, key[j]))
    ensures KeyAt(key, Narrow(p)(a)) == KeyAt(key, Narrow(p)(b))
  {
    forall j | 0 <= j < |key|
      ensures At(Narrow(p)(a), key[j]) == At(Narrow(p)(b), key[j])
    {
      assert At(a, Up(p, key[j])) == At(b, Up(p, key[j]));
    }
    assert KeyAt(key, Narrow(p)(a)) == KeyAt(key, Narrow(p)(b));
  }

  /** Remaining columns agree exactly when the temporary keys after the drop agree. */
  lemma SameRestKey(t: Table, p: nat, a: Record, b: Record)
    requires WellFormed(t) && HasUpd(t) && p < |t.cols| && t.upd.value != p && Injective(t.hash)
    requires a in Live(t.slots) && b in Live(t.slots)
    ensures RuleAfter(t, p).Hash(Narrow(p)(a)) == RuleAfter(t, p).Hash(Narrow(p)(b)) <==>
            forall q :: 0 <= q < |t.cols| && q != p && q != t.upd.value ==> At(a, q) == At(b, q)
  {
    var t2 := EraseColumn(t.(indexs := []), p);
    var key := TempIndex(t2).cols;
    LiveWidth(t.slots, |t.cols|);
    if KeyAt(key, Narrow(p)(a)) == KeyAt(key, Narrow(p)(b)) {
      forall q | 0 <= q < |t.cols| && q != p && q != t.upd.value
        ensures At(a, q) == At(b, q)
      {
        TempIndexComplete(t2, Down(p, q));
        KeyShowsRest(t, p, key, a, b, q);
      }
    }
    if forall q :: 0 <= q < |t.cols| && q != p && q != t.upd.value ==> At(a, q) == At(b, q) {
      forall j | 0 <= j < |key|
        ensures 0 <= key[j] < |t.cols| - 1 && At(a, Up(p, key[j])) == At(b, Up(p, key[j]))
      {
        assert key[j] in key;
        TempIndexComplete(t2, key[j]);
      }
      RestShowsKey(t, p, key, a, b);
    }
  }

  lemma NarrowRanks(t: Table, p: nat, a: Record, b: Record)
    requires WellFormed(t) && HasUpd(t) && p < |t.cols| && t.upd.value != p && a in Live(t.slots) && b in Live(t.slots)
    ensures RuleAfter(t, p).Beats(Narrow(p)(a), Narrow(p)(b)) == Rule(t.hash, [], t.upd.value).Beats(a, b)
  {
    LiveWidth(t.slots, |t.cols|);
  }

  lemma AgreeMeansSame(t: Table, p: nat)
    requires WellFormed(t) && OnlyKey(t, p)
    requires Injective(t.hash) && AgreeElsewhere(t, p)
    ensures Live(FinishDrop(ShrinkIndex(t, p), p).slots) == Live(DesignedDrop(t, p).slots)
  {
    var none, rule, S := Rule(t.hash, [], t.upd.value), RuleAfter(t, p), Live(t.slots);
    DesignedRows(t, p);
    CodedRows(t, p);
    forall a, b | a in S && b in S
      ensures rule.Hash(Narrow(p)(a)) == rule.Hash(Narrow(p)(b)) && none.Hash(a) == none.Hash(b)
      ensures rule.Beats(Narrow(p)(a), Narrow(p)(b)) == none.Beats(a, b)
    {
      SameRestKey(t, p, a, b);
      SameEmptyKey(a, b);
      NarrowRanks(t, p, a, b);
    }
    MaximaThrough(Narrow(p), none, rule, S);
  }

  /** When all rows share their key before and after f, and f keeps the ranking, merging twice merges once. */
  lemma MaximaThrough(f: Record -> Record, here: Rule, there: Rule, S: set<Record>)
    requires forall a, b :: a in S && b in S ==> here.Hash(a) == here.Hash(b) && there.Hash(f(a)) == there.Hash(f(b))
    requires forall a, b :: a in S && b in S ==> there.Beats(f(a), f(b)) == here.Beats(a, b)
    ensures Maxima(there, Image(f, Maxima(here, S))) == Maxima(there, Image(f, S))
  {
    forall m | m in Maxima(there, Image(f, S))
      ensures m in Image(f, Maxima(here, S))
    {
      var a :| a in S && f(a) == m;
      forall b | b in S
        ensures !here.Beats(b, a)
      {
        assert f(b) in Image(f, S);
      }
      assert a in Maxima(here, S);
    }
    forall m | m in Image(f, Maxima(here, S))
      ensures m in Maxima(there, Image(f, S))
    {
      var a :| a in Maxima(here, S) && f(a) == m;
    }
  }

  lemma DisagreeMeansLost(t: Table, p: nat, a: Record, b: Record)
    requires WellFormed(t) && OnlyKey(t, p)
    requires Injective(t.hash) && a in Live(t.slots) && b in Live(t.slots)
    requires !(forall q :: 0 <= q < |t.cols| && q != p && q != t.upd.value ==> At(a, q) == At(b, q))
    ensures Live(FinishDrop(ShrinkIndex(t, p), p).slots) != Live(DesignedDrop(t, p).slots)
  {
    var rule, S := RuleAfter(t, p), Image(Narrow(p), Live(t.slots));
    SameRestKey(t, p, a, b);
    DesignedRows(t, p);
    var x := MaximumExists(rule, S, Narrow(p)(a));
    var y := MaximumExists(rule, S, Narrow(p)(b));
    if Live(FinishDrop(ShrinkIndex(t, p), p).slots) == Live(DesignedDrop(t, p).slots) {
      DropOnlyKeyCollapses(t, p, x, y);
    }
  }
}
