/**
 What DDL and batches keep: every table stays well formed, and what it holds depends only on which rows
 it was given, never on their order or on the slots they ended up in.
 */
module SchemaTheorems {
  import opened Text
  import opened Merge
  import opened MergeTheorems
  import opened Schema
  import opened Statements

  // ---------- well-formed tables ----------

  ghost predicate KeyInRange(t: Table, index: Index) {
    Distinct(index.cols) && forall j :: 0 <= j < |index.cols| ==> 0 <= index.cols[j] < |t.cols|
  }

  /** Rows fit the columns and a (source, stamp) pair names one of them; keys name existing columns. */
  ghost predicate Fitting(t: Table) {
    && (t.upd.Some? ==> HasUpd(t)) && (t.indexs != [] ==> HasUpd(t))
    && (forall i :: 0 <= i < |t.slots| && t.slots[i].Some? ==> |t.slots[i].value.vals| == |t.cols|)
    && (forall k :: 0 <= k < |t.indexs| ==> KeyInRange(t, t.indexs[k]))
    && Coherent(Live(t.slots))
  }

  /** Besides, rows are held only under one key, and it tells them apart. */
  ghost predicate WellFormed(t: Table) {
    && Fitting(t)
    && if |t.indexs| == 1 then OneEach(t.RuleOf(t.indexs[0]), t.slots) else t.slots == []
  }

  /** Two tables that a user cannot tell apart by looking at columns, keys and the set of rows. */
  ghost predicate Alike(a: Table, b: Table) {
    a.(slots := []) == b.(slots := []) && Live(a.slots) == Live(b.slots)
  }

  // ---------- the primitives ----------

  ghost function Image(f: Record -> Record, S: set<Record>): set<Record> {
    set r | r in S :: f(r)
  }

  lemma LiveMap(f: Record -> Record, slots: Slots)
    ensures Live(MapSlots(f, slots)) == Image(f, Live(slots))
  {
    var after := MapSlots(f, slots);
    forall r | r in Image(f, Live(slots))
      ensures r in Live(after)
    {
      var s :| s in Live(slots) && f(s) == r;
      var i :| 0 <= i < |slots| && slots[i].Some? && slots[i].value == s;
      assert after[i] == Some(r);
    }
  }

  lemma CoherentImage(f: Record -> Record, S: set<Record>)
    requires Coherent(S) && forall r :: r in S ==> f(r).source == r.source && f(r).stamp == r.stamp
    ensures Coherent(Image(f, S))
  {
  }

  lemma LiveWidth(slots: Slots, n: nat)
    ensures (forall i :: 0 <= i < |slots| && slots[i].Some? ==> |slots[i].value.vals| == n) <==>
            (forall r :: r in Live(slots) ==> |r.vals| == n)
  {
    if forall r :: r in Live(slots) ==> |r.vals| == n {
      forall i | 0 <= i < |slots| && slots[i].Some?
        ensures |slots[i].value.vals| == n
      {
        assert slots[i].value in Live(slots);
      }
    }
  }

  lemma OneEachMap(f: Record -> Record, here: Rule, there: Rule, slots: Slots)
    requires OneEach(here, slots)
    requires forall i :: 0 <= i < |slots| && slots[i].Some? ==>
             there.Hash(f(slots[i].value)) == here.Hash(slots[i].value)
    ensures OneEach(there, MapSlots(f, slots))
  {
  }

  /** Adding a key computed over the rows. */
  lemma PushIndexFits(t: Table, index: Index)
    requires Fitting(t) && HasUpd(t) && KeyInRange(t, index)
    ensures Fitting(PushIndex(t, index))
    ensures OneEach(t.RuleOf(index), PushIndex(t, index).slots)
    ensures Live(PushIndex(t, index).slots) == Maxima(t.RuleOf(index), Live(t.slots))
  {
    var r := PushIndex(t, index);
    ReindexIsMaxima(t.RuleOf(index), t.slots);
    LiveWidth(t.slots, |t.cols|);
    LiveWidth(r.slots, |t.cols|);
  }

  lemma TempInRange(t: Table)
    requires HasUpd(t)
    ensures KeyInRange(t, TempIndex(t))
    ensures forall p :: 0 <= p < |t.cols| && p != t.upd.value ==> p in TempIndex(t).cols
  {
    var cols := TempIndex(t).cols;
    forall p | 0 <= p < |t.cols| && p != t.upd.value
      ensures p in cols
    {
      assert cols[if p < t.upd.value then p else p - 1] == p;
    }
  }

  // ---------- each operation ----------

  lemma PlaceColumnFits(t: Table, c: Column, p: nat)
    requires WellFormed(t) && p <= |t.cols|
    ensures Fitting(PlaceColumn(t, c, p))
    ensures WellFormed(PlaceColumn(t, c, p))
    ensures Live(PlaceColumn(t, c, p).slots) == Image(Widen(p, Default(c)), Live(t.slots))
  {
    var r, f := PlaceColumn(t, c, p), Widen(p, Default(c));
    LiveMap(f, t.slots);
    CoherentImage(f, Live(t.slots));
    PlaceDistinct(t, c, p);
    forall k | 0 <= k < |t.indexs|
      ensures KeyInRange(r, r.indexs[k])
    {
      assert KeyInRange(t, t.indexs[k]);
    }
    if |t.indexs| == 1 {
      assert KeyInRange(t, t.indexs[0]);
      forall i | 0 <= i < |t.slots| && t.slots[i].Some?
        ensures r.RuleOf(r.indexs[0]).Hash(f(t.slots[i].value)) == t.RuleOf(t.indexs[0]).Hash(t.slots[i].value)
      {
        WidenKey(t.indexs[0].cols, p, Default(c), t.slots[i].value);
      }
      OneEachMap(f, t.RuleOf(t.indexs[0]), r.RuleOf(r.indexs[0]), t.slots);
    }
  }

  /** A wider row shows the same values in the columns it had. */
  lemma WidenKey(key: seq<int>, p: nat, x: string, r: Record)
    requires p <= |r.vals| && forall j :: 0 <= j < |key| ==> 0 <= key[j] < |r.vals|
    ensures KeyAt(UpAll(p, key), Widen(p, x)(r)) == KeyAt(key, r)
  {
  }

  lemma NarrowKey(key: seq<int>, p: nat, r: Record)
    requires p < |r.vals| && p !in key && forall j :: 0 <= j < |key| ==> 0 <= key[j] < |r.vals|
    ensures KeyAt(DownAll(p, key), Narrow(p)(r)) == KeyAt(key, r)
  {
    forall j | 0 <= j < |key|
      ensures At(Narrow(p)(r), Down(p, key[j])) == At(r, key[j])
    {
      assert key[j] in key;
    }
  }

  lemma DropUniqueIndexFits(t: Table, isPrimary: bool, isTemp: bool, name: string)
    requires WellFormed(t) && HasUpd(t)
    ensures WellFormed(DropUniqueIndex(t, isPrimary, isTemp, name))
    ensures var k := FindIndex(isPrimary, isTemp, name, t.indexs);
            Live(DropUniqueIndex(t, isPrimary, isTemp, name).slots) ==
              if k.Some? && |t.indexs| == 1 then Maxima(t.RuleOf(TempIndex(t)), Live(t.slots)) else Live(t.slots)
  {
    match FindIndex(isPrimary, isTemp, name, t.indexs)
    case None =>
    case Some(k) =>
      var t1 := t.(indexs := RemoveAt(t.indexs, k));
      if t1.indexs == [] {
        TempInRange(t1);
        PushIndexFits(t1, TempIndex(t1));
      } else {
        assert t1.slots == [];
        forall i | 0 <= i < |t1.indexs|
          ensures KeyInRange(t1, t1.indexs[i])
        {
          assert KeyInRange(t, t.indexs[if i < k then i else i + 1]);
        }
      }
  }

  lemma AddColumnFits(t: Table, c: Column, after: Option<string>)
    requires WellFormed(t) && AddColumn(t, c, after).Ok?
    ensures WellFormed(AddColumn(t, c, after).value)
  {
    var p := PlaceAfter(t.cols, after).value;
    PlaceColumnFits(t, c, p);
    var t1 := PlaceColumn(t, c, p);
    if t1.indexs != [] && t1.indexs[0].isTemp {
      DropUniqueIndexFits(t1, false, true, "");
    }
  }

  lemma AddUniqueIndexFits(t: Table, name: string, colNames: seq<string>, isPrimary: bool)
    requires WellFormed(t) && HasUpd(t) && (TakesKey(t) ==> KeysKnown(t, colNames))
    requires AddUniqueIndex(t, name, colNames, isPrimary).Ok?
    ensures WellFormed(AddUniqueIndex(t, name, colNames, isPrimary).value)
    ensures Live(AddUniqueIndex(t, name, colNames, isPrimary).value.slots) ==
              Maxima(Rule(t.hash, FindAll(t.cols, colNames).value, t.upd.value), Live(t.slots))
  {
    KeysInRange(t, colNames);
    PushIndexFits(t.(indexs := []), Index(name, isPrimary, false, FindAll(t.cols, colNames).value));
  }

  lemma KeysInRange(t: Table, names: seq<string>)
    requires KeysKnown(t, names)
    ensures Distinct(FindAll(t.cols, names).value)
    ensures forall j :: 0 <= j < |FindAll(t.cols, names).value| ==> 0 <= FindAll(t.cols, names).value[j] < |t.cols|
  {
    DistinctColumns(t.cols, names);
    FindAllLength(t.cols, names);
    forall j | 0 <= j < |names|
      ensures 0 <= FindAll(t.cols, names).value[j] < |t.cols|
    {
      FindAllAt(t.cols, names, j);
    }
  }

  lemma ShrinkIndexFits(t: Table, p: nat)
    requires WellFormed(t) && HasUpd(t) && |t.indexs| == 1
    ensures WellFormed(ShrinkIndex(t, p)) && p !in ShrinkIndex(t, p).indexs[0].cols
    ensures Live(ShrinkIndex(t, p).slots) == Maxima(t.RuleOf(ShrinkIndex(t, p).indexs[0]), Live(t.slots))
  {
    var index := t.indexs[0];
    assert KeyInRange(t, index);
    LiveIsMaxima(t.RuleOf(index), t.slots);
    if p in index.cols {
      DistinctRemove(index.cols, p);
      var index1 := index.(cols := RemoveValue(index.cols, p));
      assert forall j :: 0 <= j < |index1.cols| ==> index1.cols[j] in index1.cols;
      PushIndexFits(t.(indexs := []), index1);
      assert ShrinkIndex(t, p) == PushIndex(t.(indexs := []), index1);
    }
  }

  lemma EraseColumnFits(t: Table, p: nat)
    requires Fitting(t) && p < |t.cols| && HasUpd(t) && t.upd.value != p
    requires forall k :: 0 <= k < |t.indexs| ==> p !in t.indexs[k].cols
    ensures Fitting(EraseColumn(t, p)) && HasUpd(EraseColumn(t, p))
    ensures |t.indexs| == 1 && OneEach(t.RuleOf(t.indexs[0]), t.slots) ==> WellFormed(EraseColumn(t, p))
    ensures Live(EraseColumn(t, p).slots) == Image(Narrow(p), Live(t.slots))
  {
    var r := EraseColumn(t, p);
    LiveMap(Narrow(p), t.slots);
    CoherentImage(Narrow(p), Live(t.slots));
    assert forall k :: 0 <= k < |t.indexs| ==> KeyInRange(t, t.indexs[k]);
    EraseDistinct(t, p);
    forall k | 0 <= k < |t.indexs|
      ensures KeyInRange(r, r.indexs[k])
    {
      assert forall j :: 0 <= j < |t.indexs[k].cols| ==> t.indexs[k].cols[j] in t.indexs[k].cols;
    }
    if |t.indexs| == 1 && OneEach(t.RuleOf(t.indexs[0]), t.slots) {
      forall i | 0 <= i < |t.slots| && t.slots[i].Some?
        ensures r.RuleOf(r.indexs[0]).Hash(Narrow(p)(t.slots[i].value)) == t.RuleOf(t.indexs[0]).Hash(t.slots[i].value)
      {
        NarrowKey(t.indexs[0].cols, p, t.slots[i].value);
      }
      OneEachMap(Narrow(p), t.RuleOf(t.indexs[0]), r.RuleOf(r.indexs[0]), t.slots);
    }
  }

  lemma FinishDropFits(t: Table, p: nat)
    requires WellFormed(t) && HasUpd(t) && |t.indexs| == 1 && p < |t.cols| && t.upd.value != p && p !in t.indexs[0].cols
    ensures WellFormed(FinishDrop(t, p))
    ensures var S := Image(Narrow(p), Live(t.slots));
            var t2 := EraseColumn(t.(indexs := []), p);
            Live(FinishDrop(t, p).slots) == if t.indexs[0].cols == [] then Maxima(t2.RuleOf(TempIndex(t2)), S) else S
  {
    if t.indexs[0].cols == [] {
      var t2 := EraseColumn(t.(indexs := []), p);
      EraseColumnFits(t.(indexs := []), p);
      TempInRange(t2);
      PushIndexFits(t2, TempIndex(t2));
    } else {
      EraseColumnFits(t, p);
    }
  }

  lemma InsertRowsFits(t: Table, rs: seq<Record>)
    requires WellFormed(t) && |t.indexs| == 1 && Coherent(Live(t.slots) + ToSet(rs))
    requires forall i :: 0 <= i < |rs| ==> |rs[i].vals| == |t.cols|
    ensures WellFormed(InsertRows(t, rs).value)
    ensures Live(InsertRows(t, rs).value.slots) == Maxima(t.RuleOf(t.indexs[0]), Live(t.slots) + ToSet(rs))
  {
    var r := InsertRows(t, rs).value;
    InsertAllIsMaxima(t.RuleOf(t.indexs[0]), t.slots, rs);
    LiveWidth(t.slots, |t.cols|);
    LiveWidth(r.slots, |t.cols|);
    assert KeyInRange(t, t.indexs[0]);
  }

  // ---------- statements ----------

  lemma {:induction false} FillColumnsFits(t: Table, cols: seq<ColumnStatement>)
    requires WellFormed(t) && t.indexs == []
    ensures WellFormed(FillColumns(t, cols))
    decreases |cols|
  {
    if cols != [] {
      FillColumnsFits(t, cols[..|cols| - 1]);
      var t1 := FillColumns(t, cols[..|cols| - 1]);
      PlaceColumnFits(t1, cols[|cols| - 1].Column(), |t1.cols|);
    }
  }

  lemma {:induction false} FillIndexsFits(t: Table, indexs: seq<IndexStatement>)
    requires WellFormed(t) && HasUpd(t) && t.slots == [] && t.indexs == []
    requires forall i :: 0 <= i < |indexs| ==> KeysKnown(t, indexs[i].keys)
    ensures WellFormed(FillIndexs(t, indexs)) && FillIndexs(t, indexs).slots == []
    decreases |indexs|
  {
    if indexs != [] {
      var t1, last := FillIndexs(t, indexs[..|indexs| - 1]), indexs[|indexs| - 1];
      FillIndexsFits(t, indexs[..|indexs| - 1]);
      assert KeysKnown(t, last.keys);
      KeysInRange(t1, last.keys);
      PushIndexFits(t1, KeyIndex(t1, last));
    }
  }

  lemma FillFits(t: Table, st: Statement)
    requires WellFormed(t) && Fits(t, st) && Fill(t, st).Ok?
    ensures WellFormed(Fill(t, st).value)
  {
    match st
    case CreateTable(_, cols, indexs) =>
      FillColumnsFits(t, cols);
      var t1 := FillColumns(t, cols);
      if indexs == [] {
        TempInRange(t1);
        PushIndexFits(t1, TempIndex(t1));
      } else {
        FillIndexsFits(t1, indexs);
      }
    case AddCol(col, insAfter) => AddColumnFits(t, col.Column(), insAfter);
    case Nothing =>
    case DropCol(colName) =>
      ShrinkIndexFits(t, FindCol(t.cols, colName).value);
      FinishDropFits(ShrinkIndex(t, FindCol(t.cols, colName).value), FindCol(t.cols, colName).value);
    case DropIndex(isPrimary, indexName) => DropUniqueIndexFits(t, isPrimary, false, indexName);
    case AddIndex(isPrimary, indexName, keys) =>
      AddUniqueIndexFits(t, if isPrimary then "" else indexName, keys, isPrimary);
    case ChangeCol(col, prevName) => assert forall k :: 0 <= k < |t.indexs| ==> KeyInRange(t, t.indexs[k]);
  }

  /** A statement cannot tell tables with the same columns, keys and set of rows apart. */
  lemma FillAlike(a: Table, b: Table, st: Statement)
    requires WellFormed(a) && WellFormed(b) && Alike(a, b) && Fits(a, st)
    ensures Fits(b, st) && (Fill(a, st).Ok? <==> Fill(b, st).Ok?)
    ensures Fill(a, st).Ok? ==> Alike(Fill(a, st).value, Fill(b, st).value)
  {
    match st
    case CreateTable(_, cols, indexs) =>
    case AddCol(col, insAfter) => AddColumnAlike(a, b, col.Column(), insAfter);
    case Nothing =>
    case DropCol(colName) => DropColumnAlike(a, b, colName);
    case DropIndex(isPrimary, indexName) =>
      DropUniqueIndexAlike(a, b, isPrimary, false, indexName);
    case AddIndex(isPrimary, indexName, keys) =>
      AddUniqueIndexAlike(a, b, if isPrimary then "" else indexName, keys, isPrimary);
    case ChangeCol(col, prevName) =>
  }

  lemma AddUniqueIndexAlike(a: Table, b: Table, name: string, keys: seq<string>, isPrimary: bool)
    requires WellFormed(a) && WellFormed(b) && Alike(a, b) && HasUpd(a) && (TakesKey(a) ==> KeysKnown(a, keys))
    ensures AddUniqueIndex(a, name, keys, isPrimary).Ok? <==> AddUniqueIndex(b, name, keys, isPrimary).Ok?
    ensures AddUniqueIndex(a, name, keys, isPrimary).Ok? ==>
              Alike(AddUniqueIndex(a, name, keys, isPrimary).value, AddUniqueIndex(b, name, keys, isPrimary).value)
  {
    if AddUniqueIndex(a, name, keys, isPrimary).Ok? {
      AddUniqueIndexFits(a, name, keys, isPrimary);
      AddUniqueIndexFits(b, name, keys, isPrimary);
    }
  }

  lemma PlaceColumnAlike(a: Table, b: Table, c: Column, p: nat)
    requires WellFormed(a) && WellFormed(b) && Alike(a, b) && p <= |a.cols|
    ensures WellFormed(PlaceColumn(a, c, p)) && WellFormed(PlaceColumn(b, c, p))
    ensures Alike(PlaceColumn(a, c, p), PlaceColumn(b, c, p))
  {
    PlaceColumnFits(a, c, p);
    PlaceColumnFits(b, c, p);
  }

  lemma DropUniqueIndexAlike(a: Table, b: Table, isPrimary: bool, isTemp: bool, name: string)
    requires WellFormed(a) && WellFormed(b) && Alike(a, b) && HasUpd(a)
    ensures Alike(DropUniqueIndex(a, isPrimary, isTemp, name), DropUniqueIndex(b, isPrimary, isTemp, name))
  {
    DropUniqueIndexFits(a, isPrimary, isTemp, name);
    DropUniqueIndexFits(b, isPrimary, isTemp, name);
  }

  lemma AddColumnAlike(a: Table, b: Table, c: Column, after: Option<string>)
    requires WellFormed(a) && WellFormed(b) && Alike(a, b)
    ensures AddColumn(a, c, after).Ok? <==> AddColumn(b, c, after).Ok?
    ensures AddColumn(a, c, after).Ok? ==> Alike(AddColumn(a, c, after).value, AddColumn(b, c, after).value)
  {
    if AddColumn(a, c, after).Ok? {
      var p := PlaceAfter(a.cols, after).value;
      PlaceColumnAlike(a, b, c, p);
      var a1, b1 := PlaceColumn(a, c, p), PlaceColumn(b, c, p);
      if a1.indexs != [] && a1.indexs[0].isTemp {
        DropUniqueIndexAlike(a1, b1, false, true, "");
      }
    }
  }

  lemma ShrinkIndexAlike(a: Table, b: Table, p: nat)
    requires WellFormed(a) && WellFormed(b) && Alike(a, b) && HasUpd(a) && |a.indexs| == 1
    ensures Alike(ShrinkIndex(a, p), ShrinkIndex(b, p))
  {
    ShrinkIndexFits(a, p);
    ShrinkIndexFits(b, p);
  }

  lemma FinishDropAlike(a: Table, b: Table, p: nat)
    requires WellFormed(a) && WellFormed(b) && Alike(a, b)
    requires HasUpd(a) && |a.indexs| == 1 && p < |a.cols| && a.upd.value != p && p !in a.indexs[0].cols
    ensures Alike(FinishDrop(a, p), FinishDrop(b, p))
  {
    FinishDropFits(a, p);
    FinishDropFits(b, p);
    EraseColumnAlike(a, b, p);
    EraseColumnAlike(a.(indexs := []), b.(indexs := []), p);
  }

  lemma EraseColumnAlike(a: Table, b: Table, p: nat)
    requires a.(slots := []) == b.(slots := []) && p < |a.cols|
    ensures EraseColumn(a, p).(slots := []) == EraseColumn(b, p).(slots := [])
  {
  }

  lemma DropColumnAlike(a: Table, b: Table, name: string)
    requires WellFormed(a) && WellFormed(b) && Alike(a, b)
    requires HasUpd(a) && |a.indexs| == 1 && FindCol(a.cols, name) != a.upd
    ensures DropColumn(a, name).Ok? <==> DropColumn(b, name).Ok?
    ensures DropColumn(a, name).Ok? ==> Alike(DropColumn(a, name).value, DropColumn(b, name).value)
  {
    if DropColumn(a, name).Ok? {
      var p := FindCol(a.cols, name).value;
      ShrinkIndexFits(a, p);
      ShrinkIndexFits(b, p);
      ShrinkIndexAlike(a, b, p);
      FinishDropAlike(ShrinkIndex(a, p), ShrinkIndex(b, p), p);
    }
  }
}
