/** What each statement does to the columns, the keys and the rows of a table, told by names, positions and values. */
module StatementEffects {
  import opened Text
  import opened Merge
  import opened MergeTheorems
  import opened Schema
  import opened Statements
  import opened SchemaTheorems
  import opened Runs
  import opened KeyChanges

  // ---------- ADD COLUMN ----------

  /** Row x is row y with the value d at position p. */
  predicate Grown(x: Record, y: Record, p: nat, d: string) {
    && p <= |y.vals| && |x.vals| == |y.vals| + 1 && x.source == y.source && x.stamp == y.stamp
    && x.vals[p] == d && (forall q :: 0 <= q < p ==> x.vals[q] == y.vals[q])
    && forall q :: p <= q < |y.vals| ==> x.vals[q + 1] == y.vals[q]
  }

  lemma WidenGrows(p: nat, c: Column, y: Record)
    requires p <= |y.vals|
    ensures Grown(Widen(p, Default(c))(y), y, p, match c.def case Some(d) => d case None => "")
  {
  }

  /** Every row has the default in the new column, or nothing if there is none, and its old values in the others. */
  lemma AddedColumn(t: Table, col: ColumnStatement, after: Option<string>) returns (p: nat)
    requires WellFormed(t) && HasUpd(t) && Fits(t, AddCol(col, after)) && Fill(t, AddCol(col, after)).Ok?
    ensures p <= |t.cols|
    ensures Fill(t, AddCol(col, after)).value.cols ==
              t.cols[..p] + [Schema.Column(col.name, col.typ, col.defaultStr)] + t.cols[p..]
    ensures match after
            case None => p == |t.cols|
            case Some(a) => p > 0 && t.cols[p - 1].name == a && forall i :: 0 <= i < p - 1 ==> t.cols[i].name != a
    ensures var d := match col.defaultStr case Some(v) => v case None => "";
            forall x :: x in Live(Fill(t, AddCol(col, after)).value.slots) ==>
              exists y :: y in Live(t.slots) && Grown(x, y, p, d)
    ensures Fill(t, AddCol(col, after)).value.upd ==
              Some(if col.name == "updated_at" then p else if p <= t.upd.value then t.upd.value + 1 else t.upd.value)
  {
    p := PlaceAfter(t.cols, after).value;
    AddedRows(t, col.Column(), p);
  }

  lemma AddedRows(t: Table, c: Column, p: nat)
    requires WellFormed(t) && HasUpd(t) && p <= |t.cols|
    ensures forall x :: x in Live(RenewTemporary(PlaceColumn(t, c, p)).slots) ==>
              exists y :: y in Live(t.slots) && Grown(x, y, p, match c.def case Some(v) => v case None => "")
  {
    var placed := PlaceColumn(t, c, p);
    PlaceColumnFits(t, c, p);
    forall x | x in Live(RenewTemporary(placed).slots)
      ensures exists y :: y in Live(t.slots) && Grown(x, y, p, match c.def case Some(v) => v case None => "")
    {
      RenewNames(placed, x);
      var y :| y in Live(t.slots) && Widen(p, Default(c))(y) == x;
      WidenGrows(p, c, y);
    }
  }

  /** A named key, or a temporary one without collisions, loses no row. */
  lemma AddedColumnKeeps(t: Table, col: ColumnStatement, after: Option<string>, y: Record) returns (p: nat, x: Record)
    requires WellFormed(t) && HasUpd(t) && Fits(t, AddCol(col, after)) && Fill(t, AddCol(col, after)).Ok?
    requires |t.indexs| == 1 && TempComplete(t) && Injective(t.hash) && y in Live(t.slots)
    ensures x in Live(Fill(t, AddCol(col, after)).value.slots)
    ensures Grown(x, y, p, match col.defaultStr case Some(v) => v case None => "")
  {
    var c := col.Column();
    p := PlaceAfter(t.cols, after).value;
    x := Widen(p, Default(c))(y);
    PlaceColumnFits(t, c, p);
    WidenGrows(p, c, y);
    if t.indexs[0].isTemp {
      AddColumnKeepsRows(t, c, after);
      LiveMap(Widen(p, Default(c)), t.slots);
    }
  }

  lemma AddedNowhere(t: Table, col: ColumnStatement, after: Option<string>)
    requires HasUpd(t)
    ensures Fill(t, AddCol(col, after)).Err? <==>
            after.Some? && forall i :: 0 <= i < |t.cols| ==> t.cols[i].name != after.value
  {
  }

  // ---------- DROP COLUMN ----------

  /** Row x is row y without the value at position p. */
  predicate Shrunk(x: Record, y: Record, p: nat) {
    && p < |y.vals| && |x.vals| == |y.vals| - 1 && x.source == y.source && x.stamp == y.stamp
    && (forall q :: 0 <= q < p ==> x.vals[q] == y.vals[q])
    && forall q :: p < q < |y.vals| ==> x.vals[q - 1] == y.vals[q]
  }

  lemma DroppedColumn(t: Table, name: string) returns (p: nat)
    requires WellFormed(t) && Fits(t, DropCol(name)) && Fill(t, DropCol(name)).Ok?
    ensures p < |t.cols| && t.cols[p].name == name && forall i :: 0 <= i < p ==> t.cols[i].name != name
    ensures Fill(t, DropCol(name)).value.cols == t.cols[..p] + t.cols[p + 1..]
    ensures forall x :: x in Live(Fill(t, DropCol(name)).value.slots) ==>
              exists y :: y in Live(t.slots) && Shrunk(x, y, p)
    ensures Fill(t, DropCol(name)).value.upd == Some(if p < t.upd.value then t.upd.value - 1 else t.upd.value)
  {
    p := FindCol(t.cols, name).value;
    DroppedRows(t, p);
    assert RemoveAt(t.cols, p) == t.cols[..p] + t.cols[p + 1..];
  }

  lemma NarrowShrinks(p: nat, y: Record)
    requires p < |y.vals|
    ensures Shrunk(Narrow(p)(y), y, p)
  {
  }

  lemma DroppedRows(t: Table, p: nat)
    requires WellFormed(t) && HasUpd(t) && |t.indexs| == 1 && p < |t.cols| && t.upd.value != p
    ensures forall x :: x in Live(FinishDrop(ShrinkIndex(t, p), p).slots) ==>
              exists y :: y in Live(t.slots) && Shrunk(x, y, p)
  {
    ShrinkIndexFits(t, p);
    var t1 := ShrinkIndex(t, p);
    FinishDropFits(t1, p);
    forall x | x in Live(FinishDrop(t1, p).slots)
      ensures exists y :: y in Live(t.slots) && Shrunk(x, y, p)
    {
      assert x in Image(Narrow(p), Live(t1.slots));
      var y :| y in Live(t1.slots) && Narrow(p)(y) == x;
      NarrowShrinks(p, y);
    }
  }

  lemma DroppedNothing(t: Table, name: string)
    requires Fits(t, DropCol(name))
    ensures Fill(t, DropCol(name)).Err? <==> forall i :: 0 <= i < |t.cols| ==> t.cols[i].name != name
  {
  }

  // ---------- CHANGE COLUMN ----------

  /** Name and default are replaced, the type stays, and so does everything else. */
  lemma ChangedColumn(t: Table, col: ColumnStatement, prev: string)
    requires HasUpd(t)
    ensures Fill(t, ChangeCol(col, prev)).Err? <==> forall i :: 0 <= i < |t.cols| ==> t.cols[i].name != prev
    ensures Fill(t, ChangeCol(col, prev)).Ok? ==>
              var r := Fill(t, ChangeCol(col, prev)).value;
              && r.slots == t.slots && r.indexs == t.indexs && r.upd == t.upd && |r.cols| == |t.cols|
              && exists p :: 0 <= p < |t.cols| && ChangedAt(t.cols, r.cols, p, col, prev)
  {
    match FindCol(t.cols, prev)
    case None =>
    case Some(p) => assert ChangedAt(t.cols, Fill(t, ChangeCol(col, prev)).value.cols, p, col, prev);
  }

  predicate ChangedAt(was: seq<Column>, now: seq<Column>, p: nat, col: ColumnStatement, prev: string)
    requires p < |was| == |now|
  {
    && was[p].name == prev && (forall i :: 0 <= i < p ==> was[i].name != prev)
    && now[p].name == col.name && now[p].def == col.defaultStr && now[p].typ == was[p].typ
    && forall i :: 0 <= i < |was| && i != p ==> now[i] == was[i]
  }

  // ---------- keys ----------

  /** The key covers the columns with these names, the first of each name, in this order. */
  predicate Covers(t: Table, index: Index, names: seq<string>) {
    |index.cols| == |names| &&
    forall j :: 0 <= j < |names| ==>
      && 0 <= index.cols[j] < |t.cols| && t.cols[index.cols[j]].name == names[j]
      && forall i :: 0 <= i < index.cols[j] ==> t.cols[i].name != names[j]
  }

  lemma FoundCovers(t: Table, index: Index, names: seq<string>)
    requires FindAll(t.cols, names).Some? && index.cols == FindAll(t.cols, names).value
    ensures Covers(t, index, names)
  {
    FindAllLength(t.cols, names);
    forall j | 0 <= j < |names|
      ensures 0 <= index.cols[j] < |t.cols| && t.cols[index.cols[j]].name == names[j]
      ensures forall i :: 0 <= i < index.cols[j] ==> t.cols[i].name != names[j]
    {
      FindAllAt(t.cols, names, j);
    }
  }

  /** Every column but `updated_at`, in order. */
  predicate CoversAll(t: Table, index: Index) {
    && t.upd.Some? && t.upd.value < |t.cols| && |index.cols| == |t.cols| - 1
    && forall j :: 0 <= j < |index.cols| ==> index.cols[j] == if j < t.upd.value then j else j + 1
  }

  /** A named key takes the place of a temporary one, and of no other. */
  lemma AddedKey(t: Table, isPrimary: bool, name: string, keys: seq<string>)
    requires WellFormed(t) && HasUpd(t) && Fits(t, AddIndex(isPrimary, name, keys))
    ensures Fill(t, AddIndex(isPrimary, name, keys)).Ok? <==> |t.indexs| == 1 && t.indexs[0].isTemp
    ensures Fill(t, AddIndex(isPrimary, name, keys)).Ok? ==>
              var r := Fill(t, AddIndex(isPrimary, name, keys)).value;
              && r.cols == t.cols && r.upd == t.upd && |r.indexs| == 1 && Covers(t, r.indexs[0], keys)
              && r.indexs[0].isPrimary == isPrimary && !r.indexs[0].isTemp
              && r.indexs[0].name == (if isPrimary then "" else name)
              && Live(r.slots) <= Live(t.slots)
  {
    if Fill(t, AddIndex(isPrimary, name, keys)).Ok? {
      AddUniqueIndexFits(t, if isPrimary then "" else name, keys, isPrimary);
      var r := Fill(t, AddIndex(isPrimary, name, keys)).value;
      assert r.indexs == [r.indexs[0]];
      FoundCovers(t, r.indexs[0], keys);
    }
  }

  /** Dropping a key: the first that is primary, or has the name; a temporary key follows the last. */
  lemma DroppedKey(t: Table, isPrimary: bool, name: string)
    requires WellFormed(t) && HasUpd(t) && |t.indexs| == 1
    ensures var r, k := Fill(t, DropIndex(isPrimary, name)).value, t.indexs[0];
            && r.cols == t.cols && r.upd == t.upd && Live(r.slots) <= Live(t.slots) && |r.indexs| == 1
            && (!(if isPrimary then k.isPrimary else k.name == name) ==> r == t)
            && ((if isPrimary then k.isPrimary else k.name == name) ==>
                  r.indexs[0].isTemp && !r.indexs[0].isPrimary && CoversAll(t, r.indexs[0]))
  {
    DropUniqueIndexFits(t, isPrimary, false, name);
    assert t.indexs == [t.indexs[0]];
    if FindIndex(isPrimary, false, name, t.indexs).Some? {
      assert RemoveAt(t.indexs, 0) == [];
      assert t.(indexs := []).(indexs := t.indexs) == t;
    }
  }

  /** A key that was added is dropped again by its designation, and by no other. */
  lemma AddedThenDropped(t: Table, isPrimary: bool, name: string, keys: seq<string>, other: string)
    requires WellFormed(t) && HasUpd(t) && Fits(t, AddIndex(isPrimary, name, keys))
    requires Fill(t, AddIndex(isPrimary, name, keys)).Ok?
    ensures var r := Fill(t, AddIndex(isPrimary, name, keys)).value;
            && Fill(r, DropIndex(isPrimary, name)).value.indexs[..] == [TempIndex(t)]
            && (other != (if isPrimary then "" else name) ==> Fill(r, DropIndex(false, other)).value == r)
            && (!isPrimary ==> Fill(r, DropIndex(true, other)).value == r)
  {
    var r := Fill(t, AddIndex(isPrimary, name, keys)).value;
    AddedKey(t, isPrimary, name, keys);
    assert r.indexs == [r.indexs[0]];
    assert RemoveAt(r.indexs, 0) == [];
  }

  // ---------- CREATE TABLE ----------

  /** The table of an empty schema: the columns as they are named, and the keys they ask for, or one of all columns. */
  lemma CreatedTable(hash: seq<string> -> int, name: string, cols: seq<ColumnStatement>, indexs: seq<IndexStatement>)
    requires Fits(EmptyTable(hash), CreateTable(name, cols, indexs))
    ensures var r := Fill(EmptyTable(hash), CreateTable(name, cols, indexs)).value;
            && |r.cols| == |cols| && r.slots == []
            && (forall i :: 0 <= i < |cols| ==>
                  r.cols[i].name == cols[i].name && r.cols[i].typ == cols[i].typ && r.cols[i].def == cols[i].defaultStr)
            && r.upd.Some? && r.upd.value < |cols| && cols[r.upd.value].name == "updated_at"
            && (forall i :: r.upd.value < i < |cols| ==> cols[i].name != "updated_at")
            && (indexs == [] ==> |r.indexs| == 1 && r.indexs[0].isTemp && CoversAll(r, r.indexs[0]))
            && (indexs != [] ==> |r.indexs| == |indexs| && forall k :: 0 <= k < |indexs| ==>
                  IsKeyOf(r, r.indexs[k], indexs[k]))
  {
    var t := FillColumns(EmptyTable(hash), cols);
    CreatedColumns(hash, cols);
    if indexs != [] {
      CreatedKeys(t, indexs);
    }
  }

  /** A CREATE counts in the first state only. */
  lemma CreatedOnce(t: Table, i: nat, name: string, cols: seq<ColumnStatement>, indexs: seq<IndexStatement>)
    requires i > 0
    ensures Trace(t, i, CreateTable(name, cols, indexs)) == Ok(t)
  {
  }

  predicate IsKeyOf(t: Table, index: Index, st: IndexStatement) {
    index.name == st.name && index.isPrimary == st.isPrimaryKey && !index.isTemp && Covers(t, index, st.keys)
  }

  lemma {:induction false} CreatedColumns(hash: seq<string> -> int, cols: seq<ColumnStatement>)
    ensures var r := FillColumns(EmptyTable(hash), cols);
            && |r.cols| == |cols| && r.slots == []
            && (forall i :: 0 <= i < |cols| ==>
                  r.cols[i] == Schema.Column(cols[i].name, cols[i].typ, cols[i].defaultStr))
            && (r.upd.None? ==> forall i :: 0 <= i < |cols| ==> cols[i].name != "updated_at")
            && (r.upd.Some? ==> r.upd.value < |cols| && cols[r.upd.value].name == "updated_at")
            && (r.upd.Some? ==> forall i :: r.upd.value < i < |cols| ==> cols[i].name != "updated_at")
    decreases |cols|
  {
    if cols != [] {
      CreatedColumns(hash, cols[..|cols| - 1]);
    }
  }

  lemma {:induction false} CreatedKeys(t: Table, indexs: seq<IndexStatement>)
    requires t.upd.Some? && t.indexs == [] && t.slots == []
    requires forall i :: 0 <= i < |indexs| ==> KeysKnown(t, indexs[i].keys)
    ensures var r := FillIndexs(t, indexs);
            && r.slots == [] && r.cols == t.cols && |r.indexs| == |indexs|
            && forall k :: 0 <= k < |indexs| ==> IsKeyOf(t, r.indexs[k], indexs[k])
    decreases |indexs|
  {
    if indexs != [] {
      var n := |indexs| - 1;
      CreatedKeys(t, indexs[..n]);
      assert KeysKnown(t, indexs[n].keys);
      FoundCovers(t, KeyIndex(t, indexs[n]), indexs[n].keys);
      forall k | 0 <= k < n
        ensures IsKeyOf(t, FillIndexs(t, indexs).indexs[k], indexs[k])
      {
        assert indexs[..n][k] == indexs[k];
      }
    }
  }
}
