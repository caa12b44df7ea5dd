/**
 The merge engine in place: rows carry a back-pointer to their slot, columns are objects that map a
 logical column to a physical one, and the index is a hash table from key hash to row. Deleted and
 superseded rows leave null slots behind.
 */
module TableEngine {
  import opened Text
  import opened Merge
  import opened MergeTheorems
  import Schema

  class ColumnDescriptor {
    var name: string
    var typ: string
    var def: Option<string>
    var mapping: int

    constructor (name: string, typ: string, def: Option<string>)
      ensures this.name == name && this.typ == typ && this.def == def && mapping == -1
    {
      this.name, this.typ, this.def, mapping := name, typ, def, -1;
    }

    function Column(): Schema.Column
      reads this
    {
      Schema.Column(name, typ, def)
    }
  }

  class Row {
    var data: seq<string>
    const source: int
    const stamp: int
    var idxInsideTable: int

    constructor (data: seq<string>, source: int, stamp: int)
      ensures this.data == data && this.source == source && this.stamp == stamp && idxInsideTable == -1
    {
      this.data, this.source, this.stamp, idxInsideTable := data, source, stamp, -1;
    }

    function Rec(): Record
      reads this`data
    {
      Record(data, source, stamp)
    }
  }

  /** A physical row read through the column mapping. */
  function View(phy: seq<int>): Record -> Record {
    (r: Record) => Record(seq(|phy|, i requires 0 <= i < |phy| => At(r, phy[i])), r.source, r.stamp)
  }

  function Append(x: string): Record -> Record {
    (r: Record) => r.(vals := r.vals + [x])
  }

  /** A new physical column at the end is, to the user, a new column at position p. */
  lemma ViewAppend(phy: seq<int>, p: nat, x: string, r: Record)
    requires p <= |phy| && forall i :: 0 <= i < |phy| ==> 0 <= phy[i] < |r.vals|
    ensures View(Schema.InsertAt(phy, p, |r.vals|))(Append(x)(r)) == Schema.Widen(p, x)(View(phy)(r))
  {
    var phy1 := Schema.InsertAt(phy, p, |r.vals|);
    forall i | 0 <= i < |phy1|
      ensures At(Append(x)(r), phy1[i]) == Schema.InsertAt(View(phy)(r).vals, p, x)[i]
    {
      assert i < p ==> phy1[i] == phy[i];
      assert i > p ==> phy1[i] == phy[i - 1];
    }
  }

  /** Values added at the end of a row do not touch its key. */
  lemma HashAppend(rule: Rule, x: string, w: nat, slot: Option<Record>)
    requires forall j :: 0 <= j < |rule.key| ==> 0 <= rule.key[j] < w
    ensures slot.Some? && |slot.value.vals| == w ==> rule.Hash(Append(x)(slot.value)) == rule.Hash(slot.value)
  {
    if slot.Some? && |slot.value.vals| == w {
      assert KeyAt(rule.key, Append(x)(slot.value)) == KeyAt(rule.key, slot.value);
    }
  }

  /** A dropped column stays in the row and is no longer seen. */
  lemma ViewErase(phy: seq<int>, p: nat, r: Record)
    requires p < |phy|
    ensures View(Schema.RemoveAt(phy, p))(r) == Schema.Narrow(p)(View(phy)(r))
  {
    assert View(Schema.RemoveAt(phy, p))(r).vals == Schema.Narrow(p)(View(phy)(r)).vals;
  }

  /** A key of physical columns, and the same columns by position. */
  ghost predicate SameKey(phy: seq<int>, hashPhy: seq<int>, key: seq<int>) {
    |hashPhy| == |key| && forall j :: 0 <= j < |key| ==> 0 <= key[j] < |phy| && hashPhy[j] == phy[key[j]]
  }

  lemma ViewRule(phy: seq<int>, here: Rule, there: Rule, slots: Slots)
    requires here.hash == there.hash && SameKey(phy, here.key, there.key)
    requires 0 <= there.upd < |phy| && here.upd == phy[there.upd]
    ensures SameRules(View(phy), here, there, slots)
    ensures MapSlots(View(phy), Reindex(here, slots)) == Reindex(there, MapSlots(View(phy), slots))
  {
    MapReindex(View(phy), here, there, slots);
  }

  lemma ViewInsert(phy: seq<int>, here: Rule, there: Rule, slots: Slots, r: Record)
    requires here.hash == there.hash && SameKey(phy, here.key, there.key)
    requires 0 <= there.upd < |phy| && here.upd == phy[there.upd]
    ensures MapSlots(View(phy), Insert(here, slots, r)) == Insert(there, MapSlots(View(phy), slots), View(phy)(r))
  {
    MapInsert(View(phy), here, there, slots, r);
  }

  lemma EraseView(phy: seq<int>, slots: Slots, p: nat)
    requires p < |phy|
    ensures MapSlots(View(Schema.RemoveAt(phy, p)), slots) == MapSlots(Schema.Narrow(p), MapSlots(View(phy), slots))
  {
    forall k | 0 <= k < |slots| && slots[k].Some?
      ensures View(Schema.RemoveAt(phy, p))(slots[k].value) == Schema.Narrow(p)(View(phy)(slots[k].value))
    {
      ViewErase(phy, p, slots[k].value);
    }
  }

  lemma ColsErase(colDes: seq<ColumnDescriptor>, phy: seq<int>, cols: seq<Schema.Column>, w: int, p: nat)
    requires ColsOk(colDes, phy, cols, w) && p < |colDes|
    ensures ColsOk(Schema.RemoveAt(colDes, p), Schema.RemoveAt(phy, p), Schema.RemoveAt(cols, p), w)
  {
    var phy1 := Schema.RemoveAt(phy, p);
    forall i | 0 <= i < |phy1|
      ensures phy1[i] == phy[if i < p then i else i + 1]
    {
    }
  }

  ghost predicate ColsOk(colDes: seq<ColumnDescriptor>, phy: seq<int>, cols: seq<Schema.Column>, w: int)
    reads colDes
  {
    && |phy| == |colDes| == |cols|
    && (forall i :: 0 <= i < |colDes| ==>
          colDes[i].mapping == phy[i] && colDes[i].Column() == cols[i] && 0 <= phy[i] < w)
    && (forall i, j :: 0 <= i < j < |phy| ==> phy[i] != phy[j])
  }

  lemma ColsInsert(colDes: seq<ColumnDescriptor>, phy: seq<int>, cols: seq<Schema.Column>, w: int, c: ColumnDescriptor,
    p: nat)
    requires ColsOk(colDes, phy, cols, w) && p <= |colDes| && c.mapping == w && w >= 0
    ensures ColsOk(Schema.InsertAt(colDes, p, c), Schema.InsertAt(phy, p, w), Schema.InsertAt(cols, p, c.Column()),
            w + 1)
  {
    var phy1 := Schema.InsertAt(phy, p, w);
    forall i | 0 <= i < |phy1|
      ensures i < p ==> phy1[i] == phy[i]
      ensures i == p ==> phy1[i] == w
      ensures i > p ==> phy1[i] == phy[i - 1]
    {
    }
  }

  class UniqueIndex {
    const table: Table
    var name: string
    var cols: seq<ColumnDescriptor>
    var hash: map<int, Row>
    var isPrimary: bool
    var isTemp: bool
    var hashPhy: seq<int>

    function Rule(): Rule
      reads this`hashPhy, table`updCol, table.updCol`mapping
      requires table.updCol != null
    {
      Merge.Rule(table.hasher, hashPhy, table.updCol.mapping)
    }

    function HashOf(r: Record): int
      reads this`hashPhy
    {
      table.hasher(KeyAt(hashPhy, r))
    }

    /** The row in slot k is the one the hash holds under its key. */
    ghost predicate Indexed(k: int)
      reads this`hashPhy, this`hash, table`rows, table`slots
      requires 0 <= k < |table.rows| == |table.slots|
    {
      table.slots[k].Some? ==>
        var h := HashOf(table.slots[k].value);
        h in hash && hash[h] == table.rows[k]
    }

    /** The row under h sits in one of the first n slots and has that key. */
    ghost predicate Points(h: int, n: nat)
      reads this`hashPhy, this`hash, table`rows, table`slots, table`repr, table.repr`idxInsideTable
      requires n <= |table.rows| == |table.slots| && h in hash
    {
      && hash[h] in table.repr
      && var k := hash[h].idxInsideTable;
      0 <= k < n && table.rows[k] == hash[h] && table.slots[k].Some? && HashOf(table.slots[k].value) == h
    }

    /** The hash is a bijection onto the live rows of the first n slots. */
    ghost predicate Synced(n: nat)
      reads this`hashPhy, this`hash, table`rows, table`slots, table`repr, table.repr`idxInsideTable
      requires n <= |table.rows| == |table.slots|
    {
      && (forall k :: 0 <= k < n ==> Indexed(k))
      && (forall h :: h in hash ==> Points(h, n))
    }

    /** cs are the columns at the positions ps. */
    static predicate Positioned(colDes: seq<ColumnDescriptor>, cs: seq<ColumnDescriptor>, ps: seq<int>) {
      |cs| == |ps| && forall j :: 0 <= j < |cs| ==> 0 <= ps[j] < |colDes| && cs[j] == colDes[ps[j]]
    }

    static lemma PositionedErase(colDes: seq<ColumnDescriptor>, cs: seq<ColumnDescriptor>, ps: seq<int>, q: nat)
      requires Positioned(colDes, cs, ps) && q < |cs|
      ensures Positioned(colDes, Schema.RemoveAt(cs, q), Schema.RemoveAt(ps, q))
    {
    }

    /** cols are the columns that `index` names by position. */
    ghost predicate ColsMatch(index: Schema.Index)
      reads this`name, this`isPrimary, this`isTemp, this`cols, table`colDes
    {
      && name == index.name && isPrimary == index.isPrimary && isTemp == index.isTemp
      && Positioned(table.colDes, cols, index.cols)
    }

    ghost predicate Shaped(index: Schema.Index)
      reads this`name, this`isPrimary, this`isTemp, this`cols, this`hashPhy, table`colDes, table.colDes`mapping
    {
      && ColsMatch(index)
      && |hashPhy| == |cols|
      && (forall j :: 0 <= j < |cols| ==> cols[j] in table.colDes && hashPhy[j] == cols[j].mapping)
    }

    /** The key follows columns `was`, none of which is c. */
    ghost predicate Expects(was: seq<ColumnDescriptor>, li: Schema.Index, c: ColumnDescriptor)
      reads this`name, this`isPrimary, this`isTemp, this`cols, this`hashPhy, was`mapping
    {
      && name == li.name && isPrimary == li.isPrimary && isTemp == li.isTemp && |cols| == |li.cols| == |hashPhy|
      && (forall j :: 0 <= j < |cols| ==>
            0 <= li.cols[j] < |was| && cols[j] == was[li.cols[j]] && cols[j] != c &&
              hashPhy[j] == was[li.cols[j]].mapping)
    }

    lemma ShapedInsert(was: seq<ColumnDescriptor>, li: Schema.Index, p: nat, c: ColumnDescriptor)
      requires p <= |was| && Expects(was, li, c) && table.colDes == Schema.InsertAt(was, p, c)
      ensures Shaped(li.(cols := Schema.UpAll(p, li.cols)))
    {
      forall j | 0 <= j < |cols|
        ensures 0 <= Schema.Up(p, li.cols[j]) < |table.colDes| && cols[j] == table.colDes[Schema.Up(p, li.cols[j])]
      {
      }
    }

    lemma NotAmong(li: Schema.Index, p: nat)
      requires table.Columns() && Shaped(li) && p < |table.colDes| && p !in li.cols
      ensures Expects(table.colDes, li, table.colDes[p])
    {
      SameColumn(li, p);
    }

    lemma ShapedErase(was: seq<ColumnDescriptor>, li: Schema.Index, p: nat)
      requires p < |was| && p !in li.cols && Expects(was, li, was[p]) && table.colDes == Schema.RemoveAt(was, p)
      ensures Shaped(li.(cols := Schema.DownAll(p, li.cols)))
    {
      forall j | 0 <= j < |cols|
        ensures 0 <= Schema.Down(p, li.cols[j]) < |table.colDes| && cols[j] == table.colDes[Schema.Down(p, li.cols[j])]
      {
        assert li.cols[j] in li.cols;
      }
    }

    /** The end of every change of cols. */
    method Rebuild(ghost index: Schema.Index)
      requires table.updCol != null && table.Stored(0, |table.rows|) && ColsMatch(index)
      modifies this`hashPhy, this`hash, table`rows, table`slots, table.repr`idxInsideTable
      ensures Shaped(index) && table.Stored(0, |table.rows|) && Synced(|table.rows|)
      ensures |table.rows| == old(|table.rows|) && table.slots == Reindex(Rule(), old(table.slots))
    {
      SetHashPhy();
      ReCompute();
    }

    /** A key over the named columns. */
    constructor Named(table: Table, name: string, colNames: seq<string>, isPrimary: bool)
      requires table.updCol != null && table.Columns() && table.Stored(0, |table.rows|)
      requires Schema.FindAll(table.model.cols, colNames).Some?
      modifies table`rows, table`slots, table.repr`idxInsideTable
      ensures this.table == table
      ensures Shaped(Schema.Index(name, isPrimary, false, Schema.FindAll(table.model.cols, colNames).value))
      ensures table.Stored(0, |table.rows|) && Synced(|table.rows|)
      ensures table.slots == Reindex(Rule(), old(table.slots))
    {
      this.table, this.name, this.isPrimary, isTemp := table, name, isPrimary, false;
      cols, hashPhy, hash := [], [], map[];
      new;
      ResolveCols(colNames);
      Rebuild(Schema.Index(name, isPrimary, false, Schema.FindAll(table.model.cols, colNames).value));
    }

    method ResolveCols(colNames: seq<string>)
      requires table.Columns() && Schema.FindAll(table.model.cols, colNames).Some? && cols == []
      modifies this`cols
      ensures var ps := Schema.FindAll(table.model.cols, colNames).value;
              |cols| == |ps| && forall j :: 0 <= j < |ps| ==>
                0 <= ps[j] < |table.colDes| && cols[j] == table.colDes[ps[j]]
    {
      ghost var ps := Schema.FindAll(table.model.cols, colNames).value;
      Schema.FindAllLength(table.model.cols, colNames);
      var i := 0;
      while i < |colNames|
        invariant 0 <= i <= |colNames| == |ps| && |cols| == i
        invariant forall j :: 0 <= j < i ==> 0 <= ps[j] < |table.colDes| && cols[j] == table.colDes[ps[j]]
      {
        Schema.FindAllAt(table.model.cols, colNames, i);
        var p := table.FindColumn(colNames[i]);
        cols := cols + [table.colDes[p.value]];
        i := i + 1;
      }
    }

    /** A key over every column but `updated_at`, for a table without one of its own. */
    constructor Temp(table: Table)
      requires table.updCol != null && table.Columns() && table.Stored(0, |table.rows|)
      modifies table`rows, table`slots, table.repr`idxInsideTable
      ensures this.table == table && Shaped(Schema.TempIndex(table.model))
      ensures table.Stored(0, |table.rows|) && Synced(|table.rows|)
      ensures table.slots == Reindex(Rule(), old(table.slots))
    {
      this.table, name, isPrimary, isTemp := table, "___TEMP_PRIMARY", false, true;
      cols, hashPhy, hash := table.colDes, [], map[];
      new;
      var p := FindIn(cols, table.updCol);
      assert p.value == table.model.upd.value by {
        assert table.phy[p.value] == table.phy[table.model.upd.value];
      }
      cols := cols[..p.value] + cols[p.value + 1..];
      Rebuild(Schema.TempIndex(table.model));
    }

    /** The key loses a column, if it has it. */
    method DeleteCol(delCol: ColumnDescriptor, ghost p: nat, ghost index: Schema.Index)
      requires table.updCol != null && table.Columns() && table.Stored(0, |table.rows|) && Synced(|table.rows|)
      requires p < |table.colDes| && table.colDes[p] == delCol && Shaped(index)
      modifies this, table`rows, table`slots, table.repr`idxInsideTable
      ensures table.Stored(0, |table.rows|) && Synced(|table.rows|)
      ensures if p in index.cols then
                && Shaped(index.(cols := Schema.RemoveValue(index.cols, p)))
                && table.slots == Reindex(Rule(), old(table.slots))
              else Shaped(index) && table.slots == old(table.slots) && table.rows == old(table.rows)
    {
      SameColumn(index, p);
      var q := FindIn(cols, delCol);
      if q.Some? {
        Schema.RemoveValueAt(index.cols, q.value);
        PositionedErase(table.colDes, cols, index.cols, q.value);
        cols := cols[..q.value] + cols[q.value + 1..];
        Rebuild(index.(cols := Schema.RemoveValue(index.cols, p)));
      }
    }

    /** Column objects are distinct, so an object and its position say the same. */
    lemma SameColumn(li: Schema.Index, p: nat)
      requires table.Columns() && ColsMatch(li) && p < |table.colDes|
      ensures forall j :: 0 <= j < |cols| ==> (cols[j] == table.colDes[p] <==> li.cols[j] == p)
    {
      forall j | 0 <= j < |cols| && li.cols[j] != p
        ensures cols[j] != table.colDes[p]
      {
        assert table.phy[li.cols[j]] != table.phy[p];
      }
    }

    static method FindIn(cols: seq<ColumnDescriptor>, col: ColumnDescriptor) returns (p: Option<nat>)
      ensures p.Some? ==> p.value < |cols| && cols[p.value] == col && forall i :: 0 <= i < p.value ==> cols[i] != col
      ensures p.None? ==> col !in cols
    {
      var i := 0;
      while i < |cols|
        invariant 0 <= i <= |cols|
        invariant forall j :: 0 <= j < i ==> cols[j] != col
      {
        if cols[i] == col {
          return Some(i);
        }
        i := i + 1;
      }
      p := None;
    }

    method SetHashPhy()
      modifies this`hashPhy
      ensures |hashPhy| == |cols| && forall j :: 0 <= j < |cols| ==> hashPhy[j] == cols[j].mapping
    {
      hashPhy := [];
      var pos := 0;
      while pos < |cols|
        invariant 0 <= pos <= |cols| && |hashPhy| == pos
        invariant forall j :: 0 <= j < pos ==> hashPhy[j] == cols[j].mapping
      {
        hashPhy := hashPhy + [cols[pos].mapping];
        pos := pos + 1;
      }
    }

    method ReCompute()
      requires table.updCol != null && table.Stored(0, |table.rows|)
      modifies this`hash, table`rows, table`slots, table.repr`idxInsideTable
      ensures |table.rows| == old(|table.rows|)
      ensures table.Stored(0, |table.rows|) && Synced(|table.rows|)
      ensures table.slots == Reindex(Rule(), old(table.slots))
    {
      hash := map[];
      ghost var was := table.slots;
      var rowCount := |table.rows|;
      var i := 0;
      while i < rowCount
        invariant 0 <= i <= rowCount == |table.rows| == |was|
        invariant table.Stored(0, rowCount) && Synced(i)
        invariant forall k :: i <= k < rowCount ==> table.slots[k] == was[k]
        invariant table.slots[..i] == Reindex(Rule(), was[..i])
      {
        ReComputeSlot(i, was);
        i := i + 1;
      }
      WholeSeq(was);
      WholeSeq(table.slots);
    }

    lemma SyncedSkip(n: nat)
      requires table.updCol != null && n < |table.rows| == |table.slots| && Synced(n) && table.slots[n].None?
      ensures Synced(n + 1)
    {
      forall h | h in hash
        ensures Points(h, n + 1)
      {
        assert Points(h, n);
      }
    }

    /** One turn of the loop of ReCompute. */
    method ReComputeSlot(i: nat, ghost was: Slots)
      requires table.updCol != null && i < |table.rows| == |was| && table.Stored(0, |table.rows|) && Synced(i)
      requires table.slots[..i] == Reindex(Rule(), was[..i]) && forall k :: i <= k < |was| ==> table.slots[k] == was[k]
      modifies this`hash, table`rows, table`slots, table.repr`idxInsideTable
      ensures |table.rows| == old(|table.rows|) && table.Stored(0, |table.rows|) && Synced(i + 1)
      ensures table.slots[..i + 1] == Reindex(Rule(), was[..i + 1])
      ensures forall k :: i < k < |was| ==> table.slots[k] == was[k]
    {
      assert table.SlotOk(i);
      ReindexStep(Rule(), was, i);
      if table.rows[i] == null {
        SyncedSkip(i);
        assert table.slots[..i + 1] == table.slots[..i] + [None];
      } else {
        ReComputeLive(i);
      }
    }

    method ReComputeLive(i: nat)
      requires table.updCol != null && i < |table.rows| && table.Stored(0, |table.rows|) && Synced(i)
      requires table.rows[i] != null && table.slots[i].Some?
      modifies this`hash, table`rows, table`slots, table.repr`idxInsideTable
      ensures |table.rows| == old(|table.rows|) && table.Stored(0, |table.rows|) && Synced(i + 1)
      ensures forall k :: i < k < |table.rows| ==>
              table.rows[k] == old(table.rows)[k] && table.slots[k] == old(table.slots)[k]
      ensures var done, r := old(table.slots[..i]), old(table.slots[i].value);
              table.slots[..i + 1] == Absorb(Rule(), done, r)
    {
      var row := table.rows[i];
      assert table.SlotOk(i);
      forall k | 0 <= k < |table.rows| && k != i
        ensures table.rows[k] != row
      {
        assert table.SlotOk(k);
      }
      var checkRes := CheckRow(row, i);
      forall k | i < k < |table.rows|
        ensures table.SlotOk(k)
      {
        assert old(table.SlotOk(k));
      }
      assert checkRes == 0 ==> table.SlotOk(i);
      ghost var done := table.slots[..i];
      Settle(i, row, checkRes == 0);
      assert table.slots[..i + 1] == done + [table.slots[i]];
    }

    /** The row either enters the hash, or leaves its slot. */
    method Settle(i: nat, row: Row, stays: bool)
      requires table.updCol != null && i < |table.rows| == |table.slots| && Synced(i)
      requires table.rows[i] == row && table.slots[i].Some? && table.slots[i] == Some(row.Rec())
      requires forall k :: 0 <= k < |table.rows| && k != i ==> table.SlotOk(k)
      requires stays ==> table.SlotOk(i) && HashOf(row.Rec()) !in hash
      modifies this`hash, table`rows, table`slots
      ensures |table.rows| == old(|table.rows|) && table.Stored(0, |table.rows|) && Synced(i + 1)
      ensures table.slots == if stays then old(table.slots) else old(table.slots)[i := None]
      ensures forall k :: 0 <= k < |table.rows| && k != i ==> table.rows[k] == old(table.rows)[k]
    {
      if stays {
        UpdateRow(row);
      } else {
        table.rows := table.rows[i := null];
        table.slots := table.slots[i := None];
      }
      forall k | 0 <= k < |table.rows|
        ensures table.SlotOk(k)
      {
        assert k != i || stays ==> old(table.SlotOk(k));
      }
      forall k | 0 <= k <= i
        ensures Indexed(k)
      {
        assert k == i || old(Indexed(k));
      }
      forall g | g in hash
        ensures Points(g, i + 1)
      {
        assert g in old(hash) ==> old(Points(g, i));
      }
    }

    method UpdateRow(row: Row)
      requires table.updCol != null
      modifies this`hash
      ensures hash == old(hash)[HashOf(row.Rec()) := row]
    {
      hash := hash[HashOf(row.Rec()) := row];
    }

    /** The row takes over the slot of the row that the hash holds under its key. */
    method Replace(h: int, row: Row, ghost n: nat)
      requires table.updCol != null && n <= |table.rows| && table.Stored(0, n) && Synced(n)
      requires forall k :: 0 <= k < n ==> table.rows[k] != row
      requires row in table.repr && |row.data| == table.colPhy && h in hash && HashOf(row.Rec()) == h
      modifies this`hash, table`rows, table`slots, row`idxInsideTable
      ensures |table.rows| == old(|table.rows|) && table.Stored(0, n) && Synced(n)
      ensures forall k :: n <= k < |table.rows| ==>
              table.rows[k] == old(table.rows)[k] && table.slots[k] == old(table.slots)[k]
      ensures table.slots[..n] == old(table.slots[..n])[old(hash[h].idxInsideTable) := Some(row.Rec())]
      ensures table.rows == old(table.rows)[old(hash[h].idxInsideTable) := row]
      ensures row.idxInsideTable == old(hash[h].idxInsideTable) && hash == old(hash)[h := row]
    {
      assert Points(h, n);
      var oldRow := hash[h];
      ghost var j := oldRow.idxInsideTable;
      hash := hash[h := row];
      table.DoRowReplace(oldRow, row, n);
      forall k | 0 <= k < n
        ensures Indexed(k)
      {
        assert old(table.SlotOk(k) && Indexed(k));
      }
      forall g | g in hash
        ensures Points(g, n)
      {
        assert old(Points(g, n));
      }
    }

    ghost predicate Untouched(wasHash: map<int, Row>, wasRows: seq<Row?>, wasSlots: Slots)
      reads this`hash, table`rows, table`slots
    {
      hash == wasHash && table.rows == wasRows && table.slots == wasSlots
    }

    /** The row has taken slot j, in the table, in the hash and by its own account. */
    ghost predicate Taken(row: Row, j: nat, wasHash: map<int, Row>, wasRows: seq<Row?>)
      reads this`hash, this`hashPhy, table`rows, row
    {
      && j < |wasRows| && table.rows == wasRows[j := row] && row.idxInsideTable == j
      && hash == wasHash[HashOf(row.Rec()) := row]
    }

    /** Five outcomes: no row with the key; and on equal or different update times, the old or the new row stays. */
    method CheckRow(row: Row, ghost n: nat) returns (res: int)
      requires table.updCol != null && n <= |table.rows| && table.Stored(0, n) && Synced(n)
      requires forall k :: 0 <= k < n ==> table.rows[k] != row
      requires row in table.repr && |row.data| == table.colPhy
      modifies this`hash, table`rows, table`slots, row`idxInsideTable
      ensures |table.rows| == old(|table.rows|) && table.Stored(0, n) && Synced(n)
      ensures forall k :: n <= k < |table.rows| ==>
              table.rows[k] == old(table.rows)[k] && table.slots[k] == old(table.slots)[k]
      ensures match Find(Rule(), old(table.slots[..n]), HashOf(row.Rec()))
              case None => res == 0 && HashOf(row.Rec()) !in hash &&
                Untouched(old(hash), old(table.rows), old(table.slots)) &&
                           row.idxInsideTable == old(row.idxInsideTable)
              case Some(j) =>
                && res == (if Rule().Beats(row.Rec(), old(table.slots[..n])[j].value) then 1 else -1)
                && table.slots[..n] == Contest(Rule(), old(table.slots[..n]), j, row.Rec())
                && (res == 1 ==> Taken(row, j, old(hash), old(table.rows)))
                && (res == -1 ==> Untouched(old(hash), old(table.rows), old(table.slots)) &&
                                  row.idxInsideTable == old(row.idxInsideTable))
    {
      var h := HashOf(row.Rec());
      if h in hash {
        assert Points(h, n);
        var oldRow := hash[h];
        ghost var j := oldRow.idxInsideTable;
        ghost var live := table.slots[..n];
        assert live[j] == table.slots[j];
        assert Find(Rule(), live, h) == Some(j) by {
          forall k | 0 <= k < n && live[k].Some? && HashOf(live[k].value) == h
            ensures k == j
          {
            assert live[k] == table.slots[k] && table.SlotOk(k) && Indexed(k);
          }
        }
        assert table.SlotOk(j) && live[j] == Some(oldRow.Rec());
        var upd := table.updCol.mapping;
        if At(oldRow.Rec(), upd) == At(row.Rec(), upd) {
          if row.source < oldRow.source {
            Replace(h, row, n);
            res := 1;
          } else if row.source > oldRow.source {
            res := -1;
          } else if row.stamp > oldRow.stamp {
            Replace(h, row, n);
            res := 1;
          } else {
            res := -1;
          }
        } else if Less(At(oldRow.Rec(), upd), At(row.Rec(), upd)) {
          Replace(h, row, n);
          res := 1;
        } else {
          res := -1;
        }
      } else {
        res := 0;
        ghost var live := table.slots[..n];
        assert Find(Rule(), live, h).None? by {
          forall k | 0 <= k < n && live[k].Some?
            ensures HashOf(live[k].value) != h
          {
            assert live[k] == table.slots[k] && table.SlotOk(k) && Indexed(k);
          }
        }
      }
    }
  }

  class Table {
    const hasher: seq<string> -> int
    var colPhy: nat
    var colDes: seq<ColumnDescriptor>
    var updCol: ColumnDescriptor?
    var rows: seq<Row?>
    var indexs: seq<UniqueIndex>

    ghost var repr: set<Row>       // rows that were ever stored
    ghost var phy: seq<int>        // the mapping of each column
    ghost var slots: Slots         // the rows, physical columns
    ghost var model: Schema.Table  // the table as its user sees it

    constructor (hasher: seq<string> -> int)
      ensures Valid() && repr == {} && colDes == [] && indexs == [] && this.hasher == hasher
      ensures model == Schema.Table(hasher, [], Option.None, [], [])
    {
      this.hasher := hasher;
      colPhy, colDes, updCol, rows, indexs := 0, [], null, [], [];
      repr, phy, slots, model := {}, [], [], Schema.Table(hasher, [], None, [], []);
    }

    /** Everything but the number of indexes. */
    ghost predicate Sound()
      reads this, colDes, indexs, repr
    {
      && Columns() && Stored(0, |rows|)
      && model.slots == MapSlots(View(phy), slots)
      && |indexs| == |model.indexs|
      && (indexs != [] ==> updCol != null)
      && forall k :: 0 <= k < |indexs| ==> IndexOk(k)
    }

    /** Rows are stored only under exactly one index. */
    ghost predicate Valid()
      reads this, colDes, indexs, repr
    {
      Sound() && (|indexs| != 1 ==> rows == [])
    }

    ghost predicate IndexOk(k: int)
      reads this`colDes, this`updCol, this`indexs, this`model, this`rows, this`slots, this`repr
      reads colDes`mapping, indexs, repr`idxInsideTable
      requires 0 <= k < |indexs| == |model.indexs| && updCol != null && updCol in colDes && |rows| == |slots|
    {
      Serves(indexs[k], model.indexs[k]) && forall i :: 0 <= i < k ==> indexs[i] != indexs[k]
    }

    /** The index object stands for the logical key and agrees with the rows. */
    ghost predicate Serves(index: UniqueIndex, key: Schema.Index)
      reads this`colDes, this`updCol, this`rows, this`slots, this`repr
      reads colDes`mapping, index, repr`idxInsideTable
      requires updCol != null && updCol in colDes && |rows| == |slots|
    {
      index.table == this && index.Shaped(key) && index.Synced(|rows|) && Schema.Distinct(key.cols)
    }

    /** Column objects, their mapping, and the logical columns tell the same story. */
    ghost predicate Columns()
      reads this`colDes, this`updCol, this`phy, this`model, this`colPhy, colDes
    {
      && ColsOk(colDes, phy, model.cols, colPhy)
      && (updCol == null <==> model.upd.None?)
      && (model.upd.Some? ==> model.upd.value < |colDes| && colDes[model.upd.value] == updCol)
      && model.hash == hasher
    }

    method FindColumn(name: string) returns (p: Option<nat>)
      requires Columns()
      ensures p == Schema.FindCol(model.cols, name)
    {
      var i := 0;
      while i < |colDes|
        invariant 0 <= i <= |colDes|
        invariant forall j :: 0 <= j < i ==> colDes[j].Column().name != name
      {
        if colDes[i].name == name {
          assert model.cols[i].name == name;
          return Some(i);
        }
        i := i + 1;
      }
      p := None;
    }

    /** The row in slot k knows its slot, has w values, and is what `slots` says. */
    ghost predicate SlotAt(k: int, w: int)
      reads this`rows, this`slots, this`repr, repr
      requires 0 <= k < |rows| == |slots|
    {
      if rows[k] == null then slots[k] == None
      else rows[k] in repr && rows[k].idxInsideTable == k && |rows[k].data| == w && slots[k] == Some(rows[k].Rec())
    }

    ghost predicate SlotOk(k: int)
      reads this`rows, this`slots, this`repr, this`colPhy, repr
      requires 0 <= k < |rows| == |slots|
    {
      SlotAt(k, colPhy)
    }

    ghost predicate Stored(lo: nat, hi: nat)
      reads this`rows, this`slots, this`repr, this`colPhy, repr
    {
      |rows| == |slots| && hi <= |rows| && forall k :: lo <= k < hi ==> SlotOk(k)
    }

    method DoRowReplace(oldRow: Row, newRow: Row, ghost n: nat)
      requires Stored(0, n) && 0 <= oldRow.idxInsideTable < n && newRow in repr && |newRow.data| == colPhy
      requires forall k :: 0 <= k < n ==> rows[k] != newRow
      requires oldRow != newRow
      modifies this`rows, this`slots, newRow`idxInsideTable
      ensures newRow.idxInsideTable == oldRow.idxInsideTable
      ensures rows == old(rows)[oldRow.idxInsideTable := newRow]
      ensures slots == old(slots)[oldRow.idxInsideTable := Some(newRow.Rec())]
      ensures slots[..n] == old(slots[..n])[oldRow.idxInsideTable := Some(newRow.Rec())]
      ensures Stored(0, n)
    {
      rows := rows[oldRow.idxInsideTable := newRow];
      newRow.idxInsideTable := oldRow.idxInsideTable;
      slots := slots[oldRow.idxInsideTable := Some(newRow.Rec())];
      forall k | 0 <= k < n
        ensures SlotOk(k)
      {
        assert old(SlotOk(k)) && old(rows[k]) != newRow;
      }
    }

    lemma KeyOf(k: int)
      requires Columns() && 0 <= k < |indexs| == |model.indexs| && updCol != null && |rows| == |slots| && IndexOk(k)
      ensures SameKey(phy, indexs[k].hashPhy, model.indexs[k].cols)
      ensures model.upd.Some? && 0 <= model.upd.value < |phy| && updCol.mapping == phy[model.upd.value]
    {
      var index := indexs[k];
      forall j | 0 <= j < |index.cols|
        ensures index.hashPhy[j] == phy[model.indexs[k].cols[j]]
      {
        assert index.cols[j] == colDes[model.indexs[k].cols[j]];
      }
    }

    /** The logical rows follow the physical ones. */
    ghost method Restate()
      requires Columns() && Stored(0, |rows|) && |indexs| == |model.indexs| && (indexs != [] ==> updCol != null)
      requires forall k :: 0 <= k < |indexs| ==> IndexOk(k)
      modifies this`model
      ensures Sound() && model == old(model).(slots := MapSlots(View(phy), slots))
    {
      model := model.(slots := MapSlots(View(phy), slots));
      forall k | 0 <= k < |indexs|
        ensures IndexOk(k)
      {
        assert old(IndexOk(k));
      }
    }

    lemma ReindexLogical(k: int, was: Slots)
      requires Columns() && 0 <= k < |indexs| == |model.indexs| && updCol != null && |rows| == |slots| && IndexOk(k)
      requires slots == Reindex(indexs[k].Rule(), was) && model.upd.Some?
      ensures MapSlots(View(phy), slots) == Reindex(model.RuleOf(model.indexs[k]), MapSlots(View(phy), was))
    {
      KeyOf(k);
      ViewRule(phy, indexs[k].Rule(), model.RuleOf(model.indexs[k]), was);
    }

    // ---------- indexes ----------

    /** An index that has just been computed joins the table. */
    method PushIndex(index: UniqueIndex, ghost li: Schema.Index, ghost was: Slots)
      requires Columns() && Stored(0, |rows|) && |indexs| == |model.indexs| && updCol != null
      requires (indexs != [] ==> rows == []) && index !in indexs
      requires forall k :: 0 <= k < |indexs| ==> IndexOk(k)
      requires index.table == this && index.Shaped(li) && index.Synced(|rows|) && Schema.Distinct(li.cols)
      requires slots == Reindex(index.Rule(), was) && model.slots == MapSlots(View(phy), was)
      modifies this`indexs, this`model
      ensures Valid() && indexs == old(indexs) + [index] && model == Schema.PushIndex(old(model), li)
    {
      JoinIndex(index, li);
      ReindexLogical(|indexs| - 1, was);
      Restate();
    }

    method JoinIndex(index: UniqueIndex, ghost li: Schema.Index)
      requires Columns() && Stored(0, |rows|) && |indexs| == |model.indexs| && updCol != null && index !in indexs
      requires forall k :: 0 <= k < |indexs| ==> IndexOk(k)
      requires Serves(index, li)
      modifies this`indexs, this`model
      ensures indexs == old(indexs) + [index] && model == old(model).(indexs := old(model).indexs + [li])
      ensures Columns() && |indexs| == |model.indexs| && forall k :: 0 <= k < |indexs| ==> IndexOk(k)
    {
      indexs := indexs + [index];
      model := model.(indexs := model.indexs + [li]);
      forall k | 0 <= k < |indexs|
        ensures IndexOk(k)
      {
        assert k == |indexs| - 1 || old(IndexOk(k));
      }
    }

    method PushTemp()
      requires Sound() && indexs == [] && updCol != null
      modifies this`indexs, this`model, this`rows, this`slots, repr`idxInsideTable
      ensures Valid() && |indexs| == 1 && fresh(indexs[0])
      ensures model == Schema.PushIndex(old(model), Schema.TempIndex(old(model)))
    {
      ghost var was := slots;
      var index := new UniqueIndex.Temp(this);
      PushIndex(index, Schema.TempIndex(model), was);
    }

    method FindIndex(isPrimary: bool, isTemp: bool, name: string) returns (k: Option<nat>)
      requires Valid()
      ensures k == Schema.FindIndex(isPrimary, isTemp, name, model.indexs)
    {
      var i := 0;
      while i < |indexs|
        invariant 0 <= i <= |indexs|
        invariant forall j :: 0 <= j < i ==> !Schema.Picks(isPrimary, isTemp, name, model.indexs[j])
      {
        var index := indexs[i];
        assert IndexOk(i);
        if (if isPrimary then index.isPrimary else if isTemp then index.isTemp else index.name == name) {
          assert Schema.Picks(isPrimary, isTemp, name, model.indexs[i]);
          return Some(i);
        }
        i := i + 1;
      }
      k := None;
    }

    method DropUniqueIndex(isPrimary: bool, isTemp: bool, indexName: string)
      requires Valid() && updCol != null
      modifies this`indexs, this`model, this`rows, this`slots, repr`idxInsideTable
      ensures Valid() && model == Schema.DropUniqueIndex(old(model), isPrimary, isTemp, indexName)
      ensures forall x :: x in indexs ==> x in old(indexs) || fresh(x)
    {
      var toDrop := FindIndex(isPrimary, isTemp, indexName);
      if toDrop.None? {
        return;
      }
      EraseIndex(toDrop.value);
      if indexs == [] {
        PushTemp();
      }
    }

    method EraseIndex(k: nat)
      requires Sound() && k < |indexs|
      modifies this`indexs, this`model
      ensures indexs == Schema.RemoveAt(old(indexs), k)
      ensures model == old(model).(indexs := Schema.RemoveAt(old(model.indexs), k))
      ensures Sound() && |indexs| == |old(indexs)| - 1
    {
      indexs := indexs[..k] + indexs[k + 1..];
      model := model.(indexs := Schema.RemoveAt(model.indexs, k));
      forall j | 0 <= j < |indexs|
        ensures IndexOk(j)
      {
        var o := if j < k then j else j + 1;
        assert old(IndexOk(o));
        assert indexs[j] == old(indexs)[o] && model.indexs[j] == old(model.indexs)[o];
        forall i | 0 <= i < j
          ensures indexs[i] != indexs[j]
        {
          assert indexs[i] == old(indexs)[if i < k then i else i + 1];
        }
      }
    }

    // ---------- columns ----------

    method AppendToRow(i: nat, x: string, ghost w: nat)
      requires i < |rows| == |slots| && SlotAt(i, w)
      requires forall k :: 0 <= k < |rows| && k != i ==>
               rows[k] == null || (rows[k] in repr && rows[k].idxInsideTable == k)
      modifies this`slots, repr`data
      ensures |slots| == |rows| && SlotAt(i, w + 1) && slots[i] == MapSlots(Append(x), old(slots))[i]
      ensures forall k, n :: 0 <= k < |rows| && k != i && old(SlotAt(k, n)) ==> SlotAt(k, n)
      ensures forall k :: 0 <= k < |rows| && k != i ==> slots[k] == old(slots)[k]
    {
      if rows[i] != null {
        rows[i].data := rows[i].data + [x];
        slots := slots[i := Some(rows[i].Rec())];
      }
    }

    method AppendToRows(x: string, ghost w: nat)
      requires colPhy == w + 1 && |rows| == |slots| && forall k :: 0 <= k < |rows| ==> SlotAt(k, w)
      modifies this`slots, repr`data
      ensures Stored(0, |rows|) && slots == MapSlots(Append(x), old(slots))
    {
      forall k | 0 <= k < |rows|
        ensures rows[k] == null || (rows[k] in repr && rows[k].idxInsideTable == k)
      {
        assert SlotAt(k, w);
      }
      ghost var was := slots;
      var i := 0;
      while i < |rows|
        invariant 0 <= i <= |rows| == |slots|
        invariant forall k :: 0 <= k < |rows| ==> rows[k] == null || (rows[k] in repr && rows[k].idxInsideTable == k)
        invariant forall k :: 0 <= k < i ==> SlotAt(k, colPhy) && slots[k] == MapSlots(Append(x), was)[k]
        invariant forall k :: i <= k < |rows| ==> SlotAt(k, w) && slots[k] == was[k]
      {
        AppendToRow(i, x, w);
        i := i + 1;
      }
      forall k | 0 <= k < |rows|
        ensures SlotOk(k)
      {
        assert SlotAt(k, colPhy);
      }
    }

    method AppendToAll(x: string, ghost w: nat)
      requires colPhy == w + 1 && |rows| == |slots| && forall k :: 0 <= k < |rows| ==> SlotAt(k, w)
      requires updCol == null ==> indexs == []
      requires forall index :: index in indexs ==> index.table == this && index.Synced(|rows|)
      requires forall index :: index in indexs ==> forall j :: 0 <= j < |index.hashPhy| ==> 0 <= index.hashPhy[j] < w
      modifies this`slots, repr`data
      ensures Stored(0, |rows|) && slots == MapSlots(Append(x), old(slots))
      ensures forall index :: index in indexs ==> index.Synced(|rows|)
    {
      AppendToRows(x, w);
      forall index | index in indexs
        ensures index.Synced(|rows|)
      {
        forall k | 0 <= k < |rows|
          ensures index.Indexed(k)
          ensures slots[k].Some? ==> index.HashOf(slots[k].value) == index.HashOf(old(slots)[k].value)
        {
          assert old(SlotAt(k, w)) && old(index.Indexed(k));
          HashAppend(index.Rule(), x, w, old(slots)[k]);
        }
        forall h | h in index.hash
          ensures index.Points(h, |rows|)
        {
          assert old(index.Points(h, |rows|));
        }
      }
    }

    lemma PlaceView(phy0: seq<int>, slots0: Slots, p: nat, x: string, w: nat)
      requires p <= |phy0| && forall i :: 0 <= i < |phy0| ==> 0 <= phy0[i] < w
      requires forall k :: 0 <= k < |slots0| && slots0[k].Some? ==> |slots0[k].value.vals| == w
      ensures MapSlots(View(Schema.InsertAt(phy0, p, w)), MapSlots(Append(x), slots0)) ==
              MapSlots(Schema.Widen(p, x), MapSlots(View(phy0), slots0))
    {
      forall k | 0 <= k < |slots0| && slots0[k].Some?
        ensures View(Schema.InsertAt(phy0, p, w))(Append(x)(slots0[k].value)) ==
                Schema.Widen(p, x)(View(phy0)(slots0[k].value))
      {
        ViewAppend(phy0, p, x, slots0[k].value);
      }
    }

    /** The column objects and their mapping: every other column keeps its physical place. */
    method PlaceObject(newCol: ColumnDescriptor, p: nat)
      requires p <= |colDes|
      modifies this`colDes, this`updCol, this`colPhy, newCol`mapping
      ensures colDes == Schema.InsertAt(old(colDes), p, newCol)
      ensures colPhy == old(colPhy) + 1 && newCol.mapping == old(colPhy)
      ensures updCol == if newCol.name == Schema.UPDATED_AT then newCol else old(updCol)
    {
      colDes := colDes[..p] + [newCol] + colDes[p..];
      newCol.mapping := colPhy;
      colPhy := colPhy + 1;
      if newCol.name == "updated_at" {
        updCol := newCol;
      }
    }

    /** What PlaceObject has done, in the user's terms. */
    ghost method StatePlaced(newCol: ColumnDescriptor, p: nat, colDes0: seq<ColumnDescriptor>,
      updCol0: ColumnDescriptor?)
      requires colPhy > 0 && ColsOk(colDes0, phy, model.cols, colPhy - 1) && model.hash == hasher
      requires p <= |colDes0| && newCol !in colDes0 && colDes == Schema.InsertAt(colDes0, p, newCol)
      requires newCol.mapping == colPhy - 1 && |indexs| == |model.indexs|
      requires updCol == if newCol.name == Schema.UPDATED_AT then newCol else updCol0
      requires updCol0 == null <==> model.upd.None?
      requires model.upd.Some? ==> model.upd.value < |colDes0| && colDes0[model.upd.value] == updCol0
      requires forall k :: 0 <= k < |indexs| ==>
                 indexs[k].table == this && indexs[k].Expects(colDes0, model.indexs[k], newCol)
      modifies this`phy, this`model
      ensures Columns() && phy == Schema.InsertAt(old(phy), p, colPhy - 1)
      ensures model == Schema.PlaceColumn(old(model), newCol.Column(), p).(slots := old(model.slots))
      ensures forall k :: 0 <= k < |indexs| ==> indexs[k].Shaped(model.indexs[k])
    {
      ghost var was := model;
      ColsInsert(colDes0, phy, model.cols, colPhy - 1, newCol, p);
      phy := Schema.InsertAt(phy, p, newCol.mapping);
      model := Schema.PlaceColumn(model, newCol.Column(), p).(slots := model.slots);
      forall k | 0 <= k < |indexs|
        ensures indexs[k].Shaped(model.indexs[k])
      {
        assert indexs[k].Expects(colDes0, was.indexs[k], newCol);
        indexs[k].ShapedInsert(colDes0, was.indexs[k], p, newCol);
      }
    }

    lemma AllExpect(newCol: ColumnDescriptor)
      requires Valid() && newCol !in colDes
      ensures forall k :: 0 <= k < |indexs| ==>
                indexs[k].table == this && indexs[k].Expects(colDes, model.indexs[k], newCol)
    {
      forall k | 0 <= k < |indexs|
        ensures indexs[k].table == this && indexs[k].Expects(colDes, model.indexs[k], newCol)
      {
        assert IndexOk(k);
      }
    }

    method PlaceAmongColumns(newCol: ColumnDescriptor, p: nat)
      requires Valid() && p <= |colDes| && newCol !in colDes
      modifies this`colDes, this`updCol, this`phy, this`colPhy, this`model, newCol`mapping
      ensures forall c :: c in colDes ==> c in old(colDes) || c == newCol
      ensures Columns() && colPhy == old(colPhy) + 1 && phy == Schema.InsertAt(old(phy), p, old(colPhy))
      ensures newCol.Column() == old(newCol.Column()) && (old(updCol) != null ==> updCol != null)
      ensures model == Schema.PlaceColumn(old(model), newCol.Column(), p).(slots := old(model.slots))
      ensures forall k :: 0 <= k < |indexs| ==> indexs[k].table == this && indexs[k].Shaped(model.indexs[k])
      ensures forall k, j :: 0 <= k < |indexs| && 0 <= j < |indexs[k].hashPhy| ==>
              0 <= indexs[k].hashPhy[j] < old(colPhy)
    {
      AllExpect(newCol);
      label before:
      PlaceObject(newCol, p);
      forall k | 0 <= k < |indexs|
        ensures indexs[k].Expects(old(colDes), model.indexs[k], newCol)
        ensures forall j :: 0 <= j < |indexs[k].hashPhy| ==> 0 <= indexs[k].hashPhy[j] < old(colPhy)
      {
        assert old@before(indexs[k].Expects(colDes, model.indexs[k], newCol));
      }
      StatePlaced(newCol, p, old(colDes), old(updCol));
    }

    lemma Widths()
      requires Stored(0, |rows|)
      ensures forall k :: 0 <= k < |rows| ==> SlotAt(k, colPhy) && (slots[k].Some? ==> |slots[k].value.vals| == colPhy)
    {
      forall k | 0 <= k < |rows|
        ensures SlotAt(k, colPhy) && (slots[k].Some? ==> |slots[k].value.vals| == colPhy)
      {
        assert SlotOk(k);
      }
    }

    lemma Synchronized()
      requires Sound()
      ensures forall index :: index in indexs ==> index.table == this && index.Synced(|rows|)
      ensures forall i, k :: 0 <= i < k < |indexs| ==> indexs[i] != indexs[k]
      ensures forall k :: 0 <= k < |indexs| ==> Schema.Distinct(model.indexs[k].cols)
    {
      forall k | 0 <= k < |indexs|
        ensures indexs[k].table == this && indexs[k].Synced(|rows|)
        ensures forall i :: 0 <= i < k ==> indexs[i] != indexs[k]
        ensures Schema.Distinct(model.indexs[k].cols)
      {
        assert IndexOk(k);
      }
    }

    method FillColumn(x: string, ghost w: nat)
      requires Columns() && colPhy == w + 1 && |rows| == |slots| && forall k :: 0 <= k < |rows| ==> SlotAt(k, w)
      requires |indexs| == |model.indexs| && (indexs != [] ==> updCol != null) && (|indexs| != 1 ==> rows == [])
      requires forall k :: 0 <= k < |indexs| ==> indexs[k].table == this && indexs[k].Shaped(model.indexs[k])
      requires forall k, j :: 0 <= k < |indexs| && 0 <= j < |indexs[k].hashPhy| ==> 0 <= indexs[k].hashPhy[j] < w
      requires forall index :: index in indexs ==> index.table == this && index.Synced(|rows|)
      requires forall i, k :: 0 <= i < k < |indexs| ==> indexs[i] != indexs[k]
      requires forall k :: 0 <= k < |indexs| ==> Schema.Distinct(model.indexs[k].cols)
      modifies this`slots, this`model, repr`data
      ensures Valid() && model == old(model).(slots := MapSlots(View(phy), MapSlots(Append(x), old(slots))))
    {
      AppendToAll(x, w);
      forall k | 0 <= k < |indexs|
        ensures IndexOk(k)
      {
        assert indexs[k] in indexs;
      }
      Restate();
    }

    method PlaceColumn(newCol: ColumnDescriptor, p: nat)
      requires Valid() && p <= |colDes| && newCol !in colDes
      modifies this`colDes, this`updCol, this`phy, this`colPhy, this`slots, this`model, newCol`mapping, repr`data
      ensures forall c :: c in colDes ==> c in old(colDes) || c == newCol
      ensures Valid() && model == Schema.PlaceColumn(old(model), newCol.Column(), p)
      ensures newCol.Column() == old(newCol.Column()) && (old(updCol) != null ==> updCol != null)
    {
      ghost var w := colPhy;
      Widths();
      Synchronized();
      Schema.PlaceDistinct(model, newCol.Column(), p);
      PlaceView(phy, slots, p, Schema.Default(newCol.Column()), w);
      PlaceAmongColumns(newCol, p);
      FillColumn(if newCol.def.Some? then newCol.def.value else "", w);
    }

    method AddColumn(newCol: ColumnDescriptor, after: Option<string>) returns (ok: bool)
      requires Valid() && newCol !in colDes
      modifies this`colDes, this`updCol, this`phy, this`colPhy, this`indexs, this`model, this`rows, this`slots
      modifies newCol`mapping, repr`data, repr`idxInsideTable
      ensures forall c :: c in colDes ==> c in old(colDes) || c == newCol
      ensures forall x :: x in indexs ==> x in old(indexs) || fresh(x)
      ensures Valid()
      ensures match Schema.AddColumn(old(model), old(newCol.Column()), after)
              case Ok(t) => ok && model == t
              case Err(_) => !ok && model == old(model)
    {
      var p := PlaceAfter(after);
      if p.None? {
        return false;
      }
      ok := true;
      PlaceColumn(newCol, p.value);
      DropTemporary();
    }

    /** At the end, or behind the named column. */
    method PlaceAfter(after: Option<string>) returns (p: Option<nat>)
      requires Columns()
      ensures p == Schema.PlaceAfter(model.cols, after)
    {
      p := Some(|colDes|);
      if after.Some? {
        var baseCol := FindColumn(after.value);
        p := if baseCol.None? then None else Some(baseCol.value + 1);
      }
    }

    /** A temporary key is built anew over the columns there are now. */
    method DropTemporary()
      requires Valid()
      modifies this`indexs, this`model, this`rows, this`slots, repr`idxInsideTable
      ensures Valid() && model == Schema.RenewTemporary(old(model))
      ensures forall x :: x in indexs ==> x in old(indexs) || fresh(x)
    {
      if indexs != [] {
        assert IndexOk(0);
        if indexs[0].isTemp {
          DropUniqueIndex(false, true, "");
        }
      }
    }

    method AddUniqueIndex(name: string, colNames: seq<string>, isPrimary: bool) returns (ok: bool)
      requires Valid() && updCol != null
      requires Schema.TakesKey(model) ==> Schema.Distinct(colNames) && Schema.FindAll(model.cols, colNames).Some?
      modifies this`indexs, this`model, this`rows, this`slots, repr`idxInsideTable
      ensures forall x :: x in indexs ==> x in old(indexs) || fresh(x)
      ensures Valid()
      ensures match Schema.AddUniqueIndex(old(model), name, colNames, isPrimary)
              case Ok(t) => ok && model == t
              case Err(_) => !ok && model == old(model)
    {
      if |indexs| != 1 {
        return false;
      }
      assert IndexOk(0);
      if !indexs[0].isTemp {
        return false;
      }
      ok := true;
      EraseIndex(0);
      PushNamed(name, colNames, isPrimary);
    }

    method PushNamed(name: string, colNames: seq<string>, isPrimary: bool)
      requires Sound() && (indexs != [] ==> rows == []) && updCol != null
      requires Schema.Distinct(colNames) && Schema.FindAll(model.cols, colNames).Some?
      modifies this`indexs, this`model, this`rows, this`slots, repr`idxInsideTable
      ensures forall x :: x in indexs ==> x in old(indexs) || fresh(x)
      ensures Valid()
      ensures model == Schema.PushIndex(old(model),
              Schema.Index(name, isPrimary, false, Schema.FindAll(old(model.cols), colNames).value))
    {
      ghost var was := slots;
      Schema.DistinctColumns(model.cols, colNames);
      var index := new UniqueIndex.Named(this, name, colNames, isPrimary);
      forall k | 0 <= k < |indexs|
        ensures IndexOk(k)
      {
        assert old(IndexOk(k));
      }
      PushIndex(index, Schema.Index(name, isPrimary, false, Schema.FindAll(model.cols, colNames).value), was);
    }

    method ShrinkKey(p: nat)
      requires Valid() && |indexs| == 1 && p < |colDes|
      modifies this`rows, this`slots, repr`idxInsideTable, indexs
      ensures Stored(0, |rows|) && indexs[0].table == this && indexs[0].Synced(|rows|)
      ensures var li := model.indexs[0];
              if p in li.cols then
                && indexs[0].Shaped(li.(cols := Schema.RemoveValue(li.cols, p)))
                && slots == Reindex(indexs[0].Rule(), old(slots))
              else indexs[0].Shaped(li) && slots == old(slots)
    {
      assert IndexOk(0);
      indexs[0].DeleteCol(colDes[p], p, model.indexs[0]);
    }

    /** The key gives up column p: the first half of dropColumn. */
    method ShrinkIndex(p: nat)
      requires Valid() && |indexs| == 1 && p < |colDes|
      modifies this`model, this`rows, this`slots, repr`idxInsideTable, indexs
      ensures Valid() && model == Schema.ShrinkIndex(old(model), p) && p !in model.indexs[0].cols
    {
      ghost var li := model.indexs[0];
      ghost var li1 := li.(cols := Schema.RemoveValue(li.cols, p));
      assert IndexOk(0);
      Schema.DistinctRemove(li.cols, p);
      ShrinkKey(p);
      if p in li.cols {
        RestateIndex(li1, old(slots));
      } else {
        StillValid();
      }
    }

    lemma StillValid()
      requires Columns() && Stored(0, |rows|) && |indexs| == |model.indexs| == 1 && updCol != null
      requires model.slots == MapSlots(View(phy), slots) && Schema.Distinct(model.indexs[0].cols)
      requires indexs[0].table == this && indexs[0].Shaped(model.indexs[0]) && indexs[0].Synced(|rows|)
      ensures Valid()
    {
      assert IndexOk(0);
    }

    /** The only key has become li, the rows follow. */
    ghost method RestateIndex(li: Schema.Index, was: Slots)
      requires Columns() && Stored(0, |rows|) && |indexs| == 1 && updCol != null
      requires indexs[0].table == this && indexs[0].Shaped(li) && indexs[0].Synced(|rows|) && Schema.Distinct(li.cols)
      requires slots == Reindex(indexs[0].Rule(), was) && model.slots == MapSlots(View(phy), was)
      modifies this`model
      ensures Valid() && model == old(model).(indexs := [li], slots := Reindex(old(model).RuleOf(li), old(model.slots)))
    {
      model := model.(indexs := [li]);
      assert IndexOk(0);
      ReindexLogical(0, was);
      Restate();
    }

    /** What EraseColumn has done, in the user's terms. */
    ghost method StateErased(p: nat, colDes0: seq<ColumnDescriptor>)
      requires ColsOk(colDes0, phy, model.cols, colPhy) && model.hash == hasher
      requires p < |colDes0| && colDes == Schema.RemoveAt(colDes0, p) && |indexs| == |model.indexs|
      requires updCol == null <==> model.upd.None?
      requires model.upd.Some? ==>
               model.upd.value < |colDes0| && model.upd.value != p && colDes0[model.upd.value] == updCol
      requires forall k :: 0 <= k < |indexs| ==>
                 indexs[k].table == this && p !in model.indexs[k].cols &&
                   indexs[k].Expects(colDes0, model.indexs[k], colDes0[p])
      modifies this`phy, this`model
      ensures Columns() && phy == Schema.RemoveAt(old(phy), p)
      ensures model == Schema.EraseColumn(old(model), p).(slots := old(model.slots))
      ensures forall k :: 0 <= k < |indexs| ==> indexs[k].Shaped(model.indexs[k])
    {
      ghost var was := model;
      ColsErase(colDes0, phy, model.cols, colPhy, p);
      phy := Schema.RemoveAt(phy, p);
      model := Schema.EraseColumn(model, p).(slots := model.slots);
      forall k | 0 <= k < |indexs|
        ensures indexs[k].Shaped(model.indexs[k])
      {
        assert indexs[k].Expects(colDes0, was.indexs[k], colDes0[p]);
        indexs[k].ShapedErase(colDes0, was.indexs[k], p);
      }
    }

    method EraseAmongColumns(p: nat)
      requires Sound() && p < |colDes| && colDes[p] != updCol
      requires forall k :: 0 <= k < |indexs| ==> p !in model.indexs[k].cols
      modifies this`colDes, this`phy, this`model
      ensures forall c :: c in colDes ==> c in old(colDes)
      ensures Columns() && phy == Schema.RemoveAt(old(phy), p)
      ensures model == Schema.EraseColumn(old(model), p).(slots := old(model.slots))
      ensures forall k :: 0 <= k < |indexs| ==> indexs[k].table == this && indexs[k].Shaped(model.indexs[k])
    {
      forall k | 0 <= k < |indexs|
        ensures indexs[k].table == this && indexs[k].Expects(colDes, model.indexs[k], colDes[p])
      {
        assert IndexOk(k);
        indexs[k].NotAmong(model.indexs[k], p);
      }
      colDes := colDes[..p] + colDes[p + 1..];
      StateErased(p, old(colDes));
    }

    /** The column object goes; its values stay behind in the rows. */
    method EraseColumn(p: nat)
      requires Sound() && p < |colDes| && colDes[p] != updCol
      requires forall k :: 0 <= k < |indexs| ==> p !in model.indexs[k].cols
      modifies this`colDes, this`phy, this`model
      ensures forall c :: c in colDes ==> c in old(colDes)
      ensures Sound() && model == Schema.EraseColumn(old(model), p)
    {
      EraseView(phy, slots, p);
      Synchronized();
      Schema.EraseDistinct(model, p);
      EraseAmongColumns(p);
      forall k | 0 <= k < |indexs|
        ensures IndexOk(k)
      {
        assert indexs[k] in indexs;
      }
      Restate();
    }

    /** The second half of dropColumn: an index without columns gives way to a temporary one. */
    method FinishDrop(p: nat)
      requires Valid() && |indexs| == 1 && p < |colDes| && model.upd != Some(p) && p !in model.indexs[0].cols
      modifies this`colDes, this`phy, this`indexs, this`model, this`rows, this`slots, repr`idxInsideTable
      ensures forall c :: c in colDes ==> c in old(colDes)
      ensures |indexs| == 1 && (indexs == old(indexs) || fresh(indexs[0]))
      ensures Valid() && model == Schema.FinishDrop(old(model), p)
    {
      assert IndexOk(0);
      NotUpd(p);
      if indexs[0].cols == [] {
        EraseIndex(0);
        EraseLastIndexed(p);
      } else {
        EraseColumn(p);
      }
    }

    method EraseLastIndexed(p: nat)
      requires Sound() && indexs == [] && p < |colDes| && colDes[p] != updCol && updCol != null
      modifies this`colDes, this`phy, this`indexs, this`model, this`rows, this`slots, repr`idxInsideTable
      ensures forall c :: c in colDes ==> c in old(colDes)
      ensures Valid() && |indexs| == 1 && fresh(indexs[0])
      ensures var t := Schema.EraseColumn(old(model), p);
              Schema.HasUpd(t) && model == Schema.PushIndex(t, Schema.TempIndex(t))
    {
      EraseColumn(p);
      PushTemp();
    }

    lemma NotUpd(p: nat)
      requires Columns() && p < |colDes| && model.upd != Some(p)
      ensures colDes[p] != updCol
    {
      if model.upd.Some? {
        assert phy[p] != phy[model.upd.value];
      }
    }

    method DropColumn(colName: string) returns (ok: bool)
      requires Valid() && |indexs| == 1 && updCol != null && Schema.FindCol(model.cols, colName) != model.upd
      modifies this`colDes, this`phy, this`indexs, this`model, this`rows, this`slots, repr`idxInsideTable, indexs
      ensures forall c :: c in colDes ==> c in old(colDes)
      ensures |indexs| == 1 && (indexs == old(indexs) || fresh(indexs[0]))
      ensures Valid()
      ensures match Schema.DropColumn(old(model), colName)
              case Ok(t) => ok && model == t
              case Err(_) => !ok && model == old(model)
    {
      var col := FindColumn(colName);
      ok := col.Some?;
      if ok {
        ShrinkIndex(col.value);
        FinishDrop(col.value);
      }
    }

    /** The mapping of every column, in column order. */
    method GetPhyPosArray() returns (positions: seq<int>)
      requires Columns()
      ensures positions == phy
    {
      positions := [];
      for i := 0 to |colDes|
        invariant positions == phy[..i]
      {
        positions := positions + [colDes[i].mapping];
      }
    }

    method RenameObject(p: nat, name: string, def: Option<string>)
      requires Sound() && p < |colDes|
      modifies colDes`name, colDes`def
      ensures Stored(0, |rows|) && forall k :: 0 <= k < |indexs| ==> IndexOk(k)
      ensures ColsOk(colDes, phy, model.cols[p := model.cols[p].(name := name, def := def)], colPhy)
    {
      colDes[p].name := name;
      colDes[p].def := def;
      forall i | 0 <= i < |colDes|
        ensures colDes[i].Column() == if i == p then model.cols[p].(name := name, def := def) else model.cols[i]
      {
        assert i != p ==> phy[i] != phy[p];
      }
      forall k | 0 <= k < |indexs|
        ensures IndexOk(k)
      {
        assert old(IndexOk(k));
      }
      forall k | 0 <= k < |rows|
        ensures SlotOk(k)
      {
        assert old(SlotOk(k));
      }
    }

    /** New names and defaults, everything else in place. */
    ghost method Relabel(cols: seq<Schema.Column>)
      requires ColsOk(colDes, phy, cols, colPhy) && model.hash == hasher && Stored(0, |rows|) &&
               |indexs| == |model.indexs|
      requires updCol == null <==> model.upd.None?
      requires model.upd.Some? ==> model.upd.value < |colDes| && colDes[model.upd.value] == updCol
      requires model.slots == MapSlots(View(phy), slots) && (indexs != [] ==> updCol != null)
      requires forall k :: 0 <= k < |indexs| ==> IndexOk(k)
      modifies this`model
      ensures Sound() && model == old(model).(cols := cols)
    {
      model := model.(cols := cols);
      forall k | 0 <= k < |indexs|
        ensures IndexOk(k)
      {
        assert old(IndexOk(k));
      }
    }

    method ChangeColumn(prevName: string, name: string, def: Option<string>) returns (ok: bool)
      requires Valid()
      modifies this`model, colDes`name, colDes`def
      ensures Valid()
      ensures match Schema.ChangeColumn(old(model), prevName, name, def)
              case Ok(t) => ok && model == t
              case Err(_) => !ok && model == old(model)
    {
      var p := FindColumn(prevName);
      ok := p.Some?;
      if ok {
        RenameObject(p.value, name, def);
        Relabel(model.cols[p.value := model.cols[p.value].(name := name, def := def)]);
      }
    }

    // ---------- rows ----------

    ghost method Adopt(newRow: Row)
      requires Valid() && newRow !in repr
      modifies this`repr
      ensures Valid() && repr == old(repr) + {newRow}
      ensures forall k :: 0 <= k < |rows| ==> rows[k] != newRow
    {
      repr := repr + {newRow};
      forall k | 0 <= k < |rows|
        ensures SlotOk(k) && rows[k] != newRow
      {
        assert old(SlotOk(k));
      }
      forall i | 0 <= i < |indexs|
        ensures IndexOk(i)
      {
        var index := indexs[i];
        assert old(IndexOk(i));
        forall k | 0 <= k < |rows|
          ensures index.Indexed(k)
        {
          assert old(index.Indexed(k));
        }
        forall h | h in index.hash
          ensures index.Points(h, |rows|)
        {
          assert old(index.Points(h, |rows|));
        }
      }
    }

    method PushRow(newRow: Row, index: UniqueIndex)
      requires index.table == this && updCol != null && Stored(0, |rows|) && index.Synced(|rows|)
      requires index.HashOf(newRow.Rec()) !in index.hash && newRow in repr && |newRow.data| == colPhy
      requires forall k :: 0 <= k < |rows| ==> rows[k] != newRow
      modifies this`rows, this`slots, index`hash, newRow`idxInsideTable
      ensures slots == old(slots) + [Some(newRow.Rec())]
      ensures Stored(0, |rows|) && index.Synced(|rows|)
    {
      index.UpdateRow(newRow);
      newRow.idxInsideTable := |rows|;
      rows := rows + [newRow];
      slots := slots + [Some(newRow.Rec())];
      forall k | 0 <= k < |rows|
        ensures SlotOk(k) && index.Indexed(k)
      {
        assert k == |rows| - 1 || old(SlotOk(k) && index.Indexed(k));
      }
      forall h | h in index.hash
        ensures index.Points(h, |rows|)
      {
        assert h in old(index.hash) ==> old(index.Points(h, |rows|));
      }
    }

    method CheckAndPush(newRow: Row, index: UniqueIndex)
      requires index.table == this && updCol != null && Stored(0, |rows|) && index.Synced(|rows|)
      requires newRow in repr && |newRow.data| == colPhy
      requires forall k :: 0 <= k < |rows| ==> rows[k] != newRow
      modifies this`rows, this`slots, index`hash, newRow`idxInsideTable
      ensures slots == Insert(index.Rule(), old(slots), newRow.Rec())
      ensures Stored(0, |rows|) && index.Synced(|rows|)
    {
      assert slots[..|rows|] == slots;
      var res := index.CheckRow(newRow, |rows|);
      assert slots[..|rows|] == slots;
      if res == 0 {
        PushRow(newRow, index);
      }
    }

    method InsertRow(newRow: Row, index: UniqueIndex)
      requires Valid() && |indexs| == 1 && index == indexs[0]
      requires newRow !in repr && |newRow.data| == colPhy
      modifies this`rows, this`slots, this`repr, index`hash, newRow`idxInsideTable
      ensures Columns() && Stored(0, |rows|) && IndexOk(0) && repr == old(repr) + {newRow}
      ensures slots == Insert(index.Rule(), old(slots), newRow.Rec())
    {
      assert IndexOk(0);
      Adopt(newRow);
      assert IndexOk(0);
      CheckAndPush(newRow, index);
    }

    lemma InsertLogical(r: Record)
      requires Valid() && |indexs| == 1 && IndexOk(0)
      ensures MapSlots(View(phy), Insert(indexs[0].Rule(), slots, r)) ==
              Insert(model.RuleOf(model.indexs[0]), model.slots, View(phy)(r))
    {
      KeyOf(0);
      ViewInsert(phy, indexs[0].Rule(), model.RuleOf(model.indexs[0]), slots, r);
    }

    method InsertSeen(newRow: Row, index: UniqueIndex)
      requires Valid() && |indexs| == 1 && index == indexs[0]
      requires newRow !in repr && |newRow.data| == colPhy
      modifies this`rows, this`slots, this`repr, this`model, index`hash, newRow`idxInsideTable
      ensures Valid() && repr == old(repr) + {newRow}
      ensures model == old(model).(slots := Insert(old(model.RuleOf(model.indexs[0])), old(model.slots),
              View(phy)(old(newRow.Rec()))))
    {
      assert IndexOk(0);
      InsertLogical(newRow.Rec());
      InsertRow(newRow, index);
      Restate();
    }

    method InsertEach(newRows: seq<Row>, index: UniqueIndex, ghost seen: seq<Record>)
      requires Valid() && |indexs| == 1 && index == indexs[0]
      requires forall i, j :: 0 <= i < j < |newRows| ==> newRows[i] != newRows[j]
      requires forall i :: 0 <= i < |newRows| ==> newRows[i] !in repr && |newRows[i].data| == colPhy
      requires |seen| == |newRows| && forall i :: 0 <= i < |newRows| ==> seen[i] == View(phy)(newRows[i].Rec())
      modifies this`rows, this`slots, this`repr, this`model, index`hash, newRows`idxInsideTable
      ensures Valid() && forall r :: r in repr ==> r in old(repr) || r in newRows
      ensures model == old(model).(slots := InsertAll(old(model.RuleOf(model.indexs[0])), old(model.slots), seen))
    {
      ghost var rule := model.RuleOf(model.indexs[0]);
      var i := 0;
      while i < |newRows|
        invariant 0 <= i <= |newRows| && Valid()
        invariant forall j :: i <= j < |newRows| ==> newRows[j] !in repr
        invariant forall r :: r in repr ==> r in old(repr) || r in newRows
        invariant model == old(model).(slots := InsertAll(rule, old(model.slots), seen[..i]))
      {
        InsertSeen(newRows[i], index);
        InsertNext(rule, old(model.slots), seen, i);
        i := i + 1;
      }
      assert seen[..i] == seen;
    }

    static lemma InsertNext(rule: Rule, slots: Slots, seen: seq<Record>, i: nat)
      requires i < |seen|
      ensures InsertAll(rule, slots, seen[..i + 1]) == Insert(rule, InsertAll(rule, slots, seen[..i]), seen[i])
    {
      assert seen[..i + 1][..i] == seen[..i];
    }

    method InsertRows(newRows: seq<Row>) returns (ok: bool)
      requires Valid()
      requires forall i, j :: 0 <= i < j < |newRows| ==> newRows[i] != newRows[j]
      requires forall i :: 0 <= i < |newRows| ==> newRows[i] !in repr && |newRows[i].data| == colPhy
      modifies this`rows, this`slots, this`repr, this`model, indexs`hash, newRows`idxInsideTable
      ensures Valid() && forall r :: r in repr ==> r in old(repr) || r in newRows
      ensures match Schema.InsertRows(old(model), old(MapAll(View(phy), Records(newRows))))
              case Ok(t) => ok && model == t
              case Err(_) => !ok && model == old(model)
    {
      ok := |indexs| == 1;
      if ok {
        InsertEach(newRows, indexs[0], MapAll(View(phy), Records(newRows)));
      }
    }
  }

  function Records(rows: seq<Row>): (rs: seq<Record>)
    reads (set r | r in rows)`data
    ensures |rs| == |rows| && forall i :: 0 <= i < |rows| ==> rs[i] == rows[i].Rec()
  {
    if rows == [] then [] else Records(rows[..|rows| - 1]) + [rows[|rows| - 1].Rec()]
  }
}
