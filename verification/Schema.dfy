/**
 A table as its user sees it: named columns in order, rows with one value per column, unique indexes
 naming their columns by position. Every DDL effect and every batch of rows is a function on it.
 */
module Schema {
  import opened Text
  import opened Merge
  import opened MergeTheorems

  datatype Column = Column(name: string, typ: string, def: Option<string>)

  /** cols are positions in the table's column list. */
  datatype Index = Index(name: string, isPrimary: bool, isTemp: bool, cols: seq<int>)

  datatype Table = Table(hash: seq<string> -> int, cols: seq<Column>, upd: Option<nat>,
                         indexs: seq<Index>, slots: Slots) {

    function RuleOf(index: Index): Rule
      requires upd.Some?
    {
      Rule(hash, index.cols, upd.value)
    }
  }

  const UPDATED_AT := "updated_at"

  // ---------- positions ----------

  function FindCol(cols: seq<Column>, name: string): (p: Option<nat>)
    ensures p.Some? ==> p.value < |cols| && cols[p.value].name == name
    ensures p.Some? ==> forall i :: 0 <= i < p.value ==> cols[i].name != name
    ensures p.None? ==> forall i :: 0 <= i < |cols| ==> cols[i].name != name
  {
    if cols == [] then None
    else if cols[0].name == name then Some(0)
    else match FindCol(cols[1..], name) case None => None case Some(i) => Some(i + 1)
  }

  function InsertAt<T>(s: seq<T>, p: nat, x: T): seq<T>
    requires p <= |s|
  {
    s[..p] + [x] + s[p..]
  }

  function RemoveAt<T>(s: seq<T>, p: nat): seq<T>
    requires p < |s|
  {
    s[..p] + s[p + 1..]
  }

  function Up(p: nat, q: int): int { if q >= p then q + 1 else q }

  function Down(p: nat, q: int): (r: int)
    ensures q >= 0 ==> r >= 0
  {
    if q > p then q - 1 else q
  }

  function UpAll(p: nat, qs: seq<int>): (r: seq<int>)
    ensures |r| == |qs| && forall i :: 0 <= i < |qs| ==> r[i] == Up(p, qs[i])
  {
    seq(|qs|, i requires 0 <= i < |qs| => Up(p, qs[i]))
  }

  function DownAll(p: nat, qs: seq<int>): (r: seq<int>)
    ensures |r| == |qs| && forall i :: 0 <= i < |qs| ==> r[i] == Down(p, qs[i])
  {
    seq(|qs|, i requires 0 <= i < |qs| => Down(p, qs[i]))
  }

  /** The positions lo, ..., hi - 1. */
  function Range(lo: int, hi: int): (r: seq<int>)
    requires lo <= hi
    ensures |r| == hi - lo && forall i :: 0 <= i < hi - lo ==> r[i] == lo + i
  {
    seq(hi - lo, i requires 0 <= i < hi - lo => lo + i)
  }

  // ---------- what a change of columns does to a row ----------

  function Widen(p: nat, x: string): Record -> Record {
    (r: Record) => if p <= |r.vals| then r.(vals := InsertAt(r.vals, p, x)) else r
  }

  function Narrow(p: nat): Record -> Record {
    (r: Record) => if p < |r.vals| then r.(vals := RemoveAt(r.vals, p)) else r
  }

  function Default(c: Column): string {
    if c.def.Some? then c.def.value else ""
  }

  // ---------- indexes ----------

  /** Every column but `updated_at`. */
  function TempIndex(t: Table): Index
    requires HasUpd(t)
  {
    Index("___TEMP_PRIMARY", false, true, Range(0, t.upd.value) + Range(t.upd.value + 1, |t.cols|))
  }

  function PushIndex(t: Table, index: Index): Table
    requires t.upd.Some?
  {
    t.(indexs := t.indexs + [index], slots := Reindex(t.RuleOf(index), t.slots))
  }

  function FindAll(cols: seq<Column>, names: seq<string>): Option<seq<int>> {
    if names == [] then Some([])
    else
      match (FindAll(cols, names[..|names| - 1]), FindCol(cols, names[|names| - 1]))
      case (Some(ps), Some(p)) => Some(ps + [p])
      case _ => None
  }

  lemma {:induction false} FindAllLength(cols: seq<Column>, names: seq<string>)
    requires FindAll(cols, names).Some?
    ensures |FindAll(cols, names).value| == |names|
    decreases |names|
  {
    if names != [] {
      FindAllLength(cols, names[..|names| - 1]);
    }
  }

  lemma {:induction false} FindAllAt(cols: seq<Column>, names: seq<string>, i: nat)
    requires FindAll(cols, names).Some? && i < |names|
    ensures |FindAll(cols, names).value| == |names|
    ensures FindCol(cols, names[i]).Some? && FindAll(cols, names).value[i] == FindCol(cols, names[i]).value
    decreases |names|
  {
    FindAllLength(cols, names);
    FindAllLength(cols, names[..|names| - 1]);
    if i < |names| - 1 {
      FindAllAt(cols, names[..|names| - 1], i);
    }
  }

  predicate Picks(isPrimary: bool, isTemp: bool, name: string, index: Index) {
    if isPrimary then index.isPrimary else if isTemp then index.isTemp else index.name == name
  }

  function FindIndex(isPrimary: bool, isTemp: bool, name: string, indexs: seq<Index>): (k: Option<nat>)
    ensures k.Some? ==> k.value < |indexs| && Picks(isPrimary, isTemp, name, indexs[k.value])
    ensures k.Some? ==> forall i :: 0 <= i < k.value ==> !Picks(isPrimary, isTemp, name, indexs[i])
    ensures k.None? ==> forall i :: 0 <= i < |indexs| ==> !Picks(isPrimary, isTemp, name, indexs[i])
  {
    if indexs == [] then None
    else if Picks(isPrimary, isTemp, name, indexs[0]) then Some(0)
    else match FindIndex(isPrimary, isTemp, name, indexs[1..]) case None => None case Some(i) => Some(i + 1)
  }

  // ---------- DDL ----------

  predicate HasUpd(t: Table) {
    t.upd.Some? && t.upd.value < |t.cols|
  }

  function DropUniqueIndex(t: Table, isPrimary: bool, isTemp: bool, name: string): Table
    requires HasUpd(t)
  {
    match FindIndex(isPrimary, isTemp, name, t.indexs)
    case None => t
    case Some(k) =>
      var t1 := t.(indexs := RemoveAt(t.indexs, k));
      if t1.indexs == [] then PushIndex(t1, TempIndex(t1)) else t1
  }

  /** The column list changes, the keys keep their columns. */
  function PlaceColumn(t: Table, c: Column, p: nat): Table
    requires p <= |t.cols|
  {
    t.(cols := InsertAt(t.cols, p, c),
       upd := if c.name == UPDATED_AT then Some(p)
              else if t.upd.Some? then Some(Up(p, t.upd.value)) else None,
       indexs := seq(|t.indexs|, k requires 0 <= k < |t.indexs| => t.indexs[k].(cols := UpAll(p, t.indexs[k].cols))),
       slots := MapSlots(Widen(p, Default(c)), t.slots))
  }

  function AddColumn(t: Table, c: Column, after: Option<string>): Result<Table>
    requires t.indexs != [] ==> HasUpd(t)
  {
    match PlaceAfter(t.cols, after)
    case None => Err("Can not find col to insert!")
    case Some(p) => Ok(RenewTemporary(PlaceColumn(t, c, p)))
  }

  /** At the end, or behind the named column. */
  function PlaceAfter(cols: seq<Column>, after: Option<string>): (p: Option<nat>)
    ensures p.Some? ==> p.value <= |cols|
  {
    if after.None? then Some(|cols|)
    else match FindCol(cols, after.value) case None => None case Some(i) => Some(i + 1)
  }

  /** A temporary key is built anew over the columns there are now. */
  function RenewTemporary(t: Table): Table
    requires t.indexs != [] ==> HasUpd(t)
  {
    if t.indexs != [] && t.indexs[0].isTemp then DropUniqueIndex(t, false, true, "") else t
  }

  /** The only key is a temporary one, which a named key may replace. */
  predicate TakesKey(t: Table) {
    |t.indexs| == 1 && t.indexs[0].isTemp
  }

  function AddUniqueIndex(t: Table, name: string, colNames: seq<string>, isPrimary: bool): Result<Table>
    requires t.upd.Some? && (TakesKey(t) ==> FindAll(t.cols, colNames).Some?)
  {
    if |t.indexs| != 1 then Err("Size of indexs not equal to 1 when doing addUniqueIndex!")
    else if !t.indexs[0].isTemp then Err("Trying to insert a second non-temporary index!")
    else Ok(PushIndex(t.(indexs := []), Index(name, isPrimary, false, FindAll(t.cols, colNames).value)))
  }

  function RemoveValue(qs: seq<int>, p: int): seq<int> {
    if qs == [] then [] else if qs[0] == p then qs[1..] else [qs[0]] + RemoveValue(qs[1..], p)
  }

  lemma {:induction false} RemoveValueAt(qs: seq<int>, i: nat)
    requires i < |qs| && forall j :: 0 <= j < i ==> qs[j] != qs[i]
    ensures RemoveValue(qs, qs[i]) == RemoveAt(qs, i)
  {
    if i > 0 {
      var tail := qs[1..];
      assert tail[i - 1] == qs[i];
      RemoveValueAt(tail, i - 1);
      RemoveAtTail(qs, i);
    }
  }

  lemma RemoveAtTail<T>(s: seq<T>, i: nat)
    requires 0 < i < |s|
    ensures RemoveAt(s, i) == [s[0]] + RemoveAt(s[1..], i - 1)
  {
  }

  /** First the key gives up column p, which merges rows, then the column goes. */
  function ShrinkIndex(t: Table, p: nat): Table
    requires t.upd.Some? && |t.indexs| == 1
  {
    var index := t.indexs[0];
    if p in index.cols then
      var index1 := index.(cols := RemoveValue(index.cols, p));
      t.(indexs := [index1], slots := Reindex(t.RuleOf(index1), t.slots))
    else t
  }

  function EraseColumn(t: Table, p: nat): Table
    requires p < |t.cols|
  {
    t.(cols := RemoveAt(t.cols, p),
       upd := if t.upd.Some? then Some(Down(p, t.upd.value)) else None,
       indexs := seq(|t.indexs|, k requires 0 <= k < |t.indexs| => t.indexs[k].(cols := DownAll(p, t.indexs[k].cols))),
       slots := MapSlots(Narrow(p), t.slots))
  }

  /** Then the column goes; a key without columns gives way to a temporary one. */
  function FinishDrop(t: Table, p: nat): Table
    requires HasUpd(t) && |t.indexs| == 1 && p < |t.cols| && t.upd.value != p
  {
    if t.indexs[0].cols == [] then
      var t2 := EraseColumn(t.(indexs := []), p);
      PushIndex(t2, TempIndex(t2))
    else EraseColumn(t, p)
  }

  function DropColumn(t: Table, name: string): Result<Table>
    requires HasUpd(t) && |t.indexs| == 1
    requires FindCol(t.cols, name) != t.upd
  {
    match FindCol(t.cols, name)
    case None => Err("Can not find column to drop!")
    case Some(p) => Ok(FinishDrop(ShrinkIndex(t, p), p))
  }

  function ChangeColumn(t: Table, prevName: string, name: string, def: Option<string>): Result<Table> {
    match FindCol(t.cols, prevName)
    case None => Err("Can not find column to change!")
    case Some(p) => Ok(t.(cols := t.cols[p := t.cols[p].(name := name, def := def)]))
  }

  predicate Distinct<T(==)>(s: seq<T>) {
    forall i, j :: 0 <= i < j < |s| ==> s[i] != s[j]
  }

  lemma {:induction false} DistinctRemove(qs: seq<int>, p: int)
    requires Distinct(qs)
    ensures Distinct(RemoveValue(qs, p)) && p !in RemoveValue(qs, p)
    ensures forall q :: q in RemoveValue(qs, p) ==> q in qs
  {
    if qs == [] {
    } else if qs[0] == p {
      forall i | 1 <= i < |qs|
        ensures qs[i] != p
      {
      }
    } else {
      DistinctRemove(qs[1..], p);
      var rest := RemoveValue(qs[1..], p);
      forall j | 0 <= j < |rest|
        ensures rest[j] != qs[0]
      {
        assert rest[j] in rest;
      }
    }
  }

  lemma DistinctColumns(cols: seq<Column>, names: seq<string>)
    requires Distinct(names) && FindAll(cols, names).Some?
    ensures Distinct(FindAll(cols, names).value)
  {
    var ps := FindAll(cols, names).value;
    FindAllLength(cols, names);
    forall i, j | 0 <= i < j < |ps|
      ensures ps[i] != ps[j]
    {
      FindAllAt(cols, names, i);
      FindAllAt(cols, names, j);
    }
  }

  lemma EraseDistinct(t: Table, p: nat)
    requires p < |t.cols|
    requires forall k :: 0 <= k < |t.indexs| ==> Distinct(t.indexs[k].cols) && p !in t.indexs[k].cols
    ensures forall k :: 0 <= k < |t.indexs| ==> Distinct(EraseColumn(t, p).indexs[k].cols)
  {
    forall k | 0 <= k < |t.indexs|
      ensures Distinct(DownAll(p, t.indexs[k].cols))
    {
      var qs := t.indexs[k].cols;
      assert Distinct(qs) && forall i :: 0 <= i < |qs| ==> qs[i] in qs;
    }
  }

  lemma PlaceDistinct(t: Table, c: Column, p: nat)
    requires p <= |t.cols| && forall k :: 0 <= k < |t.indexs| ==> Distinct(t.indexs[k].cols)
    ensures forall k :: 0 <= k < |t.indexs| ==> Distinct(PlaceColumn(t, c, p).indexs[k].cols)
  {
    forall k | 0 <= k < |t.indexs|
      ensures Distinct(UpAll(p, t.indexs[k].cols))
    {
      assert Distinct(t.indexs[k].cols);
    }
  }

  // ---------- rows ----------

  function InsertRows(t: Table, rs: seq<Record>): Result<Table>
    requires t.indexs != [] ==> t.upd.Some?
  {
    if |t.indexs| != 1 then Err("Index size should be 1!")
    else Ok(t.(slots := InsertAll(t.RuleOf(t.indexs[0]), t.slots, rs)))
  }
}
