/** The DDL statements of the line format, and what each does to a table. */
module Statements {
  import opened Text
  import opened Schema

  datatype ColumnStatement = ColumnStatement(name: string, typ: string, isNotNull: bool, defaultStr: Option<string>) {
    function Column(): Column {
      Schema.Column(name, typ, defaultStr)
    }
  }

  datatype IndexStatement = IndexStatement(name: string, isPrimaryKey: bool, keys: seq<string>)

  datatype Statement =
    | CreateTable(name: string, cols: seq<ColumnStatement>, indexs: seq<IndexStatement>)
    | AddCol(col: ColumnStatement, insAfter: Option<string>)
    | Nothing
    | DropCol(colName: string)
    | DropIndex(isPrimary: bool, indexName: string)
    | AddIndex(isPrimary: bool, indexName: string, keys: seq<string>)
    | ChangeCol(col: ColumnStatement, prevName: string)

  // ---------- CREATE ----------

  /** Columns are appended one by one to a table without indexes. */
  function FillColumns(t: Table, cols: seq<ColumnStatement>): (r: Table)
    requires t.indexs == []
    ensures r.indexs == []
    decreases |cols|
  {
    if cols == [] then t
    else
      var t1 := FillColumns(t, cols[..|cols| - 1]);
      PlaceColumn(t1, cols[|cols| - 1].Column(), |t1.cols|)
  }

  predicate KeysKnown(t: Table, keys: seq<string>) {
    Distinct(keys) && FindAll(t.cols, keys).Some?
  }

  function KeyIndex(t: Table, index: IndexStatement): Index
    requires KeysKnown(t, index.keys)
  {
    Index(index.name, index.isPrimaryKey, false, FindAll(t.cols, index.keys).value)
  }

  function FillIndexs(t: Table, indexs: seq<IndexStatement>): (r: Table)
    requires t.upd.Some? && forall i :: 0 <= i < |indexs| ==> KeysKnown(t, indexs[i].keys)
    ensures r.cols == t.cols && r.upd == t.upd
    decreases |indexs|
  {
    if indexs == [] then t
    else
      var t1 := FillIndexs(t, indexs[..|indexs| - 1]);
      assert KeysKnown(t, indexs[|indexs| - 1].keys);
      PushIndex(t1, KeyIndex(t1, indexs[|indexs| - 1]))
  }

  // ---------- any statement ----------

  /** What the code takes for granted: columns named by keys exist, `updated_at` exists and stays. */
  predicate Fits(t: Table, st: Statement) {
    if st.CreateTable? then
      && t.cols == [] && t.indexs == [] && t.slots == [] && t.upd.None?
      && var t1 := FillColumns(t, st.cols);
      HasUpd(t1) && forall i :: 0 <= i < |st.indexs| ==> KeysKnown(t1, st.indexs[i].keys)
    else
      && HasUpd(t)
      && (st.DropCol? ==> |t.indexs| == 1 && FindCol(t.cols, st.colName) != t.upd)
      && (st.AddIndex? && TakesKey(t) ==> KeysKnown(t, st.keys))
  }

  function Fill(t: Table, st: Statement): Result<Table>
    requires Fits(t, st)
  {
    match st
    case CreateTable(_, cols, indexs) =>
      var t1 := FillColumns(t, cols);
      Ok(if indexs == [] then PushIndex(t1, TempIndex(t1)) else FillIndexs(t1, indexs))
    case AddCol(col, insAfter) => AddColumn(t, col.Column(), insAfter)
    case Nothing => Ok(t)
    case DropCol(colName) => DropColumn(t, colName)
    case DropIndex(isPrimary, indexName) => Ok(DropUniqueIndex(t, isPrimary, false, indexName))
    case AddIndex(isPrimary, indexName, keys) => AddUniqueIndex(t, if isPrimary then "" else indexName, keys, isPrimary)
    case ChangeCol(col, prevName) => ChangeColumn(t, prevName, col.name, col.defaultStr)
  }
}
