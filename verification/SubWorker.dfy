/** A worker's loop over the states of one table, from DDL statements and data files to the merged table. */
module SubWorker {
  import opened Text
  import opened Merge
  import opened MergeTheorems
  import Schema
  import opened Statements
  import opened SchemaTheorems
  import opened Runs
  import Lines
  import RowText
  import TableEngine

  /** What one state brings: a statement, and the data file of each source. */
  datatype Input = Input(st: Statement, dat: seq<string>)

  type TwoFiles = i: Input | |i.dat| == 2 witness Input(Nothing, ["", ""])

  // ---------- the run that the inputs denote ----------

  function LineRecord(line: string, width: nat, source: int, stamp: int): Record {
    var fields := RowText.Fields(RowText.Drop(line, 1));
    Record(seq(width, k requires 0 <= k < width => RowText.FieldAt(fields, k)), source, stamp)
  }

  function FileRecords(lines: seq<string>, width: nat, source: int, stamp: int): (rs: seq<Record>)
    ensures |rs| == |lines| && forall i :: 0 <= i < |lines| ==> rs[i] == LineRecord(lines[i], width, source, stamp + i)
  {
    seq(|lines|, i requires 0 <= i < |lines| => LineRecord(lines[i], width, source, stamp + i))
  }

  /** How many rows a source has delivered in the states of `inputs`. */
  function Delivered(inputs: seq<TwoFiles>, source: int): nat
    requires source == 0 || source == 1
  {
    if inputs == [] then 0
    else Delivered(inputs[..|inputs| - 1], source) + |Lines.Split(inputs[|inputs| - 1].dat[source])|
  }

  function StageRecords(inputs: seq<TwoFiles>, width: nat): seq<Record>
    requires inputs != []
  {
    var n := |inputs| - 1;
    StateRecords(inputs[n], width, Delivered(inputs[..n], 0), Delivered(inputs[..n], 1))
  }

  /** No line has more fields than the table has columns; a one-column table cannot be read at all. */
  predicate LinesFit(lines: seq<string>, width: nat) {
    width != 1 && forall i :: 0 <= i < |lines| ==> RowText.FitsColumns(lines[i], width)
  }

  /** What the worker takes for granted when it enters state i: the first statement creates the table. */
  predicate StateFits(t: Schema.Table, i: nat, input: TwoFiles) {
    && (i == 0 ==> input.st.CreateTable?)
    && (i == 0 || !input.st.CreateTable? ==> Fits(t, input.st))
    && match Trace(t, i, input.st)
       case Err(_) => true
       case Ok(t1) =>
         && (t1.indexs != [] ==> t1.upd.Some?)
         && LinesFit(Lines.Split(input.dat[0]), |t1.cols|) && LinesFit(Lines.Split(input.dat[1]), |t1.cols|)
  }

  function StateRecords(input: TwoFiles, width: nat, s0: nat, s1: nat): seq<Record> {
    FileRecords(Lines.Split(input.dat[0]), width, 0, s0) + FileRecords(Lines.Split(input.dat[1]), width, 1, s1)
  }

  /** One state, with the stamps reached so far. */
  function State(t: Schema.Table, i: nat, input: TwoFiles, s0: nat, s1: nat): Result<Schema.Table>
    requires StateFits(t, i, input)
  {
    match Trace(t, i, input.st)
    case Err(m) => Err(m)
    case Ok(t1) => Schema.InsertRows(t1, StateRecords(input, |t1.cols|, s0, s1))
  }

  predicate InputsFit(hash: seq<string> -> int, inputs: seq<TwoFiles>)
    decreases |inputs|, 0
  {
    inputs == [] ||
    var n := |inputs| - 1;
    InputsFit(hash, inputs[..n]) &&
    (States(hash, inputs[..n]).Ok? ==> StateFits(States(hash, inputs[..n]).value, n, inputs[n]))
  }

  /** All states in turn. */
  function States(hash: seq<string> -> int, inputs: seq<TwoFiles>): Result<Schema.Table>
    requires InputsFit(hash, inputs)
    decreases |inputs|, 1
  {
    if inputs == [] then Ok(EmptyTable(hash))
    else
      var n := |inputs| - 1;
      match States(hash, inputs[..n])
      case Err(m) => Err(m)
      case Ok(t) => State(t, n, inputs[n], Delivered(inputs[..n], 0), Delivered(inputs[..n], 1))
  }

  /** The columns that rows of the last state are read for. */
  function WidthAt(hash: seq<string> -> int, inputs: seq<TwoFiles>): nat
    requires inputs != [] && InputsFit(hash, inputs)
  {
    match States(hash, inputs[..|inputs| - 1])
    case Err(_) => 0
    case Ok(t) =>
      match Trace(t, |inputs| - 1, inputs[|inputs| - 1].st) case Ok(t1) => |t1.cols| case Err(_) => 0
  }

  /** The same inputs as stages of rows. */
  function Stages(hash: seq<string> -> int, inputs: seq<TwoFiles>): (s: seq<Stage>)
    requires InputsFit(hash, inputs)
    ensures |s| == |inputs|
    decreases |inputs|
  {
    if inputs == [] then []
    else
      var n := |inputs| - 1;
      Stages(hash, inputs[..n]) + [Stage(inputs[n].st, StageRecords(inputs, WidthAt(hash, inputs)))]
  }

  predicate NamedWithin(r: Record, low: seq<TwoFiles>, high: seq<TwoFiles>) {
    (r.source == 0 || r.source == 1) && Delivered(low, r.source) <= r.stamp < Delivered(high, r.source)
  }

  lemma StageNames(inputs: seq<TwoFiles>, width: nat)
    requires inputs != []
    ensures forall a :: a in StageRecords(inputs, width) ==> NamedWithin(a, inputs[..|inputs| - 1], inputs)
    ensures forall a, b | a in StageRecords(inputs, width) && b in StageRecords(inputs, width) ::
              a.source == b.source && a.stamp == b.stamp ==> a == b
  {
    var n := |inputs| - 1;
    var s0, s1 := Delivered(inputs[..n], 0), Delivered(inputs[..n], 1);
    forall a | a in StageRecords(inputs, width)
      ensures NamedWithin(a, inputs[..n], inputs)
      ensures Placed(inputs[n], width, s0, s1, a)
    {
      RecordPlaced(inputs[n], width, s0, s1, a);
    }
    forall a, b | a in StageRecords(inputs, width) && b in StageRecords(inputs, width) &&
                  a.source == b.source && a.stamp == b.stamp
      ensures a == b
    {
      SamePlace(inputs[n], width, s0, s1, a, b);
    }
  }

  lemma SamePlace(input: TwoFiles, width: nat, s0: nat, s1: nat, a: Record, b: Record)
    requires Placed(input, width, s0, s1, a) && Placed(input, width, s0, s1, b)
    requires a.source == b.source && a.stamp == b.stamp
    ensures a == b
  {
  }

  /** The row stands in its source's file where its stamp says. */
  ghost predicate Placed(input: TwoFiles, width: nat, s0: nat, s1: nat, a: Record) {
    && (a.source == 0 || a.source == 1)
    && FromFile(Lines.Split(input.dat[a.source]), width, if a.source == 0 then s0 else s1, a)
  }

  predicate FromFile(lines: seq<string>, width: nat, stamp: nat, a: Record) {
    stamp <= a.stamp < stamp + |lines| && a == LineRecord(lines[a.stamp - stamp], width, a.source, a.stamp)
  }

  lemma RecordPlaced(input: TwoFiles, width: nat, s0: nat, s1: nat, a: Record)
    requires a in StateRecords(input, width, s0, s1)
    ensures Placed(input, width, s0, s1, a)
  {
    var first, second := Lines.Split(input.dat[0]), Lines.Split(input.dat[1]);
    EitherSide(FileRecords(first, width, 0, s0), FileRecords(second, width, 1, s1), a);
    if a in FileRecords(first, width, 0, s0) {
      InFile(first, width, 0, s0, a);
    } else {
      InFile(second, width, 1, s1, a);
    }
  }

  lemma EitherSide(r: seq<Record>, s: seq<Record>, a: Record)
    requires a in r + s
    ensures a in r || a in s
  {
  }

  lemma InFile(lines: seq<string>, width: nat, source: int, stamp: nat, a: Record)
    requires a in FileRecords(lines, width, source, stamp)
    ensures a.source == source && FromFile(lines, width, stamp, a)
  {
    var k :| 0 <= k < |lines| && FileRecords(lines, width, source, stamp)[k] == a;
    LineNamed(lines[k], width, source, stamp + k);
    assert a.stamp - stamp == k;
  }

  lemma LineNamed(line: string, width: nat, source: int, stamp: int)
    ensures var r := LineRecord(line, width, source, stamp); r.source == source && r.stamp == stamp
  {
  }

  lemma {:induction false} StagesBelow(hash: seq<string> -> int, inputs: seq<TwoFiles>, i: nat, a: Record)
    requires InputsFit(hash, inputs) && i < |inputs| && a in Stages(hash, inputs)[i].rs
    ensures NamedWithin(a, [], inputs)
    decreases |inputs|
  {
    var n := |inputs| - 1;
    if i < n {
      StagesBelow(hash, inputs[..n], i, a);
    } else {
      StageNames(inputs, WidthAt(hash, inputs));
    }
  }

  lemma {:induction false} PairApart(hash: seq<string> -> int, inputs: seq<TwoFiles>, i: nat, j: nat, a: Record,
    b: Record)
    requires InputsFit(hash, inputs) && i < |inputs| && j < |inputs| && a in Stages(hash, inputs)[i].rs &&
             b in Stages(hash, inputs)[j].rs
    requires a.source == b.source && a.stamp == b.stamp
    ensures i == j && a == b
    decreases |inputs|
  {
    var n := |inputs| - 1;
    StageNames(inputs, WidthAt(hash, inputs));
    if i < n && j < n {
      PairApart(hash, inputs[..n], i, j, a, b);
    } else if i < n {
      StagesBelow(hash, inputs[..n], i, a);
    } else if j < n {
      StagesBelow(hash, inputs[..n], j, b);
    }
  }

  /** Stamps count up per source, so every row of a run has its own name. */
  lemma StagesApart(hash: seq<string> -> int, inputs: seq<TwoFiles>)
    requires InputsFit(hash, inputs)
    ensures IdsApart(Stages(hash, inputs))
  {
    var s := Stages(hash, inputs);
    forall i, j, a, b | 0 <= i < |s| && 0 <= j < |s| && a in s[i].rs && b in s[j].rs && a.source == b.source &&
      a.stamp == b.stamp
      ensures i == j && a == b
    {
      PairApart(hash, inputs, i, j, a, b);
    }
  }

  // ---------- DDL ----------

  method FillColumn(table: TableEngine.Table, col: ColumnStatement)
    requires table.Valid() && table.indexs == []
    modifies table`colDes, table`updCol, table`phy, table`colPhy, table`indexs, table`model, table`rows, table`slots
    modifies table.repr`data, table.repr`idxInsideTable
    ensures table.Valid() && table.indexs == []
    ensures Schema.AddColumn(old(table.model), col.Column(), None) == Ok(table.model)
    ensures forall c :: c in table.colDes ==> c in old(table.colDes) || fresh(c)
  {
    var newColDes := new TableEngine.ColumnDescriptor(col.name, col.typ, col.defaultStr);
    assert newColDes.Column() == col.Column();
    var ok := table.AddColumn(newColDes, None);
  }

  method FillColumns(table: TableEngine.Table, cols: seq<ColumnStatement>)
    requires table.Valid() && table.indexs == []
    modifies table`colDes, table`updCol, table`phy, table`colPhy, table`indexs, table`model, table`rows, table`slots
    modifies table.repr`data, table.repr`idxInsideTable
    ensures table.Valid() && table.indexs == [] && table.model == Statements.FillColumns(old(table.model), cols)
    ensures forall c :: c in table.colDes ==> c in old(table.colDes) || fresh(c)
  {
    var i := 0;
    while i < |cols|
      invariant 0 <= i <= |cols| && table.Valid() && table.indexs == []
      invariant table.model == Statements.FillColumns(old(table.model), cols[..i])
      invariant forall c :: c in table.colDes ==> c in old(table.colDes) || fresh(c)
    {
      FillColumn(table, cols[i]);
      assert cols[..i + 1][..i] == cols[..i];
      i := i + 1;
    }
    assert cols[..i] == cols;
  }

  method FillIndexs(table: TableEngine.Table, indexs: seq<IndexStatement>)
    requires table.Valid() && table.indexs == [] && table.rows == [] && table.updCol != null
    requires forall i :: 0 <= i < |indexs| ==> KeysKnown(table.model, indexs[i].keys)
    modifies table`indexs, table`model, table`rows, table`slots, table.repr`idxInsideTable
    ensures table.Valid() && table.model == Statements.FillIndexs(old(table.model), indexs)
    ensures forall x :: x in table.indexs ==> fresh(x)
  {
    var i := 0;
    while i < |indexs|
      invariant 0 <= i <= |indexs| && table.Sound() && table.rows == []
      invariant table.model == Statements.FillIndexs(old(table.model), indexs[..i])
      invariant forall x :: x in table.indexs ==> fresh(x)
    {
      assert KeysKnown(old(table.model), indexs[i].keys);
      assert indexs[..i + 1][..i] == indexs[..i];
      table.PushNamed(indexs[i].name, indexs[i].keys, indexs[i].isPrimaryKey);
      i := i + 1;
    }
    assert indexs[..i] == indexs;
  }

  method FillCreate(table: TableEngine.Table, st: Statement)
    requires table.Valid() && st.CreateTable? && Fits(table.model, st)
    modifies table`colDes, table`updCol, table`phy, table`colPhy, table`indexs, table`model, table`rows, table`slots
    modifies table.repr`data, table.repr`idxInsideTable
    ensures table.Valid() && Fill(old(table.model), st) == Ok(table.model)
    ensures forall c :: c in table.colDes ==> c in old(table.colDes) || fresh(c)
    ensures forall x :: x in table.indexs ==> x in old(table.indexs) || fresh(x)
  {
    FillColumns(table, st.cols);
    if st.indexs == [] {
      table.PushTemp();
    } else {
      FillIndexs(table, st.indexs);
    }
  }

  method FillAddCol(table: TableEngine.Table, col: ColumnStatement, insAfter: Option<string>) returns (ok: bool)
    requires table.Valid() && Fits(table.model, AddCol(col, insAfter))
    modifies table`colDes, table`updCol, table`phy, table`colPhy, table`indexs, table`model, table`rows, table`slots
    modifies table.repr`data, table.repr`idxInsideTable
    ensures table.Valid()
    ensures match Fill(old(table.model), AddCol(col, insAfter))
            case Ok(t) => ok && table.model == t
            case Err(_) => !ok && table.model == old(table.model)
    ensures forall c :: c in table.colDes ==> c in old(table.colDes) || fresh(c)
    ensures forall x :: x in table.indexs ==> x in old(table.indexs) || fresh(x)
  {
    var newCol := new TableEngine.ColumnDescriptor(col.name, col.typ, col.defaultStr);
    assert newCol.Column() == col.Column();
    ok := table.AddColumn(newCol, insAfter);
  }

  method FillDropCol(table: TableEngine.Table, colName: string) returns (ok: bool)
    requires table.Valid() && Fits(table.model, DropCol(colName))
    modifies table`colDes, table`phy, table`indexs, table`model, table`rows, table`slots
    modifies table.repr`idxInsideTable, table.indexs
    ensures table.Valid()
    ensures match Fill(old(table.model), DropCol(colName))
            case Ok(t) => ok && table.model == t
            case Err(_) => !ok && table.model == old(table.model)
    ensures forall c :: c in table.colDes ==> c in old(table.colDes)
    ensures forall x :: x in table.indexs ==> x in old(table.indexs) || fresh(x)
  {
    ok := table.DropColumn(colName);
  }

  method FillDropIndex(table: TableEngine.Table, isPrimary: bool, indexName: string)
    requires table.Valid() && Fits(table.model, DropIndex(isPrimary, indexName))
    modifies table`indexs, table`model, table`rows, table`slots, table.repr`idxInsideTable
    ensures table.Valid() && Fill(old(table.model), DropIndex(isPrimary, indexName)) == Ok(table.model)
    ensures forall x :: x in table.indexs ==> x in old(table.indexs) || fresh(x)
  {
    table.DropUniqueIndex(isPrimary, false, indexName);
  }

  method FillAddIndex(table: TableEngine.Table, isPrimary: bool, indexName: string, keys: seq<string>)
    returns (ok: bool)
    requires table.Valid() && Fits(table.model, AddIndex(isPrimary, indexName, keys))
    modifies table`indexs, table`model, table`rows, table`slots, table.repr`idxInsideTable
    ensures table.Valid()
    ensures match Fill(old(table.model), AddIndex(isPrimary, indexName, keys))
            case Ok(t) => ok && table.model == t
            case Err(_) => !ok && table.model == old(table.model)
    ensures forall x :: x in table.indexs ==> x in old(table.indexs) || fresh(x)
  {
    ok := table.AddUniqueIndex(if isPrimary then "" else indexName, keys, isPrimary);
  }

  /** The effect of a statement; false stands for the exception that the statement raises. */
  method FillToTable(table: TableEngine.Table, st: Statement) returns (ok: bool)
    requires table.Valid() && Fits(table.model, st)
    modifies table`colDes, table`updCol, table`phy, table`colPhy, table`indexs, table`model, table`rows, table`slots
    modifies table.repr`data, table.repr`idxInsideTable, table.colDes`name, table.colDes`def, table.indexs
    ensures table.Valid()
    ensures match Fill(old(table.model), st)
            case Ok(t) => ok && table.model == t
            case Err(_) => !ok && table.model == old(table.model)
    ensures forall c :: c in table.colDes ==> c in old(table.colDes) || fresh(c)
    ensures forall x :: x in table.indexs ==> x in old(table.indexs) || fresh(x)
  {
    ok := true;
    match st
    case CreateTable(_, _, _) => FillCreate(table, st);
    case AddCol(col, insAfter) => ok := FillAddCol(table, col, insAfter);
    case Nothing =>
    case DropCol(colName) => ok := FillDropCol(table, colName);
    case DropIndex(isPrimary, indexName) => FillDropIndex(table, isPrimary, indexName);
    case AddIndex(isPrimary, indexName, keys) => ok := FillAddIndex(table, isPrimary, indexName, keys);
    case ChangeCol(col, prevName) => ok := table.ChangeColumn(prevName, col.name, col.defaultStr);
  }

  // ---------- rows ----------

  method ParseLine(line: string, width: nat, insPos: seq<int>, source: int, stamp: int) returns (row: TableEngine.Row)
    requires |insPos| != 1 && RowText.FitsColumns(line, |insPos|)
    requires forall k :: 0 <= k < |insPos| ==> 0 <= insPos[k] < width
    requires Schema.Distinct(insPos)
    ensures fresh(row) && |row.data| == width
    ensures TableEngine.View(insPos)(row.Rec()) == LineRecord(line, |insPos|, source, stamp)
    ensures forall k :: 0 <= k < |insPos| ==>
              row.data[insPos[k]] == RowText.FieldAt(RowText.Fields(RowText.Drop(line, 1)), k)
    ensures forall j :: 0 <= j < width && j !in insPos ==> row.data[j] == ""
  {
    var lineRes := new string[width](i => "");
    RowText.ParseEscaped(lineRes, line, insPos);
    row := new TableEngine.Row(lineRes[..], source, stamp);
    LineShown(row.Rec(), line, insPos);
  }

  /** The values of a line, found at the positions of their columns. */
  lemma LineShown(r: Record, line: string, insPos: seq<int>)
    requires forall k :: 0 <= k < |insPos| ==> 0 <= insPos[k] < |r.vals|
    requires forall k :: 0 <= k < |insPos| ==>
               r.vals[insPos[k]] == "" + RowText.FieldAt(RowText.Fields(RowText.Drop(line, 1)), k)
    ensures TableEngine.View(insPos)(r) == LineRecord(line, |insPos|, r.source, r.stamp)
  {
    var seen, meant := TableEngine.View(insPos)(r), LineRecord(line, |insPos|, r.source, r.stamp);
    forall k | 0 <= k < |insPos|
      ensures seen.vals[k] == meant.vals[k]
    {
      assert seen.vals[k] == r.vals[insPos[k]];
    }
    assert seen.vals == meant.vals;
  }

  /** The next line of a file, as one of all. */
  lemma NextLine(rest: string, all: seq<string>, n: nat, width: nat, source: int, stamp: int)
    requires rest != "" && n <= |all| && Lines.Split(rest) == all[n..] && LinesFit(all, width)
    ensures var (line, more) := Lines.FirstLine(rest);
            && n < |all| && Lines.Split(more) == all[n + 1..] && RowText.FitsColumns(line, width)
            && FileRecords(all, width, source, stamp)[n] == LineRecord(line, width, source, stamp + n)
  {
    assert all[n..][0] == all[n] && all[n..][1..] == all[n + 1..];
    assert Lines.Split(rest)[1..] == Lines.Split(Lines.FirstLine(rest).1);
  }

  method ParseData(table: TableEngine.Table, file: string, source: int, stamp: nat)
    returns (ret: seq<TableEngine.Row>, next: nat)
    requires table.Columns() && LinesFit(Lines.Split(file), |table.colDes|)
    ensures next == stamp + |Lines.Split(file)|
    ensures Schema.Distinct(ret) && forall i :: 0 <= i < |ret| ==> fresh(ret[i]) && |ret[i].data| == table.colPhy
    ensures MapAll(TableEngine.View(table.phy), TableEngine.Records(ret)) ==
              FileRecords(Lines.Split(file), |table.colDes|, source, stamp)
  {
    ret, next := [], stamp;
    var insPos := table.GetPhyPosArray();
    var rest := file;
    ghost var all := Lines.Split(file);
    ghost var recs := FileRecords(all, |insPos|, source, stamp);
    while rest != ""
      invariant |ret| <= |all| && Lines.Split(rest) == all[|ret|..] && next == stamp + |ret|
      invariant Schema.Distinct(ret) && forall i :: 0 <= i < |ret| ==> fresh(ret[i]) && |ret[i].data| == table.colPhy
      invariant forall i :: 0 <= i < |ret| ==> Shows(insPos, ret[i], recs[i])
      decreases |rest|
    {
      NextLine(rest, all, |ret|, |insPos|, source, stamp);
      ret, next, rest := ParseNext(ret, rest, table.colPhy, insPos, source, next);
    }
    RecordsOf(table.phy, ret, recs);
  }

  /** The next line becomes the next row. */
  method ParseNext(ret: seq<TableEngine.Row>, rest: string, width: nat, insPos: seq<int>, source: int, stamp: nat)
    returns (more: seq<TableEngine.Row>, next: nat, left: string)
    requires rest != "" && |insPos| != 1 && RowText.FitsColumns(Lines.FirstLine(rest).0, |insPos|)
    requires Schema.Distinct(insPos) && forall k :: 0 <= k < |insPos| ==> 0 <= insPos[k] < width
    requires Schema.Distinct(ret)
    ensures |more| == |ret| + 1 && Schema.Distinct(more) && forall i :: 0 <= i < |ret| ==> more[i] == ret[i]
    ensures fresh(more[|ret|]) && |more[|ret|].data| == width
    ensures Shows(insPos, more[|ret|], LineRecord(Lines.FirstLine(rest).0, |insPos|, source, stamp))
    ensures next == stamp + 1 && left == Lines.FirstLine(rest).1
  {
    var (line, rest1) := Lines.FirstLine(rest);
    left := rest1;
    var row := ParseLine(line, width, insPos, source, stamp);
    more, next := AddParsed(ret, row, stamp);
  }

  method AddParsed(ret: seq<TableEngine.Row>, row: TableEngine.Row, stamp: nat)
    returns (more: seq<TableEngine.Row>, next: nat)
    requires Schema.Distinct(ret) && row !in ret
    ensures |more| == |ret| + 1 && forall i :: 0 <= i < |more| ==> more[i] == if i < |ret| then ret[i] else row
    ensures next == stamp + 1 && Schema.Distinct(more)
  {
    more, next := ret + [row], stamp + 1;
  }

  predicate Shows(phy: seq<int>, row: TableEngine.Row, r: Record)
    reads row`data
  {
    TableEngine.View(phy)(row.Rec()) == r
  }

  lemma RecordsOf(phy: seq<int>, rows: seq<TableEngine.Row>, rs: seq<Record>)
    requires |rows| == |rs| && forall i :: 0 <= i < |rows| ==> Shows(phy, rows[i], rs[i])
    ensures MapAll(TableEngine.View(phy), TableEngine.Records(rows)) == rs
  {
  }

  // ---------- the loop ----------

  method InsertFile(table: TableEngine.Table, file: string, source: int, stamp: nat) returns (ok: bool, next: nat)
    requires table.Valid() && LinesFit(Lines.Split(file), |table.colDes|)
    modifies table`rows, table`slots, table`repr, table`model, table.indexs`hash
    ensures table.Valid() && next == stamp + |Lines.Split(file)|
    ensures match Schema.InsertRows(old(table.model), FileRecords(Lines.Split(file), |table.colDes|, source, stamp))
            case Ok(t) => ok && table.model == t
            case Err(_) => !ok
    ensures forall r :: r in table.repr ==> r in old(table.repr) || fresh(r)
  {
    var newRows;
    newRows, next := ParseData(table, file, source, stamp);
    ok := table.InsertRows(newRows);
  }

  method InsertFiles(table: TableEngine.Table, input: TwoFiles, s0: nat, s1: nat) returns (ok: bool, n0: nat, n1: nat)
    requires table.Valid()
    requires LinesFit(Lines.Split(input.dat[0]), |table.colDes|) && LinesFit(Lines.Split(input.dat[1]), |table.colDes|)
    modifies table`rows, table`slots, table`repr, table`model, table.indexs`hash
    ensures table.Valid()
    ensures ok ==> n0 == s0 + |Lines.Split(input.dat[0])| && n1 == s1 + |Lines.Split(input.dat[1])|
    ensures match Schema.InsertRows(old(table.model), StateRecords(input, |table.colDes|, s0, s1))
            case Ok(t) => ok && table.model == t
            case Err(_) => !ok
    ensures forall r :: r in table.repr ==> r in old(table.repr) || fresh(r)
  {
    n1 := s1;
    ghost var was := table.model;
    ok, n0 := InsertFile(table, input.dat[0], 0, s0);
    if ok {
      ok, n1 := InsertFile(table, input.dat[1], 1, s1);
      InsertAllJoins(was.RuleOf(was.indexs[0]), was.slots,
        FileRecords(Lines.Split(input.dat[0]), |table.colDes|, 0, s0),
                     FileRecords(Lines.Split(input.dat[1]), |table.colDes|, 1, s1));
    }
  }

  /** A CREATE is refused in every state but the first. */
  method TraceStatement(table: TableEngine.Table, st: Statement, state: nat) returns (ok: bool)
    requires table.Valid() && (state == 0 || !st.CreateTable? ==> Fits(table.model, st))
    modifies table`colDes, table`updCol, table`phy, table`colPhy, table`indexs, table`model, table`rows, table`slots
    modifies table.repr`data, table.repr`idxInsideTable, table.colDes`name, table.colDes`def, table.indexs
    ensures table.Valid()
    ensures match Trace(old(table.model), state, st)
            case Ok(t) => ok && table.model == t
            case Err(_) => !ok
    ensures forall c :: c in table.colDes ==> c in old(table.colDes) || fresh(c)
    ensures forall x :: x in table.indexs ==> x in old(table.indexs) || fresh(x)
  {
    if st.CreateTable? && state != 0 {
      return true;
    }
    ok := FillToTable(table, st);
  }

  method WorkState(table: TableEngine.Table, input: TwoFiles, i: nat, s0: nat, s1: nat)
    returns (ok: bool, n0: nat, n1: nat)
    requires table.Valid() && StateFits(table.model, i, input)
    modifies table, table.repr, table.colDes, table.indexs
    ensures table.Valid()
    ensures ok ==> n0 == s0 + |Lines.Split(input.dat[0])| && n1 == s1 + |Lines.Split(input.dat[1])|
    ensures match State(old(table.model), i, input, s0, s1)
            case Ok(t) => ok && table.model == t
            case Err(_) => !ok
    ensures forall r :: r in table.repr ==> r in old(table.repr) || fresh(r)
    ensures forall c :: c in table.colDes ==> c in old(table.colDes) || fresh(c)
    ensures forall x :: x in table.indexs ==> x in old(table.indexs) || fresh(x)
  {
    n0, n1 := s0, s1;
    ok := TraceStatement(table, input.st, i);
    if ok {
      assert forall k :: 0 <= k < |table.indexs| ==> table.indexs[k] in old(table.indexs) || fresh(table.indexs[k]);
      ok, n0, n1 := InsertFiles(table, input, s0, s1);
    }
  }

  lemma StatesUpTo(hash: seq<string> -> int, inputs: seq<TwoFiles>, n: nat)
    requires n < |inputs| && InputsFit(hash, inputs[..n + 1])
    ensures InputsFit(hash, inputs[..n])
    ensures States(hash, inputs[..n]).Ok? ==> StateFits(States(hash, inputs[..n]).value, n, inputs[n])
    ensures States(hash, inputs[..n + 1]) ==
              match States(hash, inputs[..n])
              case Err(m) => Err(m)
              case Ok(t) => State(t, n, inputs[n], Delivered(inputs[..n], 0), Delivered(inputs[..n], 1))
    ensures forall s :: s == 0 || s == 1 ==>
              Delivered(inputs[..n + 1], s) == Delivered(inputs[..n], s) + |Lines.Split(inputs[n].dat[s])|
  {
    var ins := inputs[..n + 1];
    assert ins[..n] == inputs[..n] && ins[n] == inputs[n];
  }

  lemma {:induction false} FitsPrefix(hash: seq<string> -> int, inputs: seq<TwoFiles>, n: nat)
    requires InputsFit(hash, inputs) && n <= |inputs|
    ensures InputsFit(hash, inputs[..n])
    ensures States(hash, inputs[..n]).Err? ==> States(hash, inputs).Err?
    decreases |inputs|
  {
    if n == |inputs| {
      WholeSeq(inputs);
    } else {
      var m := |inputs| - 1;
      FitsButLast(hash, inputs);
      FitsPrefix(hash, inputs[..m], n);
      Prefix(inputs, m, n);
    }
  }

  lemma FitsButLast(hash: seq<string> -> int, inputs: seq<TwoFiles>)
    requires InputsFit(hash, inputs) && inputs != []
    ensures InputsFit(hash, inputs[..|inputs| - 1])
    ensures States(hash, inputs[..|inputs| - 1]).Err? ==> States(hash, inputs).Err?
  {
  }

  lemma Prefix(inputs: seq<TwoFiles>, m: nat, n: nat)
    requires n <= m <= |inputs|
    ensures inputs[..m][..n] == inputs[..n]
  {
  }

  /** The table after n of the inputs, if they fit. */
  function TableAfter(hash: seq<string> -> int, inputs: seq<TwoFiles>, n: nat): Option<Result<Schema.Table>>
    requires n <= |inputs|
  {
    if InputsFit(hash, inputs[..n]) then Some(States(hash, inputs[..n])) else None
  }

  /** After `state` states the table is what they denote. */
  ghost predicate Reached(table: TableEngine.Table, inputs: seq<TwoFiles>, state: nat, s0: nat, s1: nat)
    reads table, table.repr, table.colDes, table.indexs
  {
    && state <= |inputs| && table.Valid()
    && TableAfter(table.hasher, inputs, state) == Some(Ok(table.model))
    && s0 == Delivered(inputs[..state], 0) && s1 == Delivered(inputs[..state], 1)
  }

  method WorkNext(table: TableEngine.Table, inputs: seq<TwoFiles>, state: nat, s0: nat, s1: nat)
    returns (ok: bool, next: nat, n0: nat, n1: nat)
    requires state < |inputs| && InputsFit(table.hasher, inputs) && Reached(table, inputs, state, s0, s1)
    modifies table, table.repr, table.colDes, table.indexs
    ensures next == state + 1
    ensures if ok then Reached(table, inputs, next, n0, n1) else States(table.hasher, inputs).Err?
    ensures forall r :: r in table.repr ==> r in old(table.repr) || fresh(r)
    ensures forall c :: c in table.colDes ==> c in old(table.colDes) || fresh(c)
    ensures forall x :: x in table.indexs ==> x in old(table.indexs) || fresh(x)
  {
    FitsPrefix(table.hasher, inputs, state + 1);
    StatesUpTo(table.hasher, inputs, state);
    ok, n0, n1 := WorkState(table, inputs[state], state, s0, s1);
    next := state + 1;
  }

  /** The worker computes the states that its inputs denote; false stands for an exception. */
  method Work(hasher: seq<string> -> int, inputs: seq<TwoFiles>) returns (ok: bool, table: TableEngine.Table)
    requires inputs != [] && InputsFit(hasher, inputs)
    ensures match States(hasher, inputs)
            case Ok(t) => ok && table.Valid() && table.model == t
            case Err(_) => !ok
  {
    table := new TableEngine.Table(hasher);
    var stamp0, stamp1 := 0, 0;
    var state := 0;
    ok := true;
    while state < |inputs|
      invariant Reached(table, inputs, state, stamp0, stamp1) && table.hasher == hasher
      invariant fresh(table) && fresh(table.repr)
      invariant forall c :: c in table.colDes ==> fresh(c)
      invariant forall x :: x in table.indexs ==> fresh(x)
    {
      assert forall k :: 0 <= k < |table.colDes| ==> table.colDes[k] in table.colDes;
      assert forall k :: 0 <= k < |table.indexs| ==> table.indexs[k] in table.indexs;
      ok, state, stamp0, stamp1 := WorkNext(table, inputs, state, stamp0, stamp1);
      if !ok {
        return;
      }
    }
    assert inputs[..state] == inputs;
  }

  lemma StateIsStage(t: Schema.Table, n: nat, inputs: seq<TwoFiles>, stage: Stage)
    requires |inputs| == n + 1 && StateFits(t, n, inputs[n])
    requires stage == Stage(inputs[n].st,
             StageRecords(inputs, match Trace(t, n, inputs[n].st) case Ok(t1) => |t1.cols| case Err(_) => 0))
    ensures StageFits(t, n, stage)
    ensures Step(t, n, stage) == State(t, n, inputs[n], Delivered(inputs[..n], 0), Delivered(inputs[..n], 1))
  {
  }

  /** The states are a run, and its rows have distinct names: what is proved of runs holds of the worker's table. */
  lemma {:induction false} StatesAreRun(hash: seq<string> -> int, inputs: seq<TwoFiles>)
    requires InputsFit(hash, inputs)
    ensures RunFits(hash, Stages(hash, inputs)) && Run(hash, Stages(hash, inputs)) == States(hash, inputs)
    decreases |inputs|
  {
    if inputs != [] {
      var n := |inputs| - 1;
      var before, s := Stages(hash, inputs[..n]), Stages(hash, inputs);
      StatesAreRun(hash, inputs[..n]);
      assert s[..n] == before;
      if States(hash, inputs[..n]).Ok? {
        StateIsStage(States(hash, inputs[..n]).value, n, inputs, s[n]);
      }
    }
  }
}
