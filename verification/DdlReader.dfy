/** Reading a statement line by line. */
module DdlReader {
  import opened LineReader
  import opened Text
  import opened Statements

  function ReadNames(n: int, ls: seq<string>): (seq<string>, seq<string>)
    decreases n
  {
    if n <= 0 then ([], ls)
    else var (names, left) := ReadNames(n - 1, Tail(ls)); ([Head(ls)] + names, left)
  }

  function ReadColumn(ls: seq<string>): Read<ColumnStatement> {
    var name, typ := Head(ls), Head(Tail(ls));
    match ReadInt(Tail(Tail(ls)))
    case Bad(e) => Bad(e)
    case Got(notNull, l1) =>
      match ReadInt(l1)
      case Bad(e) => Bad(e)
      case Got(hasDefault, l2) =>
        if hasDefault == 1 then Got(ColumnStatement(name, typ, notNull != 0, Some(Head(l2))), Tail(l2))
        else Got(ColumnStatement(name, typ, notNull != 0, None), l2)
  }

  /** n more columns after those already read. */
  function ReadColumns(cs: seq<ColumnStatement>, n: int, ls: seq<string>): Read<seq<ColumnStatement>>
    decreases n
  {
    if n <= 0 then Got(cs, ls)
    else match ReadColumn(ls)
      case Bad(e) => Bad(e)
      case Got(c, l1) => ReadColumns(cs + [c], n - 1, l1)
  }

  /** A flag, and a line if the flag is not zero. */
  function ReadName(ls: seq<string>): Read<string> {
    match ReadInt(ls)
    case Bad(e) => Bad(e)
    case Got(has, l1) => if has != 0 then Got(Head(l1), Tail(l1)) else Got("", l1)
  }

  function ReadIndex(ls: seq<string>): Read<IndexStatement> {
    match ReadName(ls)
    case Bad(e) => Bad(e)
    case Got(name, l1) =>
      match ReadInt(l1)
      case Bad(e) => Bad(e)
      case Got(primary, l2) =>
        match ReadInt(l2)
        case Bad(e) => Bad(e)
        case Got(n, l3) => Got(IndexStatement(name, primary != 0, ReadNames(n, l3).0), ReadNames(n, l3).1)
  }

  function ReadIndexs(indexs: seq<IndexStatement>, n: int, ls: seq<string>): Read<seq<IndexStatement>>
    decreases n
  {
    if n <= 0 then Got(indexs, ls)
    else match ReadIndex(ls)
      case Bad(e) => Bad(e)
      case Got(i, l1) => ReadIndexs(indexs + [i], n - 1, l1)
  }

  function ReadCreate(ls: seq<string>): Read<Statement> {
    match ReadInt(Tail(ls))
    case Bad(e) => Bad(e)
    case Got(colCount, l1) =>
      match ReadColumns([], colCount, l1)
      case Bad(e) => Bad(e)
      case Got(cols, l2) =>
        match ReadInt(l2)
        case Bad(e) => Bad(e)
        case Got(idxCount, l3) =>
          match ReadIndexs([], idxCount, l3)
          case Bad(e) => Bad(e)
          case Got(indexs, l4) => Got(CreateTable(Head(ls), cols, indexs), l4)
  }

  function ReadAddCol(ls: seq<string>): Read<Statement> {
    match ReadColumn(ls)
    case Bad(e) => Bad(e)
    case Got(col, l1) =>
      match ReadInt(l1)
      case Bad(e) => Bad(e)
      case Got(isAfter, l2) => if isAfter != 0 then Got(AddCol(col, Some(Head(l2))), Tail(l2))
        else Got(AddCol(col, None), l2)
  }

  function ReadDropIndex(ls: seq<string>): Read<Statement> {
    match ReadInt(ls)
    case Bad(e) => Bad(e)
    case Got(primary, l1) => if primary != 0 then Got(DropIndex(true, ""), l1)
      else Got(DropIndex(false, Head(l1)), Tail(l1))
  }

  function ReadAddIndex(ls: seq<string>): Read<Statement> {
    match ReadInt(ls)
    case Bad(e) => Bad(e)
    case Got(primary, l1) =>
      var name, l2 := if primary != 0 then "" else Head(l1), if primary != 0 then l1 else Tail(l1);
      match ReadInt(l2)
      case Bad(e) => Bad(e)
      case Got(n, l3) => Got(AddIndex(primary != 0, name, ReadNames(n, l3).0), ReadNames(n, l3).1)
  }

  function ReadChangeCol(ls: seq<string>): Read<Statement> {
    match ReadColumn(ls)
    case Bad(e) => Bad(e)
    case Got(col, l1) => Got(ChangeCol(col, Head(l1)), Tail(l1))
  }

  function ReadAlter(ls: seq<string>): Read<Statement> {
    ReadItem(Head(ls), Tail(ls))
  }

  function ReadItem(typ: string, l1: seq<string>): Read<Statement> {
    if typ == "ADDCOL" then ReadAddCol(l1)
    else if typ == "NOTHING" then Got(Nothing, l1)
    else if typ == "DROPCOL" then Got(DropCol(Head(l1)), Tail(l1))
    else if typ == "DROPINDEX" then ReadDropIndex(l1)
    else if typ == "ADDINDEX" then ReadAddIndex(l1)
    else if typ == "CHANGECOL" then ReadChangeCol(l1)
    else Bad("Alter type no implemented!")
  }

  function ReadStatement(ls: seq<string>): Read<Statement> {
    if Head(ls) == "CREATE" then ReadCreate(Tail(ls))
    else if Head(ls) == "ALTER" then ReadAlter(Tail(ls))
    else Bad("Unknown type of statement! " + Head(ls))
  }

  /** A reading over a stream has this outcome and leaves these lines; a failed one leaves whatever it got to. */
  predicate Agrees<T(==)>(r: Result<T>, expected: Read<T>, left: seq<string>) {
    match expected
    case Bad(_) => r.Err?
    case Got(v, l) => r == Ok(v) && left == l
  }

  // ---------- over a stream ----------

  method GetNames(helper: IOHelper, n: int) returns (names: seq<string>)
    modifies helper
    ensures (names, helper.Left()) == ReadNames(n, old(helper.Left()))
  {
    names := [];
    var i := 0;
    ghost var all, todo := ReadNames(n, helper.Left()), n;
    NoNames(all);
    while i < n
      invariant 0 <= i && (i <= n || i == 0) && todo == n - i
      invariant all == NamesAfter(names, ReadNames(todo, helper.Left()))
    {
      NextName(names, todo, helper.Left());
      var keyName := helper.GetLine();
      names := names + [keyName];
      i, todo := i + 1, todo - 1;
    }
    assert names + [] == names;
  }

  function NamesAfter(names: seq<string>, r: (seq<string>, seq<string>)): (seq<string>, seq<string>) {
    (names + r.0, r.1)
  }

  lemma NoNames(r: (seq<string>, seq<string>))
    ensures NamesAfter([], r) == r
  {
    assert [] + r.0 == r.0;
  }

  lemma NextName(names: seq<string>, n: int, ls: seq<string>)
    requires n > 0
    ensures NamesAfter(names, ReadNames(n, ls)) == NamesAfter(names + [Head(ls)], ReadNames(n - 1, Tail(ls)))
  {
    Regroup(names, [Head(ls)], ReadNames(n - 1, Tail(ls)).0);
  }

  method GetColumn(helper: IOHelper) returns (r: Result<ColumnStatement>)
    modifies helper
    ensures Agrees(r, ReadColumn(old(helper.Left())), helper.Left())
  {
    var name := helper.GetLine();
    var typ := helper.GetLine();
    var isNotNull := helper.GetLineInt();
    if isNotNull.None? {
      return Err("bad lexical cast");
    }
    var hasDefault := helper.GetLineInt();
    if hasDefault.None? {
      return Err("bad lexical cast");
    }
    var defaultStr := None;
    if hasDefault.value == 1 {
      var line := helper.GetLine();
      defaultStr := Some(line);
    }
    r := Ok(ColumnStatement(name, typ, isNotNull.value != 0, defaultStr));
  }

  /** Reading n more columns gives `all`. */
  ghost predicate StillColumns(helper: IOHelper, all: Read<seq<ColumnStatement>>, cols: seq<ColumnStatement>, n: int)
    reads helper
  {
    all == ReadColumns(cols, n, helper.Left())
  }

  lemma AllColumns(helper: IOHelper, all: Read<seq<ColumnStatement>>, cols: seq<ColumnStatement>, n: int)
    requires StillColumns(helper, all, cols, n) && n <= 0
    ensures all == Got(cols, helper.Left())
  {
  }

  /** One round of the loop below. */
  method NextColumn(helper: IOHelper, ghost all: Read<seq<ColumnStatement>>, cols: seq<ColumnStatement>, ghost n: int)
    returns (ok: bool, more: seq<ColumnStatement>, ghost left: int)
    requires n > 0 && StillColumns(helper, all, cols, n)
    modifies helper
    ensures left == n - 1 && if ok then StillColumns(helper, all, more, left) else all.Bad?
  {
    var col := GetColumn(helper);
    ok := col.Ok?;
    more := if ok then cols + [col.value] else cols;
    left := n - 1;
  }

  method GetColumns(helper: IOHelper, colCount: int) returns (r: Result<seq<ColumnStatement>>)
    modifies helper
    ensures Agrees(r, ReadColumns([], colCount, old(helper.Left())), helper.Left())
  {
    var cols: seq<ColumnStatement> := [];
    var i := 0;
    ghost var all, todo := ReadColumns([], colCount, helper.Left()), colCount;
    while i < colCount
      invariant 0 <= i && (i <= colCount || i == 0) && todo == colCount - i
      invariant StillColumns(helper, all, cols, todo)
    {
      var ok;
      ok, cols, todo := NextColumn(helper, all, cols, todo);
      if !ok {
        return Err("bad lexical cast");
      }
      i := i + 1;
    }
    AllColumns(helper, all, cols, todo);
    r := Ok(cols);
  }

  method GetIndex(helper: IOHelper) returns (r: Result<IndexStatement>)
    modifies helper
    ensures Agrees(r, ReadIndex(old(helper.Left())), helper.Left())
  {
    var idxName := "";
    var hasName := helper.GetLineInt();
    if hasName.None? {
      return Err("bad lexical cast");
    }
    if hasName.value != 0 {
      idxName := helper.GetLine();
    }
    var isPrimary := helper.GetLineInt();
    if isPrimary.None? {
      return Err("bad lexical cast");
    }
    var keyCount := helper.GetLineInt();
    if keyCount.None? {
      return Err("bad lexical cast");
    }
    var keys := GetNames(helper, keyCount.value);
    r := Ok(IndexStatement(idxName, isPrimary.value != 0, keys));
  }

  ghost predicate StillIndexs(helper: IOHelper, all: Read<seq<IndexStatement>>, indexs: seq<IndexStatement>, n: int)
    reads helper
  {
    all == ReadIndexs(indexs, n, helper.Left())
  }

  lemma AllIndexs(helper: IOHelper, all: Read<seq<IndexStatement>>, indexs: seq<IndexStatement>, n: int)
    requires StillIndexs(helper, all, indexs, n) && n <= 0
    ensures all == Got(indexs, helper.Left())
  {
  }

  method NextIndex(helper: IOHelper, ghost all: Read<seq<IndexStatement>>, indexs: seq<IndexStatement>, ghost n: int)
    returns (ok: bool, more: seq<IndexStatement>, ghost left: int)
    requires n > 0 && StillIndexs(helper, all, indexs, n)
    modifies helper
    ensures left == n - 1 && if ok then StillIndexs(helper, all, more, left) else all.Bad?
  {
    var index := GetIndex(helper);
    ok := index.Ok?;
    more := if ok then indexs + [index.value] else indexs;
    left := n - 1;
  }

  method GetIndexs(helper: IOHelper, idxCount: int) returns (r: Result<seq<IndexStatement>>)
    modifies helper
    ensures Agrees(r, ReadIndexs([], idxCount, old(helper.Left())), helper.Left())
  {
    ghost var all := ReadIndexs([], idxCount, helper.Left());
    var indexs: seq<IndexStatement> := [];
    var i := 0;
    ghost var todo := idxCount;
    while i < idxCount
      invariant 0 <= i && (i <= idxCount || i == 0) && todo == idxCount - i
      invariant StillIndexs(helper, all, indexs, todo)
    {
      var ok;
      ok, indexs, todo := NextIndex(helper, all, indexs, todo);
      if !ok {
        return Err("bad lexical cast");
      }
      i := i + 1;
    }
    AllIndexs(helper, all, indexs, todo);
    r := Ok(indexs);
  }

  method GetCreate(helper: IOHelper) returns (r: Result<Statement>)
    modifies helper
    ensures Agrees(r, ReadCreate(old(helper.Left())), helper.Left())
  {
    var tableName := helper.GetLine();
    var colCount := helper.GetLineInt();
    if colCount.None? {
      return Err("bad lexical cast");
    }
    var cols := GetColumns(helper, colCount.value);
    if cols.Err? {
      return Err(cols.message);
    }
    var idxCount := helper.GetLineInt();
    if idxCount.None? {
      return Err("bad lexical cast");
    }
    var indexs := GetIndexs(helper, idxCount.value);
    if indexs.Err? {
      return Err(indexs.message);
    }
    r := Ok(CreateTable(tableName, cols.value, indexs.value));
  }

  method GetAddCol(helper: IOHelper) returns (r: Result<Statement>)
    modifies helper
    ensures Agrees(r, ReadAddCol(old(helper.Left())), helper.Left())
  {
    var col := GetColumn(helper);
    if col.Err? {
      return Err(col.message);
    }
    var isAfterCol := helper.GetLineInt();
    if isAfterCol.None? {
      return Err("bad lexical cast");
    }
    var insAfter := None;
    if isAfterCol.value != 0 {
      var line := helper.GetLine();
      insAfter := Some(line);
    }
    r := Ok(AddCol(col.value, insAfter));
  }

  method GetDropIndex(helper: IOHelper) returns (r: Result<Statement>)
    modifies helper
    ensures Agrees(r, ReadDropIndex(old(helper.Left())), helper.Left())
  {
    var isPrimary := helper.GetLineInt();
    if isPrimary.None? {
      return Err("bad lexical cast");
    }
    var indexName := "";
    if isPrimary.value == 0 {
      indexName := helper.GetLine();
    }
    r := Ok(DropIndex(isPrimary.value != 0, indexName));
  }

  method GetAddIndex(helper: IOHelper) returns (r: Result<Statement>)
    modifies helper
    ensures Agrees(r, ReadAddIndex(old(helper.Left())), helper.Left())
  {
    var isPrimary := helper.GetLineInt();
    if isPrimary.None? {
      return Err("bad lexical cast");
    }
    var indexName := "";
    if isPrimary.value == 0 {
      indexName := helper.GetLine();
    }
    var colCount := helper.GetLineInt();
    if colCount.None? {
      return Err("bad lexical cast");
    }
    var cols := GetNames(helper, colCount.value);
    r := Ok(AddIndex(isPrimary.value != 0, indexName, cols));
  }

  method GetChangeCol(helper: IOHelper) returns (r: Result<Statement>)
    modifies helper
    ensures Agrees(r, ReadChangeCol(old(helper.Left())), helper.Left())
  {
    var col := GetColumn(helper);
    if col.Err? {
      return Err(col.message);
    }
    var prevName := helper.GetLine();
    r := Ok(ChangeCol(col.value, prevName));
  }

  method GetAlter(helper: IOHelper) returns (r: Result<Statement>)
    modifies helper
    ensures Agrees(r, ReadAlter(old(helper.Left())), helper.Left())
  {
    var typeStr := helper.GetLine();
    if typeStr == "ADDCOL" {
      r := GetAddCol(helper);
    } else if typeStr == "NOTHING" {
      r := Ok(Nothing);
    } else if typeStr == "DROPCOL" {
      var colName := helper.GetLine();
      r := Ok(DropCol(colName));
    } else if typeStr == "DROPINDEX" {
      r := GetDropIndex(helper);
    } else if typeStr == "ADDINDEX" {
      r := GetAddIndex(helper);
    } else if typeStr == "CHANGECOL" {
      r := GetChangeCol(helper);
    } else {
      r := Err("Alter type no implemented!");
    }
  }

  method GetStatement(helper: IOHelper) returns (r: Result<Statement>)
    modifies helper
    ensures Agrees(r, ReadStatement(old(helper.Left())), helper.Left())
  {
    var typ := helper.GetLine();
    if typ == "CREATE" {
      r := GetCreate(helper);
    } else if typ == "ALTER" {
      r := GetAlter(helper);
    } else {
      r := Err("Unknown type of statement! " + typ);
    }
  }
}
