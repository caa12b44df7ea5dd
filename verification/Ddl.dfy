/** Parsed DDL statements, and the lines that are written for them. */
module Ddl {
  import opened Decimal
  import opened Lines
  import opened Text
  import opened Schema
  import opened Statements

  datatype Constraint = NotNull | OtherConstraint

  datatype ColumnDef = ColumnDef(name: string, typ: string, constraints: seq<Constraint>, def: Option<string>) {
    predicate HasNotNull() {
      NotNull in constraints
    }

    predicate FirstIsNotNull() {
      constraints != [] && constraints[0] == NotNull
    }
  }

  /** A key without an index type is not written. */
  datatype KeyDef = KeyDef(typ: Option<string>, name: Option<string>, primary: bool, columns: seq<string>)

  datatype TableConstraint =
    | PrimaryKey(columns: seq<string>)
    | Unique(name: Option<string>, columns: seq<string>)
    | OtherTableConstraint

  datatype AlterItem =
    | AddColumn(columns: seq<ColumnDef>, after: Option<string>, first: bool)
    | DropColumn(names: seq<string>)
    | AddIndex
    | DropIndex(index: string)
    | DropPrimaryKey
    | AddConstraint(constraint: TableConstraint)
    | ChangeColumn(def: ColumnDef, prev: string)
    | OtherItem

  datatype Tree =
    | Create(table: string, cols: seq<ColumnDef>, keys: seq<KeyDef>)
    | Alter(items: seq<AlterItem>)
    | OtherTree

  function Remove(s: string, c: char): string {
    if s == "" then "" else (if s[0] == c then "" else [s[0]]) + Remove(s[1..], c)
  }

  function Unquote(s: string): string {
    Remove(s, '`')
  }

  function UnquoteAll(ss: seq<string>): seq<string> {
    if ss == [] then [] else [Unquote(ss[0])] + UnquoteAll(ss[1..])
  }

  function DefaultOf(c: ColumnDef): Option<string> {
    match c.def
    case None => None
    case Some(e) => Some(Remove(e, '\''))
  }

  function Flag(b: bool): string {
    if b then "1" else "0"
  }

  function Real(keys: seq<KeyDef>): seq<KeyDef> {
    if keys == [] then [] else (if keys[0].typ.Some? then [keys[0]] else []) + Real(keys[1..])
  }

  // ---------- the statement that is meant ----------

  function ColumnOf(c: ColumnDef, name: string, notNull: bool): ColumnStatement {
    ColumnStatement(name, c.typ, notNull, DefaultOf(c))
  }

  function CreateColumn(c: ColumnDef): ColumnStatement {
    ColumnOf(c, Unquote(c.name), c.HasNotNull())
  }

  function CreateColumns(cs: seq<ColumnDef>): seq<ColumnStatement> {
    if cs == [] then [] else [CreateColumn(cs[0])] + CreateColumns(cs[1..])
  }

  function CreateIndex(k: KeyDef): IndexStatement {
    IndexStatement(if k.name.Some? then k.name.value else "", k.primary, UnquoteAll(k.columns))
  }

  function CreateIndexs(ks: seq<KeyDef>): seq<IndexStatement> {
    if ks == [] then [] else [CreateIndex(ks[0])] + CreateIndexs(ks[1..])
  }

  function AddColOf(c: ColumnDef, after: Option<string>): Statement {
    AddCol(ColumnOf(c, c.name, c.FirstIsNotNull()), if after.Some? then Some(Unquote(after.value)) else None)
  }

  function ItemStatement(i: AlterItem): Option<Statement> {
    match i
    case AddColumn(cols, after, _) =>
      if cols == [] then None
      else Some(AddColOf(cols[0], after))
    case DropColumn(names) => if names == [] then None else Some(DropCol(names[0]))
    case AddIndex => Some(Nothing)
    case DropIndex(index) => Some(Statement.DropIndex(false, index))
    case DropPrimaryKey => Some(Statement.DropIndex(true, ""))
    case AddConstraint(PrimaryKey(cols)) => Some(Statement.AddIndex(true, "", cols))
    case AddConstraint(Unique(Some(name), cols)) => Some(Statement.AddIndex(false, name, cols))
    case AddConstraint(_) => None
    case ChangeColumn(def, name) => Some(ChangeCol(ColumnOf(def, def.name, def.HasNotNull()), name))
    case OtherItem => None
  }

  /** Only the first item of an ALTER counts; some cannot be written. */
  function Meaning(t: Tree): Option<Statement> {
    match t
    case Create(table, cols, keys) => Some(CreateTable(Unquote(table), CreateColumns(cols), CreateIndexs(Real(keys))))
    case Alter(items) => if items == [] then None else ItemStatement(items[0])
    case OtherTree => None
  }

  // ---------- its lines ----------

  function OptionLines(o: Option<string>): seq<string> {
    match o
    case None => ["0"]
    case Some(s) => ["1", s]
  }

  function ColumnLines(c: ColumnStatement): seq<string> {
    [c.name, c.typ, Flag(c.isNotNull)] + OptionLines(c.defaultStr)
  }

  function ColumnsLines(cs: seq<ColumnStatement>): seq<string> {
    if cs == [] then [] else ColumnLines(cs[0]) + ColumnsLines(cs[1..])
  }

  function KeyLines(k: KeyDef): seq<string> {
    OptionLines(k.name) + [Flag(k.primary), NumText(|k.columns|)] + UnquoteAll(k.columns)
  }

  function KeysLines(ks: seq<KeyDef>): seq<string> {
    if ks == [] then [] else KeyLines(ks[0]) + KeysLines(ks[1..])
  }

  function CreateLines(table: string, cols: seq<ColumnDef>, keys: seq<KeyDef>): seq<string> {
    ["CREATE", Unquote(table), NumText(|cols|)] + ColumnsLines(CreateColumns(cols))
    + [NumText(|Real(keys)|)] + KeysLines(Real(keys))
  }

  /** The lines of an ALTER's item, with a blank one at the end when a column is added after another. */
  function AlterLines(s: Statement): seq<string>
    requires !s.CreateTable?
  {
    match s
    case AddCol(col, after) =>
      ["ADDCOL"] + ColumnLines(col) + OptionLines(after) + (if after.Some? then [""] else [])
    case Nothing => ["NOTHING"]
    case DropCol(name) => ["DROPCOL", name]
    case DropIndex(primary, name) => if primary then ["DROPINDEX", "1"] else ["DROPINDEX", "0", name]
    case AddIndex(primary, name, cols) =>
      ["ADDINDEX"] + (if primary then ["1"] else ["0", name]) + [NumText(|cols|)] + cols
    case ChangeCol(col, name) => ["CHANGECOL"] + ColumnLines(col) + [name]
  }

  /** The lines of an item: none for one that is not handled; no result where writing it fails. */
  function ItemLines(i: AlterItem): Option<seq<string>> {
    if i.OtherItem? then Some([])
    else match ItemStatement(i)
      case None => None
      case Some(s) => Some(AlterLines(s))
  }

  function Written(t: Tree): Option<seq<string>> {
    match t
    case Create(table, cols, keys) => Some(CreateLines(table, cols, keys))
    case Alter(items) =>
      if items == [] then None
      else (match ItemLines(items[0]) case None => None case Some(ls) => Some(["ALTER"] + ls))
    case OtherTree => Some([])
  }

  // ---------- the writer ----------

  class LineWriter {
    var out: string
    ghost var lines: seq<string>

    ghost predicate Valid()
      reads this
    {
      out == Unlines(lines)
    }

    constructor ()
      ensures Valid() && lines == []
    {
      out, lines := "", [];
    }

    method WriteLine(s: string)
      requires Valid()
      modifies this
      ensures Valid() && lines == old(lines) + [s]
    {
      UnlinesSnoc(lines, s);
      out := out + s;
      out := out + "\n";
      lines := lines + [s];
    }

    /** The flag for a missing or present text, and the text. */
    method WriteOption(o: Option<string>)
      requires Valid()
      modifies this
      ensures Valid() && lines == old(lines) + OptionLines(o)
    {
      if o.None? {
        WriteLine("0");
      } else {
        WriteLine("1");
        WriteLine(o.value);
      }
    }

    method WriteColumn(name: string, typ: string, notNull: bool, defaultStr: Option<string>)
      requires Valid()
      modifies this
      ensures Valid() && lines == old(lines) + ColumnLines(ColumnStatement(name, typ, notNull, defaultStr))
    {
      WriteLine(name);
      WriteLine(typ);
      WriteLine(Flag(notNull));
      WriteOption(defaultStr);
    }

    method WriteKey(key: KeyDef)
      requires Valid()
      modifies this
      ensures Valid() && lines == old(lines) + KeyLines(key)
    {
      WriteOption(key.name);
      WriteLine(Flag(key.primary));
      WriteLine(NumText(|key.columns|));
      ghost var head := lines;
      for k := 0 to |key.columns|
        invariant Valid() && lines == head + UnquoteAll(key.columns[..k])
      {
        UnquoteSnoc(key.columns, k);
        WriteLine(Unquote(key.columns[k]));
      }
      assert key.columns[..|key.columns|] == key.columns;
    }
  }

  lemma {:induction false} UnquoteAppend(a: seq<string>, b: seq<string>)
    ensures UnquoteAll(a + b) == UnquoteAll(a) + UnquoteAll(b)
  {
    if a == [] {
      assert a + b == b;
    } else {
      assert (a + b)[1..] == a[1..] + b;
      UnquoteAppend(a[1..], b);
    }
  }

  lemma UnquoteSnoc(ss: seq<string>, k: nat)
    requires k < |ss|
    ensures UnquoteAll(ss[..k + 1]) == UnquoteAll(ss[..k]) + [Unquote(ss[k])]
  {
    assert ss[..k + 1] == ss[..k] + [ss[k]];
    UnquoteAppend(ss[..k], [ss[k]]);
  }

  lemma {:induction false} ColumnsAppend(a: seq<ColumnDef>, b: seq<ColumnDef>)
    ensures ColumnsLines(CreateColumns(a + b)) == ColumnsLines(CreateColumns(a)) + ColumnsLines(CreateColumns(b))
  {
    if a == [] {
      assert a + b == b;
    } else {
      assert (a + b)[1..] == a[1..] + b;
      ColumnsAppend(a[1..], b);
      assert CreateColumns(a + b)[1..] == CreateColumns(a[1..] + b);
      assert CreateColumns(a)[1..] == CreateColumns(a[1..]);
    }
  }

  lemma ColumnsSnoc(cs: seq<ColumnDef>, k: nat)
    requires k < |cs|
    ensures ColumnsLines(CreateColumns(cs[..k + 1])) ==
            ColumnsLines(CreateColumns(cs[..k])) + ColumnLines(CreateColumn(cs[k]))
  {
    assert cs[..k + 1] == cs[..k] + [cs[k]];
    ColumnsAppend(cs[..k], [cs[k]]);
    assert CreateColumns([cs[k]]) == [CreateColumn(cs[k])];
  }

  lemma {:induction false} RealAppend(a: seq<KeyDef>, b: seq<KeyDef>)
    ensures Real(a + b) == Real(a) + Real(b)
  {
    if a == [] {
      assert a + b == b;
    } else {
      assert (a + b)[1..] == a[1..] + b;
      RealAppend(a[1..], b);
    }
  }

  lemma {:induction false} KeysAppend(a: seq<KeyDef>, b: seq<KeyDef>)
    ensures KeysLines(a + b) == KeysLines(a) + KeysLines(b)
  {
    if a == [] {
      assert a + b == b;
    } else {
      assert (a + b)[1..] == a[1..] + b;
      KeysAppend(a[1..], b);
    }
  }

  lemma RealSnoc(ks: seq<KeyDef>, k: nat)
    requires k < |ks|
    ensures Real(ks[..k + 1]) == Real(ks[..k]) + RealOne(ks[k])
    ensures KeysLines(Real(ks[..k + 1])) == KeysLines(Real(ks[..k])) + KeysLines(RealOne(ks[k]))
  {
    assert ks[..k + 1] == ks[..k] + [ks[k]];
    RealAppend(ks[..k], [ks[k]]);
    KeysAppend(Real(ks[..k]), RealOne(ks[k]));
  }

  /** The key alone, if it is written. */
  function RealOne(k: KeyDef): (r: seq<KeyDef>)
    ensures r == Real([k])
    ensures KeysLines(r) == if k.typ.Some? then KeyLines(k) else []
  {
    assert KeysLines([k]) == KeyLines(k) + [] == KeyLines(k);
    if k.typ.Some? then [k] else []
  }

  method CheckIfNotNull(constraints: seq<Constraint>) returns (b: bool)
    ensures b == (NotNull in constraints)
  {
    for k := 0 to |constraints|
      invariant NotNull !in constraints[..k]
    {
      if constraints[k] == NotNull {
        return true;
      }
    }
    return false;
  }

  method WriteCreateColumn(writer: LineWriter, c: ColumnDef)
    requires writer.Valid()
    modifies writer
    ensures writer.Valid() && writer.lines == old(writer.lines) + ColumnLines(CreateColumn(c))
  {
    var notNull := CheckIfNotNull(c.constraints);
    writer.WriteColumn(Unquote(c.name), c.typ, notNull, DefaultOf(c));
  }

  method WriteColumns(writer: LineWriter, cols: seq<ColumnDef>)
    requires writer.Valid()
    modifies writer
    ensures writer.Valid() && writer.lines == old(writer.lines) + ColumnsLines(CreateColumns(cols))
  {
    ghost var start := writer.lines;
    for k := 0 to |cols|
      invariant writer.Valid() && writer.lines == start + ColumnsLines(CreateColumns(cols[..k]))
    {
      ColumnsSnoc(cols, k);
      Regroup(start, ColumnsLines(CreateColumns(cols[..k])), ColumnLines(CreateColumn(cols[k])));
      WriteCreateColumn(writer, cols[k]);
    }
    assert cols[..|cols|] == cols;
  }

  method CountReal(keys: seq<KeyDef>) returns (realKeysCount: nat)
    ensures realKeysCount == |Real(keys)|
  {
    realKeysCount := 0;
    for k := 0 to |keys|
      invariant realKeysCount == |Real(keys[..k])|
    {
      RealSnoc(keys, k);
      if keys[k].typ.Some? {
        realKeysCount := realKeysCount + 1;
      }
    }
    assert keys[..|keys|] == keys;
  }

  /** A key that has a type. */
  method WriteReal(writer: LineWriter, key: KeyDef)
    requires writer.Valid()
    modifies writer
    ensures writer.Valid() && writer.lines == old(writer.lines) + KeysLines(RealOne(key))
  {
    if key.typ.Some? {
      writer.WriteKey(key);
    }
  }

  method WriteKeys(writer: LineWriter, keys: seq<KeyDef>)
    requires writer.Valid()
    modifies writer
    ensures writer.Valid() && writer.lines == old(writer.lines) + KeysLines(Real(keys))
  {
    ghost var start := writer.lines;
    for k := 0 to |keys|
      invariant writer.Valid() && writer.lines == start + KeysLines(Real(keys[..k]))
    {
      RealSnoc(keys, k);
      Regroup(start, KeysLines(Real(keys[..k])), KeysLines(RealOne(keys[k])));
      WriteReal(writer, keys[k]);
    }
    assert keys[..|keys|] == keys;
  }

  /** Keys without a type are neither counted nor written. */
  method DealCreateTable(writer: LineWriter, table: string, cols: seq<ColumnDef>, keys: seq<KeyDef>)
    requires writer.Valid()
    modifies writer
    ensures writer.Valid() && writer.lines == old(writer.lines) + CreateLines(table, cols, keys)
  {
    ghost var start := writer.lines;
    writer.WriteLine("CREATE");
    writer.WriteLine(Unquote(table));
    writer.WriteLine(NumText(|cols|));
    ghost var head := ["CREATE", Unquote(table), NumText(|cols|)];
    assert writer.lines == start + head;
    WriteColumns(writer, cols);
    var realKeysCount := CountReal(keys);
    ghost var a, b := ColumnsLines(CreateColumns(cols)), [NumText(realKeysCount)];
    writer.WriteLine(NumText(realKeysCount));
    WriteKeys(writer, keys);
    CreateGroups(start, head, a, b, KeysLines(Real(keys)));
  }

  lemma CreateGroups(start: seq<string>, head: seq<string>, a: seq<string>, b: seq<string>, c: seq<string>)
    ensures start + head + a + b + c == start + (head + a + b + c)
  {
  }

  // ---------- ALTER ----------

  method WriteIndexColumns(writer: LineWriter, cols: seq<string>)
    requires writer.Valid()
    modifies writer
    ensures writer.Valid() && writer.lines == old(writer.lines) + [NumText(|cols|)] + cols
  {
    writer.WriteLine(NumText(|cols|));
    ghost var start := writer.lines;
    for k := 0 to |cols|
      invariant writer.Valid() && writer.lines == start + cols[..k]
    {
      writer.WriteLine(cols[k]);
    }
  }

  method WriteAddColumn(writer: LineWriter, c: ColumnDef, after: Option<string>)
    requires writer.Valid()
    modifies writer
    ensures writer.Valid() && writer.lines == old(writer.lines) + AlterLines(AddColOf(c, after))
  {
    ghost var start := writer.lines;
    writer.WriteLine("ADDCOL");
    writer.WriteColumn(c.name, c.typ, c.FirstIsNotNull(), DefaultOf(c));
    ghost var col := ColumnLines(ColumnOf(c, c.name, c.FirstIsNotNull()));
    if after.Some? {
      writer.WriteLine("1");
      writer.WriteLine(Unquote(after.value));
      writer.WriteLine("");
      IndexGroups(start, ["ADDCOL"], col, ["1", Unquote(after.value)], [""]);
    } else {
      writer.WriteLine("0");
      IndexGroups(start, ["ADDCOL"], col, ["0"], []);
    }
  }

  method WritePrimaryKey(writer: LineWriter, cols: seq<string>)
    requires writer.Valid()
    modifies writer
    ensures writer.Valid() && writer.lines == old(writer.lines) + AlterLines(Statement.AddIndex(true, "", cols))
  {
    ghost var start := writer.lines;
    writer.WriteLine("ADDINDEX");
    writer.WriteLine("1");
    WriteIndexColumns(writer, cols);
    IndexGroups(start, ["ADDINDEX"], ["1"], [NumText(|cols|)], cols);
  }

  method WriteUnique(writer: LineWriter, name: string, cols: seq<string>)
    requires writer.Valid()
    modifies writer
    ensures writer.Valid() && writer.lines == old(writer.lines) + AlterLines(Statement.AddIndex(false, name, cols))
  {
    ghost var start := writer.lines;
    writer.WriteLine("ADDINDEX");
    writer.WriteLine("0");
    writer.WriteLine(name);
    assert writer.lines == start + ["ADDINDEX"] + ["0", name];
    WriteIndexColumns(writer, cols);
    IndexGroups(start, ["ADDINDEX"], ["0", name], [NumText(|cols|)], cols);
  }

  lemma IndexGroups(start: seq<string>, a: seq<string>, b: seq<string>, c: seq<string>, d: seq<string>)
    ensures start + a + b + c + d == start + (a + b + c + d)
  {
  }

  method WriteConstraint(writer: LineWriter, constraint: TableConstraint) returns (ok: bool)
    requires writer.Valid()
    modifies writer
    ensures writer.Valid()
    ensures ok <==> ItemStatement(AddConstraint(constraint)).Some?
    ensures ok ==> writer.lines == old(writer.lines) + AlterLines(ItemStatement(AddConstraint(constraint)).value)
  {
    ok := false;
    match constraint
    case PrimaryKey(cols) =>
      WritePrimaryKey(writer, cols);
      ok := true;
    case Unique(name, cols) =>
      if name.Some? {
        WriteUnique(writer, name.value, cols);
        ok := true;
      }
    case OtherTableConstraint =>
  }

  method WriteDropColumn(writer: LineWriter, name: string)
    requires writer.Valid()
    modifies writer
    ensures writer.Valid() && writer.lines == old(writer.lines) + ["DROPCOL", name]
  {
    writer.WriteLine("DROPCOL");
    writer.WriteLine(name);
  }

  method WriteDropIndex(writer: LineWriter, name: string)
    requires writer.Valid()
    modifies writer
    ensures writer.Valid() && writer.lines == old(writer.lines) + ["DROPINDEX", "0", name]
  {
    writer.WriteLine("DROPINDEX");
    writer.WriteLine("0");
    writer.WriteLine(name);
  }

  method WriteDropPrimaryKey(writer: LineWriter)
    requires writer.Valid()
    modifies writer
    ensures writer.Valid() && writer.lines == old(writer.lines) + ["DROPINDEX", "1"]
  {
    writer.WriteLine("DROPINDEX");
    writer.WriteLine("1");
  }

  method WriteChangeColumn(writer: LineWriter, def: ColumnDef, prev: string)
    requires writer.Valid()
    modifies writer
    ensures writer.Valid()
    ensures writer.lines == old(writer.lines) + AlterLines(ChangeCol(ColumnOf(def, def.name, def.HasNotNull()), prev))
  {
    ghost var start := writer.lines;
    writer.WriteLine("CHANGECOL");
    var notNull := CheckIfNotNull(def.constraints);
    writer.WriteColumn(def.name, def.typ, notNull, DefaultOf(def));
    writer.WriteLine(prev);
    IndexGroups(start, ["CHANGECOL"], ColumnLines(ColumnOf(def, def.name, notNull)), [prev], []);
  }

  /** False where an exception ends the writing. */
  method DealItem(writer: LineWriter, item: AlterItem) returns (ok: bool)
    requires writer.Valid()
    modifies writer
    ensures writer.Valid()
    ensures ok <==> ItemLines(item).Some?
    ensures ok ==> writer.lines == old(writer.lines) + ItemLines(item).value
  {
    ok := true;
    match item
    case AddColumn(cols, after, _) =>
      if cols == [] {
        ok := false;
      } else {
        WriteAddColumn(writer, cols[0], after);
      }
    case DropColumn(names) =>
      if names == [] {
        ok := false;
      } else {
        WriteDropColumn(writer, names[0]);
      }
    case AddIndex =>
      writer.WriteLine("NOTHING");
    case DropIndex(index) =>
      WriteDropIndex(writer, index);
    case DropPrimaryKey =>
      WriteDropPrimaryKey(writer);
    case AddConstraint(constraint) =>
      ok := WriteConstraint(writer, constraint);
    case ChangeColumn(def, prev) =>
      WriteChangeColumn(writer, def, prev);
    case OtherItem =>
  }

  method DealAlterTable(writer: LineWriter, items: seq<AlterItem>) returns (ok: bool)
    requires writer.Valid()
    modifies writer
    ensures writer.Valid()
    ensures ok <==> Written(Alter(items)).Some?
    ensures ok ==> writer.lines == old(writer.lines) + Written(Alter(items)).value
  {
    ghost var start := writer.lines;
    writer.WriteLine("ALTER");
    if items == [] {
      return false;
    }
    ok := DealItem(writer, items[0]);
    if ok {
      Regroup(start, ["ALTER"], ItemLines(items[0]).value);
    }
  }

  /** The text of a .ddl file, if no exception ends the writing. */
  method WriteDdlCompat(t: Tree) returns (text: Option<string>)
    ensures text.Some? <==> Written(t).Some?
    ensures text.Some? ==> text.value == Unlines(Written(t).value)
  {
    var writer := new LineWriter();
    var ok := true;
    match t {
      case Create(table, cols, keys) =>
        DealCreateTable(writer, table, cols, keys);
        assert writer.lines == CreateLines(table, cols, keys);
      case Alter(items) =>
        ok := DealAlterTable(writer, items);
        assert ok ==> writer.lines == Written(t).value;
      case OtherTree =>
    }
    text := if ok then Some(writer.out) else None;
  }
}
