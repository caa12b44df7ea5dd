/** The line reader undoes the line writer. */
module DdlRoundTrip {
  import opened Decimal
  import opened Lines
  import opened Text
  import opened Schema
  import opened Statements
  import opened Ddl
  import opened DdlReader
  import opened LineReader

  lemma LexNumber(n: nat)
    requires n < INT_LIMIT
    ensures LexInt(NumText(n)) == Some(n)
  {
    DigitsOf(n);
  }

  lemma LexFlag(b: bool)
    ensures LexInt(Flag(b)) == Some(if b then 1 else 0)
  {
    LexNumber(0);
    LexNumber(1);
    assert NumText(0) == "0" && NumText(1) == "1";
  }

  lemma Front(l: string, ls: seq<string>)
    ensures Head([l] + ls) == l && Tail([l] + ls) == ls
  {
  }

  lemma ReadFlag(b: bool, ls: seq<string>)
    ensures ReadInt([Flag(b)] + ls) == Got(if b then 1 else 0, ls)
  {
    LexFlag(b);
    Front(Flag(b), ls);
  }

  lemma ReadNumber(n: nat, ls: seq<string>)
    requires n < INT_LIMIT
    ensures ReadInt([NumText(n)] + ls) == Got(n, ls)
  {
    LexNumber(n);
    Front(NumText(n), ls);
  }

  // ---------- columns ----------

  lemma ReadColumnOf(c: ColumnStatement, rest: seq<string>)
    ensures ReadColumn(ColumnLines(c) + rest) == Got(c, rest)
  {
    var l2 := OptionLines(c.defaultStr) + rest;
    var l1 := [Flag(c.isNotNull)] + l2;
    assert ColumnLines(c) + rest == [c.name] + ([c.typ] + l1);
    Front(c.name, [c.typ] + l1);
    Front(c.typ, l1);
    ReadFlag(c.isNotNull, l2);
    ReadOption(c.defaultStr, rest);
  }

  lemma ReadOption(o: Option<string>, rest: seq<string>)
    ensures ReadInt(OptionLines(o) + rest).Got?
    ensures o.None? ==> ReadInt(OptionLines(o) + rest) == Got(0, rest)
    ensures o.Some? ==> ReadInt(OptionLines(o) + rest) == Got(1, [o.value] + rest)
    ensures o.Some? ==> Head([o.value] + rest) == o.value && Tail([o.value] + rest) == rest
  {
    if o.None? {
      ReadFlag(false, rest);
    } else {
      assert OptionLines(o) + rest == [Flag(true)] + ([o.value] + rest);
      ReadFlag(true, [o.value] + rest);
    }
  }

  lemma ReadColumnsOnce(acc: seq<ColumnStatement>, n: nat, c: ColumnStatement, more: seq<string>)
    requires n > 0
    ensures ReadColumns(acc, n, ColumnLines(c) + more) == ReadColumns(acc + [c], n - 1, more)
  {
    ReadColumnOf(c, more);
  }

  predicate ReadsTo(acc: seq<ColumnStatement>, n: nat, ls: seq<string>, all: seq<ColumnStatement>, rest: seq<string>) {
    ReadColumns(acc, n, ls) == Got(all, rest)
  }

  lemma ReadColumnsJoin(acc: seq<ColumnStatement>, n: nat, c: ColumnStatement, lines: seq<string>,
                        tail: seq<ColumnStatement>, rest: seq<string>)
    requires ReadsTo(acc + [c], n, lines + rest, acc + [c] + tail, rest)
    ensures ReadsTo(acc, n + 1, ColumnLines(c) + lines + rest, acc + ([c] + tail), rest)
  {
    Regroup(ColumnLines(c), lines, rest);
    ReadColumnsOnce(acc, n + 1, c, lines + rest);
    Regroup(acc, [c], tail);
  }

  lemma {:induction false} ReadColumnsOf(acc: seq<ColumnStatement>, cs: seq<ColumnStatement>, rest: seq<string>)
    ensures ReadsTo(acc, |cs|, ColumnsLines(cs) + rest, acc + cs, rest)
    decreases |cs|
  {
    if cs == [] {
      ReadColumnsNone(acc, cs, rest);
    } else {
      ReadColumnsOf(acc + [cs[0]], cs[1..], rest);
      ReadColumnsCons(acc, cs, rest);
    }
  }

  lemma ReadColumnsNone(acc: seq<ColumnStatement>, cs: seq<ColumnStatement>, rest: seq<string>)
    requires cs == []
    ensures ReadsTo(acc, |cs|, ColumnsLines(cs) + rest, acc + cs, rest)
  {
    EmptyRight(acc);
    EmptyRight(rest);
  }

  lemma ReadColumnsCons(acc: seq<ColumnStatement>, cs: seq<ColumnStatement>, rest: seq<string>)
    requires cs != []
    requires ReadsTo(acc + [cs[0]], |cs[1..]|, ColumnsLines(cs[1..]) + rest, acc + [cs[0]] + cs[1..], rest)
    ensures ReadsTo(acc, |cs|, ColumnsLines(cs) + rest, acc + cs, rest)
  {
    ReadColumnsJoin(acc, |cs[1..]|, cs[0], ColumnsLines(cs[1..]), cs[1..], rest);
    ColumnsLinesCons(cs);
  }

  lemma ColumnsLinesCons(cs: seq<ColumnStatement>)
    requires cs != []
    ensures ColumnsLines(cs) == ColumnLines(cs[0]) + ColumnsLines(cs[1..])
    ensures [cs[0]] + cs[1..] == cs && |cs[1..]| + 1 == |cs|
  {
  }

  // ---------- keys ----------

  lemma {:induction false} ReadNamesOf(names: seq<string>, rest: seq<string>)
    ensures ReadNames(|names|, names + rest) == (names, rest)
  {
    if names == [] {
      assert names + rest == rest;
    } else {
      assert names + rest == [names[0]] + (names[1..] + rest);
      Front(names[0], names[1..] + rest);
      ReadNamesOf(names[1..], rest);
      assert [names[0]] + names[1..] == names;
    }
  }

  lemma {:induction false} UnquoteLength(ss: seq<string>)
    ensures |UnquoteAll(ss)| == |ss|
  {
    if ss != [] {
      UnquoteLength(ss[1..]);
    }
  }

  lemma ReadNameOf(o: Option<string>, rest: seq<string>)
    ensures ReadName(OptionLines(o) + rest) == Got(if o.Some? then o.value else "", rest)
  {
    ReadOption(o, rest);
  }

  lemma ReadIndexOf(k: KeyDef, rest: seq<string>)
    requires |k.columns| < INT_LIMIT
    ensures ReadIndex(KeyLines(k) + rest) == Got(CreateIndex(k), rest)
  {
    var names := UnquoteAll(k.columns);
    UnquoteLength(k.columns);
    var l2 := [NumText(|k.columns|)] + (names + rest);
    var l1 := [Flag(k.primary)] + l2;
    assert KeyLines(k) + rest == OptionLines(k.name) + l1;
    ReadNameOf(k.name, l1);
    ReadFlag(k.primary, l2);
    ReadNumber(|k.columns|, names + rest);
    ReadNamesOf(names, rest);
  }

  predicate KeysFit(ks: seq<KeyDef>) {
    forall i :: 0 <= i < |ks| ==> |ks[i].columns| < INT_LIMIT
  }

  lemma {:induction false} ReadIndexsOf(acc: seq<IndexStatement>, ks: seq<KeyDef>, rest: seq<string>)
    requires KeysFit(ks)
    ensures ReadIndexs(acc, |ks|, KeysLines(ks) + rest) == Got(acc + CreateIndexs(ks), rest)
    decreases |ks|
  {
    if ks == [] {
      EmptyRight(acc);
      EmptyRight(rest);
    } else {
      Regroup(KeyLines(ks[0]), KeysLines(ks[1..]), rest);
      ReadIndexOf(ks[0], KeysLines(ks[1..]) + rest);
      ReadIndexsOf(acc + [CreateIndex(ks[0])], ks[1..], rest);
      Regroup(acc, [CreateIndex(ks[0])], CreateIndexs(ks[1..]));
    }
  }

  lemma {:induction false} RealFits(ks: seq<KeyDef>)
    requires KeysFit(ks)
    ensures KeysFit(Real(ks)) && |Real(ks)| <= |ks|
  {
    if ks != [] {
      RealFits(ks[1..]);
    }
  }

  // ---------- statements ----------

  /** Every count that is written is a Java int. */
  predicate CountsFit(t: Tree) {
    match t
    case Create(_, cols, keys) => |cols| < INT_LIMIT && |keys| < INT_LIMIT && KeysFit(keys)
    case Alter(items) =>
      items != [] && items[0].AddConstraint? && !items[0].constraint.OtherTableConstraint? ==>
        |items[0].constraint.columns| < INT_LIMIT
    case OtherTree => true
  }

  lemma {:induction false} CreateColumnsLength(cs: seq<ColumnDef>)
    ensures |CreateColumns(cs)| == |cs|
  {
    if cs != [] {
      CreateColumnsLength(cs[1..]);
    }
  }

  lemma CreateGroups(table: string, count: string, cols: seq<string>, keyCount: string, keys: seq<string>)
    ensures ["CREATE", table, count] + cols + [keyCount] + keys
         == ["CREATE"] + ([table] + ([count] + (cols + ([keyCount] + keys))))
  {
  }

  lemma ReadIndexPart(keys: seq<KeyDef>)
    requires KeysFit(keys) && |keys| < INT_LIMIT
    ensures var ls := [NumText(|keys|)] + KeysLines(keys);
      ReadInt(ls) == Got(|keys|, KeysLines(keys)) &&
        ReadIndexs([], |keys|, KeysLines(keys)) == Got(CreateIndexs(keys), [])
  {
    ReadNumber(|keys|, KeysLines(keys));
    ReadIndexsOf([], keys, []);
    EmptyRight(KeysLines(keys));
    EmptyRight(CreateIndexs(keys));
  }

  lemma ReadCreateOf(table: string, cols: seq<ColumnDef>, keys: seq<KeyDef>)
    requires CountsFit(Create(table, cols, keys))
    ensures ReadStatement(CreateLines(table, cols, keys)) == Got(Meaning(Create(table, cols, keys)).value, [])
  {
    var cs, ks := CreateColumns(cols), Real(keys);
    CreateColumnsLength(cols);
    RealFits(keys);
    var l2 := [NumText(|ks|)] + KeysLines(ks);
    var l1 := ColumnsLines(cs) + l2;
    CreateGroups(Unquote(table), NumText(|cols|), ColumnsLines(cs), NumText(|ks|), KeysLines(ks));
    Front("CREATE", [Unquote(table)] + ([NumText(|cols|)] + l1));
    Front(Unquote(table), [NumText(|cols|)] + l1);
    ReadNumber(|cols|, l1);
    ReadColumnsOf([], cs, l2);
    EmptyRight(cs);
    ReadIndexPart(ks);
  }

  /** The blank line that an added column's position leaves unread. */
  function Unread(s: Statement): seq<string> {
    if s.AddCol? && s.insAfter.Some? then [""] else []
  }

  lemma ReadAddColOf(col: ColumnStatement, after: Option<string>)
    ensures ReadAddCol(ColumnLines(col) + OptionLines(after) + Unread(AddCol(col, after)))
         == Got(AddCol(col, after), Unread(AddCol(col, after)))
  {
    var blank := Unread(AddCol(col, after));
    assert ColumnLines(col) + OptionLines(after) + blank == ColumnLines(col) + (OptionLines(after) + blank);
    ReadColumnOf(col, OptionLines(after) + blank);
    ReadOption(after, blank);
  }

  lemma ReadDropIndexOf(primary: bool, name: string)
    requires primary ==> name == ""
    ensures ReadDropIndex(if primary then ["1"] else ["0", name]) == Got(Statement.DropIndex(primary, name), [])
  {
    if primary {
      ReadFlag(true, []);
    } else {
      assert ["0", name] == [Flag(false)] + [name];
      ReadFlag(false, [name]);
    }
  }

  lemma IndexGroups(primary: bool, name: string, count: string, cols: seq<string>)
    ensures (if primary then ["1"] else ["0", name]) + [count] + cols
         == [Flag(primary)] + if primary then [count] + cols else [name] + ([count] + cols)
  {
  }

  lemma ReadCounted(cols: seq<string>)
    requires |cols| < INT_LIMIT
    ensures ReadInt([NumText(|cols|)] + cols) == Got(|cols|, cols) && ReadNames(|cols|, cols) == (cols, [])
  {
    ReadNumber(|cols|, cols);
    ReadNamesOf(cols, []);
    EmptyRight(cols);
  }

  lemma ReadAddIndexOf(primary: bool, name: string, cols: seq<string>)
    requires (primary ==> name == "") && |cols| < INT_LIMIT
    ensures ReadAddIndex((if primary then ["1"] else ["0", name]) + [NumText(|cols|)] + cols)
         == Got(Statement.AddIndex(primary, name, cols), [])
  {
    var l2 := [NumText(|cols|)] + cols;
    IndexGroups(primary, name, NumText(|cols|), cols);
    ReadFlag(primary, if primary then l2 else [name] + l2);
    Front(name, l2);
    ReadCounted(cols);
  }

  lemma ReadChangeColOf(col: ColumnStatement, name: string)
    ensures ReadChangeCol(ColumnLines(col) + [name]) == Got(ChangeCol(col, name), [])
  {
    ReadColumnOf(col, [name]);
  }

  /** A statement that an item can mean. */
  predicate FromItem(s: Statement) {
    && !s.CreateTable? && (s.DropIndex? && s.isPrimary ==> s.indexName == "")
    && (s.AddIndex? ==> (s.isPrimary ==> s.indexName == "") && |s.keys| < INT_LIMIT)
  }

  /** The lines after the one that names the kind of item. */
  function ItemBody(s: Statement): seq<string>
    requires !s.CreateTable? && !s.Nothing?
  {
    match s
    case AddCol(col, after) => ColumnLines(col) + OptionLines(after) + Unread(s)
    case DropCol(name) => [name]
    case DropIndex(primary, name) => if primary then ["1"] else ["0", name]
    case AddIndex(primary, name, cols) => (if primary then ["1"] else ["0", name]) + [NumText(|cols|)] + cols
    case ChangeCol(col, name) => ColumnLines(col) + [name]
  }

  function ItemKind(s: Statement): string
    requires !s.CreateTable?
  {
    match s
    case AddCol(_, _) => "ADDCOL"
    case Nothing => "NOTHING"
    case DropCol(_) => "DROPCOL"
    case DropIndex(_, _) => "DROPINDEX"
    case AddIndex(_, _, _) => "ADDINDEX"
    case ChangeCol(_, _) => "CHANGECOL"
  }

  lemma ItemParts(s: Statement)
    requires !s.CreateTable? && !s.Nothing?
    ensures AlterLines(s) == [ItemKind(s)] + ItemBody(s)
  {
    match s
    case AddCol(col, after) => Regroup4(["ADDCOL"], ColumnLines(col), OptionLines(after), Unread(s));
    case AddIndex(primary, name, cols) =>
      Regroup4(["ADDINDEX"], if primary then ["1"] else ["0", name], [NumText(|cols|)], cols);
    case ChangeCol(col, name) => Regroup(["CHANGECOL"], ColumnLines(col), [name]);
    case DropCol(_) =>
    case DropIndex(_, _) =>
  }

  lemma Regroup4(a: seq<string>, b: seq<string>, c: seq<string>, d: seq<string>)
    ensures a + b + c + d == a + (b + c + d)
  {
    Regroup(a, b, c);
    Regroup(a, b + c, d);
  }

  lemma ReadAlterOf(s: Statement)
    requires FromItem(s)
    ensures ReadAlter(AlterLines(s)) == Got(s, Unread(s))
  {
    if !s.Nothing? {
      ItemParts(s);
      ReadBodyOf(s);
    }
  }

  lemma ReadBodyOf(s: Statement)
    requires FromItem(s) && !s.Nothing?
    ensures ReadAlter([ItemKind(s)] + ItemBody(s)) == Got(s, Unread(s))
  {
    Front(ItemKind(s), ItemBody(s));
    ReadItemOf(s);
  }

  lemma ItemReaders(ls: seq<string>)
    ensures ReadItem("ADDCOL", ls) == ReadAddCol(ls)
    ensures ReadItem("DROPCOL", ls) == Got(DropCol(Head(ls)), Tail(ls))
    ensures ReadItem("DROPINDEX", ls) == ReadDropIndex(ls)
    ensures ReadItem("ADDINDEX", ls) == ReadAddIndex(ls)
    ensures ReadItem("CHANGECOL", ls) == ReadChangeCol(ls)
  {
  }

  lemma ReadItemOf(s: Statement)
    requires FromItem(s) && !s.Nothing?
    ensures ReadItem(ItemKind(s), ItemBody(s)) == Got(s, Unread(s))
  {
    match s
    case AddCol(_, _) => ReadAddColItem(s);
    case DropCol(_) => ReadDropColItem(s);
    case DropIndex(_, _) => ReadDropIndexItem(s);
    case AddIndex(_, _, _) => ReadAddIndexItem(s);
    case ChangeCol(_, _) => ReadChangeColItem(s);
  }

  lemma ReadAddColItem(s: Statement)
    requires FromItem(s) && s.AddCol?
    ensures ReadItem(ItemKind(s), ItemBody(s)) == Got(s, Unread(s))
  {
    ItemReaders(ItemBody(s));
    ReadAddColOf(s.col, s.insAfter);
  }

  lemma ReadDropColItem(s: Statement)
    requires FromItem(s) && s.DropCol?
    ensures ReadItem(ItemKind(s), ItemBody(s)) == Got(s, Unread(s))
  {
    ItemReaders(ItemBody(s));
    assert Tail([s.colName]) == [];
  }

  lemma ReadDropIndexItem(s: Statement)
    requires FromItem(s) && s.DropIndex?
    ensures ReadItem(ItemKind(s), ItemBody(s)) == Got(s, Unread(s))
  {
    ItemReaders(ItemBody(s));
    ReadDropIndexOf(s.isPrimary, s.indexName);
  }

  lemma ReadAddIndexItem(s: Statement)
    requires FromItem(s) && s.AddIndex?
    ensures ReadItem(ItemKind(s), ItemBody(s)) == Got(s, Unread(s))
  {
    ItemReaders(ItemBody(s));
    ReadAddIndexOf(s.isPrimary, s.indexName, s.keys);
  }

  lemma ReadChangeColItem(s: Statement)
    requires FromItem(s) && s.ChangeCol?
    ensures ReadItem(ItemKind(s), ItemBody(s)) == Got(s, Unread(s))
  {
    ItemReaders(ItemBody(s));
    ReadChangeColOf(s.col, s.prevName);
  }

  lemma ReadLinesOf(t: Tree)
    requires Meaning(t).Some? && CountsFit(t)
    ensures Written(t).Some? && ReadStatement(Written(t).value) == Got(Meaning(t).value, Unread(Meaning(t).value))
  {
    match t
    case Create(table, cols, keys) => ReadCreateOf(table, cols, keys);
    case Alter(items) => ReadAlterTree(items);
  }

  lemma ReadAlterTree(items: seq<AlterItem>)
    requires Meaning(Alter(items)).Some? && CountsFit(Alter(items))
    ensures var s := Meaning(Alter(items)).value;
            && Written(Alter(items)) == Some(["ALTER"] + AlterLines(s))
            && ReadStatement(["ALTER"] + AlterLines(s)) == Got(s, Unread(s))
  {
    var s := Meaning(Alter(items)).value;
    WrittenItem(items);
    ReadAlterOf(s);
    ReadAlterLines(AlterLines(s));
  }

  lemma WrittenItem(items: seq<AlterItem>)
    requires Meaning(Alter(items)).Some?
    ensures Written(Alter(items)) == Some(["ALTER"] + AlterLines(Meaning(Alter(items)).value))
  {
  }

  lemma ReadAlterLines(ls: seq<string>)
    ensures ReadStatement(["ALTER"] + ls) == ReadAlter(ls)
  {
    Front("ALTER", ls);
  }

  predicate OnLines(ls: seq<string>) {
    forall i :: 0 <= i < |ls| ==> '\n' !in ls[i]
  }

  /**
   What is written for a statement is read as the same statement, to the last line but for the blank one after
   an added column's position, if no text in it has a line break.
   */
  lemma DdlRoundTrip(t: Tree)
    requires Meaning(t).Some? && CountsFit(t) && Written(t).Some? && OnLines(Written(t).value)
    ensures ReadStatement(Split(Unlines(Written(t).value))) == Got(Meaning(t).value, Unread(Meaning(t).value))
  {
    SplitUnlines(Written(t).value);
    ReadLinesOf(t);
  }

  /** A file is also written for statements that mean nothing here; reading it fails for those and no others. */
  lemma ReadExactly(t: Tree)
    requires CountsFit(t) && Written(t).Some? && OnLines(Written(t).value)
    ensures ReadStatement(Split(Unlines(Written(t).value))).Got? <==> Meaning(t).Some?
  {
    if Meaning(t).Some? {
      DdlRoundTrip(t);
    } else {
      UnhandledFails(t);
    }
  }

  /** Any other kind of statement or of item is refused. */
  lemma OthersFail(typ: string, ls: seq<string>)
    ensures typ != "CREATE" && typ != "ALTER" ==> ReadStatement([typ] + ls).Bad?
    ensures typ !in {"ADDCOL", "NOTHING", "DROPCOL", "DROPINDEX", "ADDINDEX", "CHANGECOL"} ==>
              ReadStatement(["ALTER"] + ([typ] + ls)).Bad?
  {
    Front(typ, ls);
    ReadAlterLines([typ] + ls);
  }

  lemma UnhandledFails(t: Tree)
    requires Meaning(t).None? && Written(t).Some?
    ensures ReadStatement(Split(Unlines(Written(t).value))).Bad?
  {
    var ls := Written(t).value;
    assert OnLines(ls);
    SplitUnlines(ls);
    if t.Alter? {
      assert ls == ["ALTER"];
      assert Tail(ls) == [];
    }
  }

  // ---------- quotes ----------

  lemma {:induction false} UnquoteFree(s: string)
    ensures '`' !in Unquote(s)
    ensures '`' !in s ==> Unquote(s) == s
  {
    if s != "" {
      UnquoteFree(s[1..]);
      assert s == [s[0]] + s[1..];
    }
  }

  lemma {:induction false} CreatedUnquoted(cs: seq<ColumnDef>, i: nat)
    requires i < |cs|
    ensures |CreateColumns(cs)| == |cs| && '`' !in CreateColumns(cs)[i].name
  {
    CreateColumnsLength(cs);
    if i == 0 {
      UnquoteFree(cs[0].name);
    } else {
      CreatedUnquoted(cs[1..], i - 1);
    }
  }
}
