/**
 Quoted names. CREATE writes column names and key columns without their quotes; of the items of an ALTER only AFTER
 does. Here it is decided for every item when that makes a difference to what the statement does to a table.
 */
module DdlQuotes {
  import opened Text
  import opened Merge
  import opened MergeTheorems
  import opened Schema
  import opened Statements
  import opened SchemaTheorems
  import opened Ddl
  import opened DdlRoundTrip

  predicate Quoted(name: string) {
    '`' in name
  }

  /** The statement with the quotes stripped from every name. */
  function Stripped(s: Statement): Statement {
    match s
    case CreateTable(_, _, _) => s
    case AddCol(col, after) =>
      AddCol(col.(name := Unquote(col.name)), if after.Some? then Some(Unquote(after.value)) else None)
    case Nothing => Nothing
    case DropCol(name) => DropCol(Unquote(name))
    case DropIndex(primary, name) => Statement.DropIndex(primary, Unquote(name))
    case AddIndex(primary, name, keys) => Statement.AddIndex(primary, Unquote(name), UnquoteAll(keys))
    case ChangeCol(col, prev) => ChangeCol(col.(name := Unquote(col.name)), Unquote(prev))
  }

  // ---------- names ----------

  lemma {:induction false} UnquoteChanges(s: string)
    ensures Unquote(s) == s <==> !Quoted(s)
    ensures Unquote(Unquote(s)) == Unquote(s)
  {
    UnquoteFree(s);
    UnquoteFree(Unquote(s));
  }

  lemma {:induction false} UnquoteAllAt(ss: seq<string>)
    ensures |UnquoteAll(ss)| == |ss| && forall i :: 0 <= i < |ss| ==> UnquoteAll(ss)[i] == Unquote(ss[i])
  {
    if ss != [] {
      UnquoteAllAt(ss[1..]);
    }
  }

  // ---------- removing one of two things ----------

  lemma {:induction false} AllEqual<T>(s: seq<T>, i: nat, j: nat)
    requires i <= j < |s| && forall k :: i <= k < j ==> s[k] == s[k + 1]
    ensures s[i] == s[j]
    decreases j - i
  {
    if i < j {
      AllEqual(s, i + 1, j);
    }
  }

  lemma RemoveDiffers<T>(s: seq<T>, i: nat, j: nat)
    requires i < j < |s| && s[i] != s[j]
    ensures RemoveAt(s, i) != RemoveAt(s, j)
  {
    if RemoveAt(s, i) == RemoveAt(s, j) {
      forall k | i <= k < j
        ensures s[k] == s[k + 1]
      {
        assert RemoveAt(s, i)[k] == s[k + 1] && RemoveAt(s, j)[k] == s[k];
      }
      AllEqual(s, i, j);
    }
  }

  // ---------- DROP COLUMN ----------

  /** No column has the name, with or without its quotes. */
  predicate NoColumn(t: Table, name: string) {
    FindCol(t.cols, name).None? && FindCol(t.cols, Unquote(name)).None?
  }

  lemma DropColumnCols(t: Table, name: string)
    requires Fits(t, DropCol(name))
    ensures match FindCol(t.cols, name)
            case None => Schema.DropColumn(t, name).Err?
            case Some(p) =>
              && Schema.DropColumn(t, name).Ok?
              && Schema.DropColumn(t, name).value.cols == RemoveAt(t.cols, p)
  {
  }

  lemma DropColHarmless(t: Table, name: string)
    requires Fits(t, DropCol(name)) && Fits(t, DropCol(Unquote(name)))
    ensures Fill(t, DropCol(name)) == Fill(t, DropCol(Unquote(name))) <==> !Quoted(name) || NoColumn(t, name)
  {
    UnquoteChanges(name);
    DropColumnCols(t, name);
    DropColumnCols(t, Unquote(name));
    var p, q := FindCol(t.cols, name), FindCol(t.cols, Unquote(name));
    if Quoted(name) && p.Some? && q.Some? {
      assert t.cols[p.value].name != t.cols[q.value].name;
      if p.value < q.value {
        RemoveDiffers(t.cols, p.value, q.value);
      } else {
        RemoveDiffers(t.cols, q.value, p.value);
      }
    }
  }

  // ---------- ADD COLUMN ----------

  lemma AddColCols(t: Table, c: Column, after: Option<string>)
    requires HasUpd(t)
    ensures match (if after.None? then Some(|t.cols|) else
                   match FindCol(t.cols, after.value) case None => None case Some(i) => Some(i + 1))
            case None => Schema.AddColumn(t, c, after) == Err("Can not find col to insert!")
            case Some(p) =>
              && Schema.AddColumn(t, c, after).Ok?
              && Schema.AddColumn(t, c, after).value.cols == InsertAt(t.cols, p, c)
  {
  }

  lemma AddColHarmless(t: Table, col: ColumnStatement, after: Option<string>)
    requires HasUpd(t) && (after.Some? ==> !Quoted(after.value))
    ensures Fill(t, AddCol(col, after)) == Fill(t, Stripped(AddCol(col, after)))
            <==> !Quoted(col.name) || (after.Some? && FindCol(t.cols, after.value).None?)
  {
    UnquoteChanges(col.name);
    if after.Some? {
      UnquoteChanges(after.value);
    }
    var c, d := col.Column(), col.(name := Unquote(col.name)).Column();
    AddColCols(t, c, after);
    AddColCols(t, d, after);
    if after.None? || FindCol(t.cols, after.value).Some? {
      var p: nat := PlaceAfter(t.cols, after).value;
      InsertDiffers(t.cols, p, c, d);
    }
  }

  lemma InsertDiffers<T>(s: seq<T>, p: nat, x: T, y: T)
    requires p <= |s|
    ensures InsertAt(s, p, x) == InsertAt(s, p, y) <==> x == y
  {
    assert InsertAt(s, p, x)[p] == x && InsertAt(s, p, y)[p] == y;
  }

  // ---------- DROP INDEX ----------

  predicate NoIndex(t: Table, name: string) {
    FindIndex(false, false, name, t.indexs).None? && FindIndex(false, false, Unquote(name), t.indexs).None?
  }

  /** The table's only key is the temporary one, which is dropped only to be made again. */
  predicate OnlyTemporary(t: Table)
    requires HasUpd(t)
  {
    t.indexs == [TempIndex(t)]
  }

  lemma DropTemporary(t: Table, name: string)
    requires WellFormed(t) && HasUpd(t) && OnlyTemporary(t)
    ensures DropUniqueIndex(t, false, false, name) == t
  {
    match FindIndex(false, false, name, t.indexs)
    case None =>
    case Some(k) =>
      ReindexKeepsAll(t.RuleOf(TempIndex(t)), t.slots);
      assert RemoveAt(t.indexs, k) == [] && [] + [TempIndex(t)] == t.indexs;
  }

  /** What is left of the keys. */
  lemma DropIndexKeys(t: Table, name: string)
    requires HasUpd(t)
    ensures var r := DropUniqueIndex(t, false, false, name);
            match FindIndex(false, false, name, t.indexs)
            case None => r == t
            case Some(k) => r.indexs == if |t.indexs| == 1 then [TempIndex(t)] else RemoveAt(t.indexs, k)
  {
    match FindIndex(false, false, name, t.indexs)
    case None =>
    case Some(k) =>
      if |t.indexs| == 1 {
        assert RemoveAt(t.indexs, k) == [] && [] + [TempIndex(t)] == [TempIndex(t)];
      }
  }

  lemma DropIndexHarmless(t: Table, name: string)
    requires WellFormed(t) && HasUpd(t)
    ensures DropUniqueIndex(t, false, false, name) == DropUniqueIndex(t, false, false, Unquote(name))
            <==> !Quoted(name) || OnlyTemporary(t) || NoIndex(t, name)
  {
    UnquoteChanges(name);
    if OnlyTemporary(t) {
      DropTemporary(t, name);
      DropTemporary(t, Unquote(name));
    } else if Quoted(name) && !NoIndex(t, name) {
      DropIndexKeys(t, name);
      DropIndexKeys(t, Unquote(name));
      DropIndexDiffers(t, name, Unquote(name));
    }
  }

  lemma DropIndexDiffers(t: Table, a: string, b: string)
    requires HasUpd(t) && a != b && !OnlyTemporary(t)
    requires FindIndex(false, false, a, t.indexs).Some? || FindIndex(false, false, b, t.indexs).Some?
    ensures DropUniqueIndex(t, false, false, a).indexs != DropUniqueIndex(t, false, false, b).indexs
  {
    DropIndexKeys(t, a);
    DropIndexKeys(t, b);
    var j, k := FindIndex(false, false, a, t.indexs), FindIndex(false, false, b, t.indexs);
    if j.Some? && k.Some? {
      assert t.indexs[j.value].name != t.indexs[k.value].name;
      if j.value < k.value {
        RemoveDiffers(t.indexs, j.value, k.value);
      } else {
        RemoveDiffers(t.indexs, k.value, j.value);
      }
    }
  }

  // ---------- ADD PRIMARY KEY and ADD UNIQUE ----------

  predicate AllKnown(t: Table, keys: seq<string>) {
    forall i :: 0 <= i < |keys| ==> FindCol(t.cols, keys[i]).Some?
  }

  predicate NoneQuoted(keys: seq<string>) {
    forall i :: 0 <= i < |keys| ==> !Quoted(keys[i])
  }

  lemma {:induction false} FindAllKnown(t: Table, keys: seq<string>)
    ensures FindAll(t.cols, keys).Some? <==> AllKnown(t, keys)
    decreases |keys|
  {
    if keys != [] {
      var front := keys[..|keys| - 1];
      FindAllKnown(t, front);
      assert forall i :: 0 <= i < |front| ==> front[i] == keys[i];
    }
  }

  predicate QuoteFree(t: Table) {
    forall i :: 0 <= i < |t.cols| ==> !Quoted(t.cols[i].name)
  }

  /**
   Where the key columns are known without their quotes, the statement as it is written can be carried out exactly
   when they are known as they are written; in a table without quoted columns, when none of them is quoted. Otherwise
   the code looks for a column that is not there, and uses what it has not found.
   */
  lemma QuotedKeys(t: Table, keys: seq<string>)
    requires KeysKnown(t, UnquoteAll(keys))
    ensures KeysKnown(t, keys) <==> AllKnown(t, keys)
    ensures QuoteFree(t) ==> (KeysKnown(t, keys) <==> NoneQuoted(keys))
  {
    UnquoteAllAt(keys);
    FindAllKnown(t, keys);
    FindAllKnown(t, UnquoteAll(keys));
    forall i, j | 0 <= i < j < |keys|
      ensures keys[i] != keys[j]
    {
      assert UnquoteAll(keys)[i] != UnquoteAll(keys)[j];
    }
    forall i | 0 <= i < |keys| && !Quoted(keys[i])
      ensures FindCol(t.cols, keys[i]).Some?
    {
      UnquoteChanges(keys[i]);
      assert FindCol(t.cols, UnquoteAll(keys)[i]).Some?;
    }
    if QuoteFree(t) && AllKnown(t, keys) {
      forall i | 0 <= i < |keys|
        ensures !Quoted(keys[i])
      {
        assert FindCol(t.cols, keys[i]).Some?;
      }
    }
  }

  lemma SamePosition(t: Table, keys: seq<string>, i: nat)
    requires i < |keys| && FindAll(t.cols, keys).Some? && FindAll(t.cols, UnquoteAll(keys)).Some?
    ensures |FindAll(t.cols, keys).value| == |FindAll(t.cols, UnquoteAll(keys)).value| == |keys|
    ensures FindAll(t.cols, keys).value[i] == FindAll(t.cols, UnquoteAll(keys)).value[i] <==> !Quoted(keys[i])
  {
    UnquoteAllAt(keys);
    FindAllLength(t.cols, keys);
    FindAllLength(t.cols, UnquoteAll(keys));
    FindAllAt(t.cols, keys, i);
    FindAllAt(t.cols, UnquoteAll(keys), i);
    UnquoteChanges(keys[i]);
  }

  lemma SamePositions(t: Table, keys: seq<string>)
    requires FindAll(t.cols, keys).Some? && FindAll(t.cols, UnquoteAll(keys)).Some?
    ensures FindAll(t.cols, keys).value == FindAll(t.cols, UnquoteAll(keys)).value <==> NoneQuoted(keys)
  {
    UnquoteAllAt(keys);
    FindAllLength(t.cols, keys);
    FindAllLength(t.cols, UnquoteAll(keys));
    var a, b := FindAll(t.cols, keys).value, FindAll(t.cols, UnquoteAll(keys)).value;
    forall i | 0 <= i < |keys|
      ensures a[i] == b[i] <==> !Quoted(keys[i])
    {
      SamePosition(t, keys, i);
    }
    if NoneQuoted(keys) {
      assert a == b;
    }
  }

  lemma AddIndexHarmless(t: Table, primary: bool, name: string, keys: seq<string>)
    requires Fits(t, Statement.AddIndex(primary, name, keys))
    requires Fits(t, Stripped(Statement.AddIndex(primary, name, keys)))
    ensures var s := Statement.AddIndex(primary, name, keys);
            Fill(t, s) == Fill(t, Stripped(s)) <==>
              !TakesKey(t) || ((primary || !Quoted(name)) && NoneQuoted(keys))
  {
    UnquoteChanges(name);
    if TakesKey(t) {
      FindAllKnown(t, keys);
      FindAllKnown(t, UnquoteAll(keys));
      SamePositions(t, keys);
      var s := Statement.AddIndex(primary, name, keys);
      assert Fill(t, s).value.indexs[0].name == if primary then "" else name;
      assert Fill(t, Stripped(s)).value.indexs[0].name == if primary then "" else Unquote(name);
      assert Fill(t, s).value.indexs[0].cols == FindAll(t.cols, keys).value;
      assert Fill(t, Stripped(s)).value.indexs[0].cols == FindAll(t.cols, UnquoteAll(keys)).value;
    }
  }

  // ---------- CHANGE COLUMN ----------

  function Changed(c: Column, name: string, def: Option<string>): Column {
    c.(name := name, def := def)
  }

  /** Both columns exist and the statement would leave either as it is. */
  predicate ChangesNothing(t: Table, col: ColumnStatement, prev: string) {
    && col.name == prev && FindCol(t.cols, prev).Some? && FindCol(t.cols, Unquote(prev)).Some?
    && t.cols[FindCol(t.cols, prev).value].def == col.defaultStr
    && t.cols[FindCol(t.cols, Unquote(prev)).value].def == col.defaultStr
  }

  lemma ChangeColHarmless(t: Table, col: ColumnStatement, prev: string)
    requires HasUpd(t)
    ensures Fill(t, ChangeCol(col, prev)) == Fill(t, Stripped(ChangeCol(col, prev))) <==>
              NoColumn(t, prev) || (!Quoted(prev) && !Quoted(col.name)) || ChangesNothing(t, col, prev)
  {
    UnquoteChanges(prev);
    UnquoteChanges(col.name);
    var p, q := FindCol(t.cols, prev), FindCol(t.cols, Unquote(prev));
    if p.Some? && q.Some? {
      var a := t.cols[p.value := Changed(t.cols[p.value], col.name, col.defaultStr)];
      var b := t.cols[q.value := Changed(t.cols[q.value], Unquote(col.name), col.defaultStr)];
      assert Fill(t, ChangeCol(col, prev)) == Ok(t.(cols := a));
      assert Fill(t, Stripped(ChangeCol(col, prev))) == Ok(t.(cols := b));
      assert a[p.value] == Changed(t.cols[p.value], col.name, col.defaultStr);
      assert b[q.value] == Changed(t.cols[q.value], Unquote(col.name), col.defaultStr);
      if p.value != q.value {
        assert a[q.value] == t.cols[q.value] && b[p.value] == t.cols[p.value];
        if ChangesNothing(t, col, prev) {
          assert a == t.cols && b == t.cols;
        }
      }
    }
  }

  // ---------- every statement ----------

  /** Quotes in the statement make no difference. */
  predicate Harmless(t: Table, s: Statement)
    requires HasUpd(t)
  {
    match s
    case CreateTable(_, _, _) => true
    case AddCol(col, after) => !Quoted(col.name) || (after.Some? && FindCol(t.cols, after.value).None?)
    case Nothing => true
    case DropCol(name) => !Quoted(name) || NoColumn(t, name)
    case DropIndex(primary, name) => primary || !Quoted(name) || OnlyTemporary(t) || NoIndex(t, name)
    case AddIndex(primary, name, keys) =>
      !TakesKey(t) || ((primary || !Quoted(name)) && NoneQuoted(keys))
    case ChangeCol(col, prev) =>
      NoColumn(t, prev) || (!Quoted(prev) && !Quoted(col.name)) || ChangesNothing(t, col, prev)
  }

  /**
   What an item of an ALTER does to a table, as it is written and with the quotes of all names stripped: the same
   outcome exactly when the statement is harmless to that table.
   */
  lemma ExactlyHarmless(t: Table, item: AlterItem)
    requires WellFormed(t) && HasUpd(t) && Meaning(Alter([item])).Some?
    requires var s := Meaning(Alter([item])).value; Fits(t, s) && Fits(t, Stripped(s))
    ensures var s := Meaning(Alter([item])).value; Fill(t, s) == Fill(t, Stripped(s)) <==> Harmless(t, s)
  {
    var s := Meaning(Alter([item])).value;
    match s
    case CreateTable(_, _, _) =>
    case AddCol(col, after) =>
      if after.Some? {
        UnquoteFree(item.after.value);
      }
      AddColHarmless(t, col, after);
    case Nothing =>
    case DropCol(name) => DropColHarmless(t, name);
    case DropIndex(primary, name) =>
      if !primary {
        DropIndexHarmless(t, name);
      }
    case AddIndex(primary, name, keys) => AddIndexHarmless(t, primary, name, keys);
    case ChangeCol(col, prev) => ChangeColHarmless(t, col, prev);
  }

  // ---------- quotes that CREATE has stripped ----------

  lemma {:induction false} FilledColumns(t: Table, cols: seq<ColumnStatement>)
    requires t.indexs == []
    ensures FillColumns(t, cols).cols == t.cols + ColumnsOf(cols)
    decreases |cols|
  {
    if cols == [] {
      assert t.cols + [] == t.cols;
    } else {
      FilledColumns(t, cols[..|cols| - 1]);
    }
  }

  function ColumnsOf(cols: seq<ColumnStatement>): (cs: seq<Column>)
    ensures |cs| == |cols| && forall i :: 0 <= i < |cols| ==> cs[i] == cols[i].Column()
  {
    seq(|cols|, i requires 0 <= i < |cols| => cols[i].Column())
  }

  /** A table that CREATE has made has no quoted column, so a column or a key can only be addressed without quotes. */
  lemma CreatedQuoteFree(t: Table, name: string, cols: seq<ColumnDef>, keys: seq<KeyDef>)
    requires var s := Meaning(Create(name, cols, keys)).value; Fits(t, s)
    ensures QuoteFree(Fill(t, Meaning(Create(name, cols, keys)).value).value)
  {
    FilledColumns(t, CreateColumns(cols));
    CreateColumnsLength(cols);
    forall i | 0 <= i < |cols|
      ensures !Quoted(CreateColumns(cols)[i].name)
    {
      CreatedUnquoted(cols, i);
    }
  }

  /** Then dropping or changing a column by a quoted name fails, and adding one leaves it with its quotes. */
  lemma QuotedFails(t: Table, name: string, col: ColumnStatement)
    requires QuoteFree(t) && Quoted(name) && HasUpd(t)
    ensures FindCol(t.cols, name).None? && Fill(t, ChangeCol(col, name)).Err?
    ensures Fits(t, DropCol(name)) ==> Fill(t, DropCol(name)).Err?
  {
  }

  /**
   A column that was added by a quoted name can be dropped by that name. AFTER strips the quotes, and finds a column
   only if another one has the name without them.
   */
  lemma AddedQuoted(t: Table, col: ColumnStatement, next: ColumnStatement)
    requires HasUpd(t) && Quoted(col.name) && col.name != UPDATED_AT
    ensures var t1 := Fill(t, AddCol(col, None)).value;
            && FindCol(t1.cols, col.name).Some?
            && (Fill(t1, AddCol(next, Some(Unquote(col.name)))).Ok? <==> FindCol(t.cols, Unquote(col.name)).Some?)
  {
    var t1 := Fill(t, AddCol(col, None)).value;
    UnquoteChanges(col.name);
    AddColCols(t, col.Column(), None);
    assert t1.cols == t.cols + [col.Column()];
    assert t1.cols[|t.cols|].name == col.name;
    AddColCols(t1, next.Column(), Some(Unquote(col.name)));
    if FindCol(t.cols, Unquote(col.name)).Some? {
      var p := FindCol(t.cols, Unquote(col.name)).value;
      assert t1.cols[p].name == Unquote(col.name);
    }
    if FindCol(t1.cols, Unquote(col.name)).Some? {
      var p := FindCol(t1.cols, Unquote(col.name)).value;
      assert p < |t.cols| && t.cols[p] == t1.cols[p];
    }
  }

  function ExampleTable(hash: seq<string> -> int): Table {
    var t := Table(hash, [Column("id", "int", None), Column("updated_at", "int", None)], Some(1), [], []);
    t.(indexs := [TempIndex(t)])
  }

  function DropItem(name: string): Statement {
    Meaning(Alter([AlterItem.DropColumn([name])])).value
  }

  /** A table with a column id: it can be dropped as id, and not as `id`. */
  lemma QuotedExample(hash: seq<string> -> int)
    ensures var t := ExampleTable(hash);
            && Fits(t, DropItem("`id`")) && Fill(t, DropItem("`id`")).Err?
            && Fits(t, DropItem("id")) && Fill(t, DropItem("id")).Ok?
  {
    var t := ExampleTable(hash);
    assert t.cols[0].name == "id" && t.cols[1].name == "updated_at";
    assert "`id`"[0] == '`' && Quoted("`id`");
    QuotedFails(t, "`id`", ColumnStatement("", "", false, None));
    assert FindCol(t.cols, "id") == Some(0);
  }
}
