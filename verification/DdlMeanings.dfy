/** What a parsed statement comes to, told by its names, types and defaults and by what they do to a table. */
module DdlMeanings {
  import opened Text
  import opened Merge
  import opened Schema
  import opened Statements
  import opened SchemaTheorems
  import opened Runs
  import opened Ddl
  import opened StatementEffects

  // ---------- texts ----------

  lemma {:induction false} RemoveStrips(s: string, c: char)
    ensures StripsTo(s, c, Remove(s, c))
  {
    if s != "" {
      RemoveStrips(s[1..], c);
      var rest := Remove(s[1..], c);
      assert "" + rest == rest && ([s[0]] + rest)[0] == s[0] && ([s[0]] + rest)[1..] == rest;
    }
  }

  lemma {:induction false} StripsOnly(s: string, c: char, t: string)
    requires StripsTo(s, c, t)
    ensures t == Remove(s, c) && (c !in s ==> t == s)
  {
    if s != "" {
      if s[0] == c {
        StripsOnly(s[1..], c, t);
      } else {
        StripsOnly(s[1..], c, t[1..]);
        assert t == [t[0]] + t[1..] && s == [s[0]] + s[1..];
      }
    }
  }

  /** The default of a column without its quotes, if it has one. */
  predicate HasDefault(c: ColumnDef, def: Option<string>) {
    match (c.def, def)
    case (None, None) => true
    case (Some(e), Some(d)) => StripsTo(e, '\'', d)
    case _ => false
  }

  lemma DefaultStrips(c: ColumnDef)
    ensures HasDefault(c, DefaultOf(c))
  {
    if c.def.Some? {
      RemoveStrips(c.def.value, '\'');
    }
  }

  lemma {:induction false} Unwrapped(d: string)
    requires '\'' !in d
    ensures Remove(d, '\'') == d
  {
    if d != "" {
      Unwrapped(d[1..]);
      assert [d[0]] + d[1..] == d;
    }
  }

  lemma {:induction false} RemoveJoins(a: string, b: string, c: char)
    ensures Remove(a + b, c) == Remove(a, c) + Remove(b, c)
  {
    if a == "" {
      assert a + b == b;
    } else {
      assert (a + b)[1..] == a[1..] + b;
      RemoveJoins(a[1..], b, c);
    }
  }

  /** A default arrives the same with and without quotes around it. */
  lemma DefaultArrives(c: ColumnDef, d: string)
    requires '\'' !in d && (c.def == Some(d) || c.def == Some("'" + d + "'"))
    ensures DefaultOf(c) == Some(d)
  {
    Unwrapped(d);
    RemoveJoins("'", d, '\'');
    RemoveJoins("'" + d, "'", '\'');
    assert "'"[1..] == "" && Remove("'", '\'') == "";
    assert "" + d == d && d + "" == d;
  }

  // ---------- CREATE ----------

  predicate ColumnMeans(c: ColumnDef, st: ColumnStatement) {
    && StripsTo(c.name, '`', st.name) && st.typ == c.typ && HasDefault(c, st.defaultStr)
    && (st.isNotNull <==> NotNull in c.constraints)
  }

  predicate KeyMeans(k: KeyDef, st: IndexStatement) {
    && st.name == (match k.name case Some(n) => n case None => "") && st.isPrimaryKey == k.primary
    && |st.keys| == |k.columns| && forall j :: 0 <= j < |k.columns| ==> StripsTo(k.columns[j], '`', st.keys[j])
  }

  /** The keys that have a type, in order. */
  predicate Typed(keys: seq<KeyDef>, picked: seq<KeyDef>) {
    if keys == [] then picked == []
    else if keys[0].typ.None? then Typed(keys[1..], picked)
    else picked != [] && picked[0] == keys[0] && Typed(keys[1..], picked[1..])
  }

  lemma {:induction false} RealTyped(keys: seq<KeyDef>)
    ensures Typed(keys, Real(keys))
  {
    if keys != [] {
      RealTyped(keys[1..]);
      var rest := Real(keys[1..]);
      assert [] + rest == rest && ([keys[0]] + rest)[1..] == rest;
    }
  }

  lemma {:induction false} ColumnsMean(cs: seq<ColumnDef>, i: nat)
    requires i < |cs|
    ensures |CreateColumns(cs)| == |cs| && ColumnMeans(cs[i], CreateColumns(cs)[i])
  {
    if i == 0 {
      RemoveStrips(cs[0].name, '`');
      DefaultStrips(cs[0]);
      if |cs| > 1 {
        ColumnsMean(cs[1..], 0);
      }
    } else {
      ColumnsMean(cs[1..], i - 1);
    }
  }

  lemma {:induction false} KeysMean(ks: seq<KeyDef>, i: nat)
    requires i < |ks|
    ensures |CreateIndexs(ks)| == |ks| && KeyMeans(ks[i], CreateIndexs(ks)[i])
  {
    if i == 0 {
      NamesStrip(ks[0].columns);
      if |ks| > 1 {
        KeysMean(ks[1..], 0);
      }
    } else {
      KeysMean(ks[1..], i - 1);
    }
  }

  lemma {:induction false} NamesStrip(ss: seq<string>)
    ensures |UnquoteAll(ss)| == |ss| && forall j :: 0 <= j < |ss| ==> StripsTo(ss[j], '`', UnquoteAll(ss)[j])
  {
    if ss != [] {
      RemoveStrips(ss[0], '`');
      NamesStrip(ss[1..]);
    }
  }

  /** CREATE: columns and keys as they are written there, quotes aside; keys without a type are left out. */
  lemma CreateMeans(table: string, cols: seq<ColumnDef>, keys: seq<KeyDef>) returns (picked: seq<KeyDef>)
    ensures Typed(keys, picked)
    ensures var m := Meaning(Create(table, cols, keys));
            && m.Some? && m.value.CreateTable? && StripsTo(table, '`', m.value.name)
            && |m.value.cols| == |cols| && |m.value.indexs| == |picked|
            && (forall i :: 0 <= i < |cols| ==> ColumnMeans(cols[i], m.value.cols[i]))
            && forall i :: 0 <= i < |picked| ==> KeyMeans(picked[i], m.value.indexs[i])
  {
    picked := Real(keys);
    RealTyped(keys);
    RemoveStrips(table, '`');
    if cols != [] {
      ColumnsMean(cols, 0);
    }
    if picked != [] {
      KeysMean(picked, 0);
    }
    forall i | 0 <= i < |cols|
      ensures ColumnMeans(cols[i], CreateColumns(cols)[i])
    {
      ColumnsMean(cols, i);
    }
    forall i | 0 <= i < |picked|
      ensures KeyMeans(picked[i], CreateIndexs(picked)[i])
    {
      KeysMean(picked, i);
    }
  }

  // ---------- ALTER ----------

  /** ADD COLUMN: one more column, named as it is written, with its default, behind the column that AFTER names. */
  lemma AlterAdds(t: Table, cols: seq<ColumnDef>, after: Option<string>, first: bool, items: seq<AlterItem>,
    d: Option<string>)
    returns (p: nat)
    requires cols != [] && HasDefault(cols[0], d) && WellFormed(t) && HasUpd(t)
    requires var m := Meaning(Alter([AlterItem.AddColumn(cols, after, first)] + items));
             m.Some? ==> Fits(t, m.value) && Fill(t, m.value).Ok?
    ensures p <= |t.cols|
    ensures var m := Meaning(Alter([AlterItem.AddColumn(cols, after, first)] + items));
            && m.Some? && m.value.AddCol? && Fits(t, m.value) && Fill(t, m.value).Ok?
            && Fill(t, m.value).value.cols ==
                 t.cols[..p] + [Schema.Column(cols[0].name, cols[0].typ, d)] + t.cols[p..]
            && (m.value.col.isNotNull <==> cols[0].constraints != [] && cols[0].constraints[0] == NotNull)
    ensures after.None? ==> p == |t.cols|
    ensures after.Some? ==> p > 0 && StripsTo(after.value, '`', t.cols[p - 1].name)
  {
    var m := Meaning(Alter([AlterItem.AddColumn(cols, after, first)] + items)).value;
    DefaultStrips(cols[0]);
    if d.Some? {
      StripsOnly(cols[0].def.value, '\'', d.value);
      StripsOnly(cols[0].def.value, '\'', DefaultOf(cols[0]).value);
    }
    p := AddedColumn(t, m.col, m.insAfter);
    if after.Some? {
      RemoveStrips(after.value, '`');
    }
  }

  /** The other kinds of items, by the statement each is written as; items after the first do not count. */
  lemma AlterMeans(item: AlterItem, items: seq<AlterItem>)
    ensures var m := Meaning(Alter([item] + items));
            match item
            case AddColumn(cols, _, _) => m.Some? <==> cols != []
            case DropColumn(names) => if names == [] then m == None else m == Some(DropCol(names[0]))
            case AddIndex => m == Some(Nothing)
            case DropIndex(index) => m == Some(Statement.DropIndex(false, index))
            case DropPrimaryKey => m.Some? && m.value.DropIndex? && m.value.isPrimary
            case AddConstraint(c) =>
              (match c
               case PrimaryKey(cols) => m.Some? && m.value.AddIndex? && m.value.isPrimary && m.value.keys == cols
               case Unique(Some(n), cols) => m == Some(Statement.AddIndex(false, n, cols))
               case Unique(None, _) => m == None
               case OtherTableConstraint => m == None)
            case ChangeColumn(def, prev) =>
              && m.Some? && m.value.ChangeCol? && m.value.prevName == prev && m.value.col.name == def.name
              && m.value.col.typ == def.typ && HasDefault(def, m.value.col.defaultStr)
              && (m.value.col.isNotNull <==> NotNull in def.constraints)
            case OtherItem => m == None
  {
    assert ([item] + items)[0] == item;
    if item.ChangeColumn? {
      DefaultStrips(item.def);
    }
  }

  /** DROP PRIMARY KEY undoes ADD PRIMARY KEY, and nothing else does. */
  lemma PrimaryKeyDropped(t: Table, columns: seq<string>, index: string)
    requires WellFormed(t) && HasUpd(t) && |t.indexs| == 1 && t.indexs[0].isTemp
    requires var m := Meaning(Alter([AddConstraint(PrimaryKey(columns))]));
             m.Some? ==> Fits(t, m.value)
    ensures var add, drop := Meaning(Alter([AddConstraint(PrimaryKey(columns))])), Meaning(Alter([DropPrimaryKey]));
            && add.Some? && drop.Some? && Fits(t, add.value) && Fill(t, add.value).Ok?
            && var r := Fill(t, add.value).value;
            Fits(r, drop.value) && Fill(r, drop.value).value.indexs == [TempIndex(t)] && Covers(r, r.indexs[0], columns)
  {
    AlterMeans(AddConstraint(PrimaryKey(columns)), []);
    AlterMeans(DropPrimaryKey, []);
    var add := Meaning(Alter([AddConstraint(PrimaryKey(columns))])).value;
    AddedKey(t, true, add.indexName, columns);
    AddedThenDropped(t, true, add.indexName, columns, index);
  }
}
