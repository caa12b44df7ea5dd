/** The merged table as a text of SQL rows, and the sentinel that becomes null in it. */
module Dump {
  import opened Text
  import opened Lines
  import opened Merge
  import opened MergeTheorems
  import opened QuotedText
  import Schema
  import TableEngine

  // ---------- rows as text ----------

  datatype Cell = Default | Literal(value: string)

  function CellText(c: Cell): string {
    match c
    case Default => "DEFAULT"
    case Literal(v) => Quoted(v)
  }

  function CellTexts(cs: seq<Cell>): (ts: seq<string>)
    ensures |ts| == |cs| && forall i :: 0 <= i < |cs| ==> ts[i] == CellText(cs[i])
  {
    seq(|cs|, i requires 0 <= i < |cs| => CellText(cs[i]))
  }

  function RowText(cs: seq<Cell>): string {
    Join(CellTexts(cs), ',')
  }

  /** A value equal to its column's default is left to the database. */
  function CellOf(c: Schema.Column, v: string): Cell {
    if c.def == Some(v) then Default else Literal(v)
  }

  function CellsOf(cols: seq<Schema.Column>, r: Record): (cs: seq<Cell>)
    ensures |cs| == |cols| && forall i :: 0 <= i < |cols| ==> cs[i] == CellOf(cols[i], At(r, i))
  {
    seq(|cols|, i requires 0 <= i < |cols| => CellOf(cols[i], At(r, i)))
  }

  /** The lines of the dump: one for each stored row, in the order of the slots. */
  function DumpLines(cols: seq<Schema.Column>, slots: Slots): seq<string> {
    if slots == [] then []
    else
      var n := |slots| - 1;
      DumpLines(cols, slots[..n]) + (if slots[n].Some? then [RowText(CellsOf(cols, slots[n].value))] else [])
  }

  lemma {:induction false} JoinSnoc(ts: seq<string>, t: string, c: char)
    ensures Join(ts + [t], c) == if ts == [] then t else Join(ts, c) + [c] + t
  {
    if ts != [] {
      assert (ts + [t])[1..] == ts[1..] + [t];
      JoinSnoc(ts[1..], t, c);
    }
  }

  // ---------- the writer ----------

  method DumpCell(des: TableEngine.ColumnDescriptor, value: string, stream: string) returns (out: string)
    ensures out == stream + CellText(CellOf(des.Column(), value))
  {
    if des.def == Some(value) {
      out := stream + "DEFAULT";
    } else {
      out := QuotedToStream(value, stream);
    }
  }

  /** The i-th cell is what the column object and the physical value make of it. */
  predicate Holds(table: TableEngine.Table, row: TableEngine.Row, phyPos: seq<int>, cs: seq<Cell>, i: nat)
    reads table`colDes, table.colDes, row
  {
    && i < |table.colDes| == |phyPos| == |cs| && 0 <= phyPos[i] < |row.data|
    && cs[i] == CellOf(table.colDes[i].Column(), row.data[phyPos[i]])
  }

  /** A cell, and a comma if it is not the last. */
  method NextCell(table: TableEngine.Table, row: TableEngine.Row, phyPos: seq<int>, ghost cs: seq<Cell>, i: nat,
    stream: string)
    returns (out: string)
    requires Holds(table, row, phyPos, cs, i)
    ensures out == stream + (CellText(cs[i]) + (if i != |cs| - 1 then "," else ""))
  {
    out := DumpCell(table.colDes[i], row.data[phyPos[i]], stream);
    if i != |table.colDes| - 1 {
      out := out + ",";
    }
  }

  method DumpCells(table: TableEngine.Table, row: TableEngine.Row, phyPos: seq<int>, ghost cs: seq<Cell>,
    stream: string)
    returns (out: string)
    requires |cs| == |table.colDes| && forall i: nat :: i < |cs| ==> Holds(table, row, phyPos, cs, i)
    ensures out == stream + RowText(cs)
  {
    out := stream;
    for i := 0 to |table.colDes|
      invariant out == stream + Partial(CellTexts(cs), i)
    {
      AddNext(stream, CellTexts(cs), i);
      out := NextCell(table, row, phyPos, cs, i, out);
    }
    assert CellTexts(cs)[..|cs|] == CellTexts(cs);
  }

  lemma AddNext(stream: string, ts: seq<string>, i: nat)
    requires i < |ts|
    ensures stream + Partial(ts, i) + (ts[i] + (if i != |ts| - 1 then "," else "")) == stream + Partial(ts, i + 1)
  {
    PartialNext(ts, i);
  }

  /** The first i cells, with the comma after them if there are more. */
  function Partial(ts: seq<string>, i: nat): string
    requires i <= |ts|
  {
    Join(ts[..i], ',') + (if 0 < i < |ts| then "," else "")
  }

  lemma PartialNext(ts: seq<string>, i: nat)
    requires i < |ts|
    ensures Partial(ts, i + 1) == Partial(ts, i) + ts[i] + (if i != |ts| - 1 then "," else "")
  {
    assert ts[..i + 1] == ts[..i] + [ts[i]];
    JoinSnoc(ts[..i], ts[i], ',');
  }

  method DumpRow(table: TableEngine.Table, row: TableEngine.Row, phyPos: seq<int>, stream: string) returns (out: string)
    requires table.Columns() && phyPos == table.phy && |row.data| == table.colPhy
    ensures out == stream + (RowText(CellsOf(table.model.cols, TableEngine.View(table.phy)(row.Rec()))) + "\n")
  {
    ghost var r := TableEngine.View(table.phy)(row.Rec());
    ghost var cs := CellsOf(table.model.cols, r);
    forall i: nat | i < |cs|
      ensures Holds(table, row, phyPos, cs, i)
    {
      assert table.model.cols[i] == table.colDes[i].Column() && At(r, i) == row.data[phyPos[i]];
    }
    out := DumpCells(table, row, phyPos, cs, stream);
    out := out + "\n";
  }

  lemma DumpNext(cols: seq<Schema.Column>, slots: Slots, i: nat)
    requires i < |slots|
    ensures slots[i].None? ==> DumpLines(cols, slots[..i + 1]) == DumpLines(cols, slots[..i])
    ensures slots[i].Some? ==>
              Unlines(DumpLines(cols, slots[..i + 1]))
              == Unlines(DumpLines(cols, slots[..i])) + (RowText(CellsOf(cols, slots[i].value)) + "\n")
  {
    assert slots[..i + 1][..i] == slots[..i];
    if slots[i].Some? {
      var line := RowText(CellsOf(cols, slots[i].value));
      UnlinesJoins(DumpLines(cols, slots[..i]), [line]);
      assert [line][1..] == [] && line + "\n" + "" == line + "\n";
    }
  }

  // ---------- the rows as they stand ----------

  /** What the row objects hold, whatever slot they believe to be in. */
  function RowSlots(rows: seq<TableEngine.Row?>): (s: Slots)
    reads rows
    ensures |s| == |rows|
    ensures forall k :: 0 <= k < |rows| ==> s[k] == if rows[k] == null then None else Some(rows[k].Rec())
  {
    seq(|rows|, k requires 0 <= k < |rows| reads rows => if rows[k] == null then None else Some(rows[k].Rec()))
  }

  function ViewSlots(f: Record -> Record, rows: seq<TableEngine.Row?>): (s: Slots)
    reads rows
    ensures |s| == |rows|
  {
    MapSlots(f, RowSlots(rows))
  }

  /** The same as the table's user sees it. */
  ghost function Seen(table: TableEngine.Table): (s: Slots)
    reads table, table.rows
    ensures |s| == |table.rows|
  {
    ViewSlots(TableEngine.View(table.phy), table.rows)
  }

  lemma SeenIsModel(table: TableEngine.Table)
    requires table.Valid()
    ensures Seen(table) == table.model.slots
    ensures forall k :: 0 <= k < |table.rows| && table.rows[k] != null ==> |table.rows[k].data| == table.colPhy
  {
    forall k | 0 <= k < |table.rows|
      ensures RowSlots(table.rows)[k] == table.slots[k]
      ensures table.rows[k] != null ==> |table.rows[k].data| == table.colPhy
    {
      assert table.SlotOk(k);
    }
    assert RowSlots(table.rows) == table.slots;
  }

  /** The stored rows of the table, in the order they stand, each value as its user sees it. */
  method DumpToFile(table: TableEngine.Table) returns (stream: string)
    requires table.Columns()
    requires forall k :: 0 <= k < |table.rows| && table.rows[k] != null ==> |table.rows[k].data| == table.colPhy
    ensures stream == Unlines(DumpLines(table.model.cols, Seen(table)))
  {
    stream := "";
    var phyPos := table.GetPhyPosArray();
    ghost var slots := Seen(table);
    for i := 0 to |table.rows|
      invariant stream == Unlines(DumpLines(table.model.cols, slots[..i]))
    {
      DumpNext(table.model.cols, slots, i);
      var row := table.rows[i];
      if row != null {
        stream := DumpRow(table, row, phyPos, stream);
      }
    }
    WholeSeq(slots);
  }

  // ---------- sorted rows ----------

  function SlotLine(cols: seq<Schema.Column>, slot: Option<Record>): seq<string> {
    if slot.Some? then [RowText(CellsOf(cols, slot.value))] else []
  }

  lemma DumpLast(cols: seq<Schema.Column>, s: Slots, x: Option<Record>)
    ensures DumpLines(cols, s + [x]) == DumpLines(cols, s) + SlotLine(cols, x)
  {
    assert (s + [x])[..|s|] == s;
  }

  lemma {:induction false} DumpSplits(cols: seq<Schema.Column>, a: Slots, b: Slots)
    ensures DumpLines(cols, a + b) == DumpLines(cols, a) + DumpLines(cols, b)
    decreases |b|
  {
    if b == [] {
      EmptyRight(a);
      EmptyRight(DumpLines(cols, a));
    } else {
      var front, x := b[..|b| - 1], b[|b| - 1];
      DumpSplits(cols, a, front);
      LastOf(b);
      Regroup(a, front, [x]);
      DumpLast(cols, a + front, x);
      DumpLast(cols, front, x);
      Regroup(DumpLines(cols, a), DumpLines(cols, front), SlotLine(cols, x));
    }
  }

  function Without<T>(s: seq<T>, i: nat): seq<T>
    requires i < |s|
  {
    s[..i] + s[i + 1..]
  }

  lemma TakenOut<T>(s: seq<T>, i: nat)
    requires i < |s|
    ensures s == s[..i] + [s[i]] + s[i + 1..]
    ensures multiset(s) == multiset([s[i]]) + multiset(Without(s, i))
  {
    assert s == s[..i] + [s[i]] + s[i + 1..];
  }

  /** Where the first element is after a permutation, and the rest without it. */
  lemma FirstGoes<T>(s: seq<T>, t: seq<T>) returns (j: nat)
    requires s != [] && multiset(s) == multiset(t)
    ensures j < |t| && t[j] == s[0] && multiset(s[1..]) == multiset(Without(t, j))
  {
    assert s[0] in multiset(t);
    j :| j < |t| && t[j] == s[0];
    TakenOut(s, 0);
    TakenOut(t, j);
    WithoutFirst(s);
    Cancel(multiset([s[0]]), multiset(s[1..]), multiset(Without(t, j)));
  }

  lemma WithoutFirst<T>(s: seq<T>)
    requires s != []
    ensures Without(s, 0) == s[1..]
  {
  }

  lemma NoneLeft<T>(t: seq<T>)
    requires multiset(t) == multiset([])
    ensures t == []
  {
    assert |multiset(t)| == |t|;
  }

  lemma Cancel<T>(x: multiset<T>, m: multiset<T>, n: multiset<T>)
    requires x + m == x + n
    ensures m == n
  {
    assert x + m - x == m && x + n - x == n;
  }

  lemma DumpTakesOut(cols: seq<Schema.Column>, s: Slots, i: nat)
    requires i < |s|
    ensures multiset(DumpLines(cols, s)) == multiset(SlotLine(cols, s[i])) + multiset(DumpLines(cols, Without(s, i)))
  {
    TakenOut(s, i);
    DumpSplits(cols, s[..i] + [s[i]], s[i + 1..]);
    DumpLast(cols, s[..i], s[i]);
    DumpSplits(cols, s[..i], s[i + 1..]);
  }

  /** Slots in another order give the same lines in another order. */
  lemma {:induction false} SortedLines(cols: seq<Schema.Column>, s: Slots, t: Slots)
    requires multiset(s) == multiset(t)
    ensures multiset(DumpLines(cols, s)) == multiset(DumpLines(cols, t))
    decreases |s|
  {
    if s == [] {
      NoneLeft(t);
    } else {
      var j := FirstGoes(s, t);
      SortedLines(cols, s[1..], Without(t, j));
      DumpTakesOut(cols, s, 0);
      DumpTakesOut(cols, t, j);
      WithoutFirst(s);
    }
  }

  lemma ViewTakesOut(f: Record -> Record, rows: seq<TableEngine.Row?>, i: nat)
    requires i < |rows|
    ensures multiset(ViewSlots(f, rows)) == multiset([ViewSlots(f, rows)[i]]) + multiset(ViewSlots(f, Without(rows, i)))
  {
    assert Without(ViewSlots(f, rows), i) == ViewSlots(f, Without(rows, i));
    TakenOut(ViewSlots(f, rows), i);
  }

  lemma {:induction false} SortedSlots(f: Record -> Record, rows: seq<TableEngine.Row?>, sorted: seq<TableEngine.Row?>)
    requires multiset(rows) == multiset(sorted)
    ensures multiset(ViewSlots(f, rows)) == multiset(ViewSlots(f, sorted))
    decreases |rows|
  {
    if rows == [] {
      NoneLeft(sorted);
    } else {
      var j := FirstGoes(rows, sorted);
      SortedSlots(f, rows[1..], Without(sorted, j));
      ViewTakesOut(f, rows, 0);
      ViewTakesOut(f, sorted, j);
      WithoutFirst(rows);
      assert ViewSlots(f, rows)[0] == ViewSlots(f, sorted)[j];
    }
  }

  /**
   The end of a worker: the rows are sorted, which leaves their back-pointers behind, and written. `sorted` is what
   std::sort makes of them. The lines are those of the merged table, in the order of the sorted rows.
   */
  method SortAndDump(table: TableEngine.Table, sorted: seq<TableEngine.Row?>) returns (stream: string)
    requires table.Valid() && multiset(sorted) == multiset(table.rows)
    modifies table`rows
    ensures table.rows == sorted && stream == Unlines(DumpLines(table.model.cols, Seen(table)))
    ensures multiset(Seen(table)) == multiset(old(table.model.slots))
    ensures multiset(DumpLines(table.model.cols, Seen(table))) ==
              multiset(DumpLines(table.model.cols, old(table.model.slots)))
  {
    SortingKeeps(table, sorted);
    stream := DumpSorted(table, sorted, ViewSlots(TableEngine.View(table.phy), sorted));
  }

  method DumpSorted(table: TableEngine.Table, sorted: seq<TableEngine.Row?>, ghost seen: Slots) returns (stream: string)
    requires table.Columns() && seen == ViewSlots(TableEngine.View(table.phy), sorted)
    requires forall k :: 0 <= k < |sorted| && sorted[k] != null ==> |sorted[k].data| == table.colPhy
    modifies table`rows
    ensures table.rows == sorted && Seen(table) == seen && stream == Unlines(DumpLines(table.model.cols, seen))
  {
    table.rows := sorted;
    assert Seen(table) == seen;
    stream := DumpToFile(table);
  }

  lemma SortingKeeps(table: TableEngine.Table, sorted: seq<TableEngine.Row?>)
    requires table.Valid() && multiset(sorted) == multiset(table.rows)
    ensures forall k :: 0 <= k < |sorted| && sorted[k] != null ==> |sorted[k].data| == table.colPhy
    ensures var s := ViewSlots(TableEngine.View(table.phy), sorted);
            && multiset(s) == multiset(table.model.slots)
            && multiset(DumpLines(table.model.cols, s)) == multiset(DumpLines(table.model.cols, table.model.slots))
  {
    SeenIsModel(table);
    SortedSlots(TableEngine.View(table.phy), table.rows, sorted);
    SortedLines(table.model.cols, ViewSlots(TableEngine.View(table.phy), sorted), table.model.slots);
    forall k | 0 <= k < |sorted| && sorted[k] != null
      ensures |sorted[k].data| == table.colPhy
    {
      assert sorted[k] in multiset(table.rows);
    }
  }
}
