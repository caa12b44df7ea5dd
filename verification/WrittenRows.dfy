/** Rows on their way from the writer's values to the worker's records. */
module WrittenRows {
  import opened Text
  import opened Lines
  import opened Merge
  import opened RowText
  import opened RowRoundTrip
  import opened RowFits
  import SubWorker
  import TableEngine

  predicate AllClean(vals: seq<Value>) {
    forall i :: 0 <= i < |vals| ==> Clean(vals[i])
  }

  function ContentAt(vals: seq<Value>, k: nat): string {
    if k < |vals| then vals[k].Content() else ""
  }

  // ---------- one row ----------

  /** The texts gathered for the columns are the contents. */
  predicate Gathered(fields: seq<string>, vals: seq<Value>) {
    forall k :: 0 <= k < |vals| ==> FieldAt(fields, k) == ContentAt(vals, k)
  }

  lemma GatheredCons(fields: seq<string>, vals: seq<Value>)
    requires fields != [] && vals != []
    ensures Gathered(fields, vals) <==> fields[0] == vals[0].Content() && Gathered(fields[1..], vals[1..])
  {
    if Gathered(fields, vals) {
      assert FieldAt(fields, 0) == ContentAt(vals, 0);
      forall k | 0 <= k < |vals| - 1
        ensures FieldAt(fields[1..], k) == ContentAt(vals[1..], k)
      {
        assert FieldAt(fields, k + 1) == ContentAt(vals, k + 1);
      }
    }
    if fields[0] == vals[0].Content() && Gathered(fields[1..], vals[1..]) {
      forall k | 0 <= k < |vals|
        ensures FieldAt(fields, k) == ContentAt(vals, k)
      {
        assert k > 0 ==> FieldAt(fields[1..], k - 1) == ContentAt(vals[1..], k - 1);
      }
    }
  }

  lemma AllCleanCons(vals: seq<Value>)
    requires vals != []
    ensures AllClean(vals) <==> Clean(vals[0]) && AllClean(vals[1..])
  {
    if Clean(vals[0]) && AllClean(vals[1..]) {
      assert forall i :: 0 < i < |vals| ==> vals[i] == vals[1..][i - 1];
    }
  }

  /** Column by column, the reader gets a written row's contents exactly when all values are clean. */
  lemma {:induction false} GatheredClean(vals: seq<Value>)
    requires vals != []
    ensures Gathered(Fields(Drop(Line(vals), 1)), vals) <==> AllClean(vals)
  {
    var fields := Fields(Drop(Line(vals), 1));
    LineUnfold(vals);
    ReadValue(vals[0], After(vals));
    GatheredCons(fields, vals);
    AllCleanCons(vals);
    if |vals| > 1 && Clean(vals[0]) {
      GatheredClean(vals[1..]);
      assert fields[1..] == Fields(Drop(Line(vals[1..]), 1));
    }
  }

  function RecordOf(vals: seq<Value>, source: int, stamp: int): Record {
    Record(seq(|vals|, k requires 0 <= k < |vals| => ContentAt(vals, k)), source, stamp)
  }

  lemma RecordGathered(line: string, vals: seq<Value>, source: int, stamp: int)
    ensures SubWorker.LineRecord(line, |vals|, source, stamp) == RecordOf(vals, source, stamp)
            <==> Gathered(Fields(Drop(line, 1)), vals)
  {
    var a, b := SubWorker.LineRecord(line, |vals|, source, stamp).vals, RecordOf(vals, source, stamp).vals;
    assert |a| == |b| == |vals|;
    forall k | 0 <= k < |vals|
      ensures a[k] == FieldAt(Fields(Drop(line, 1)), k) && b[k] == ContentAt(vals, k)
    {
    }
    if Gathered(Fields(Drop(line, 1)), vals) {
      assert a == b;
    }
  }

  lemma WrittenFits(vals: seq<Value>)
    requires vals != [] && AllClean(vals)
    ensures FitsColumns(Line(vals), |vals|)
  {
    forall i | 0 <= i < |vals|
      ensures Sound(vals[i])
    {
      CleanIsSound(vals[i]);
    }
    SoundFits(vals);
  }

  /** From the event to the table's row: value i arrives in slot insPos[i], and the other slots stay empty. */
  method WriteThenParse(vals: seq<Value>, insPos: seq<int>, width: nat, source: int, stamp: int)
    returns (row: TableEngine.Row)
    requires |vals| == |insPos| > 1 && AllClean(vals)
    requires forall i :: 0 <= i < |vals| ==> '\n' !in vals[i].Content()
    requires forall k :: 0 <= k < |insPos| ==> 0 <= insPos[k] < width
    requires forall j, k :: 0 <= j < k < |insPos| ==> insPos[j] != insPos[k]
    ensures fresh(row) && |row.data| == width && row.source == source && row.stamp == stamp
    ensures forall k :: 0 <= k < |insPos| ==> row.data[insPos[k]] == vals[k].Content()
    ensures forall j :: 0 <= j < width && j !in insPos ==> row.data[j] == ""
  {
    var line := WrittenLine(vals);
    WrittenFits(vals);
    GatheredClean(vals);
    row := SubWorker.ParseLine(line, width, insPos, source, stamp);
    forall k | 0 <= k < |insPos|
      ensures row.data[insPos[k]] == vals[k].Content()
    {
      assert FieldAt(Fields(Drop(line, 1)), k) == ContentAt(vals, k);
    }
  }

  method WrittenLine(vals: seq<Value>) returns (line: string)
    requires vals != [] && forall i :: 0 <= i < |vals| ==> '\n' !in vals[i].Content()
    ensures line == Line(vals)
  {
    var builder := new StringBuilder();
    var ok := ParseOneRow(vals, true, builder);
    RowIsLine("", vals);
    LineIsQuoted(vals);
    assert builder.text == Line(vals) + "\n";
    FirstWritten(vals);
    line := FirstLine(builder.text).0;
  }

  lemma FirstWritten(vals: seq<Value>)
    requires vals != [] && forall i :: 0 <= i < |vals| ==> '\n' !in vals[i].Content()
    ensures '\n' !in Line(vals) && FirstLine(Line(vals) + "\n") == (Line(vals), "")
  {
    LineBreaks(vals);
    FirstLineOf(Line(vals), "");
    assert Line(vals) + "\n" + "" == Line(vals) + "\n";
  }

  // ---------- a whole file ----------

  predicate Rectangular(rows: seq<seq<Value>>, width: nat) {
    forall i :: 0 <= i < |rows| ==> |rows[i]| == width
  }

  function RowRecords(rows: seq<seq<Value>>, source: int, stamp: int): (rs: seq<Record>)
    ensures |rs| == |rows| && forall i :: 0 <= i < |rows| ==> rs[i] == RecordOf(rows[i], source, stamp + i)
  {
    seq(|rows|, i requires 0 <= i < |rows| => RecordOf(rows[i], source, stamp + i))
  }

  /** No value has a line break. */
  predicate OneLined(rows: seq<seq<Value>>) {
    forall i :: 0 <= i < |rows| ==> forall j :: 0 <= j < |rows[i]| ==> '\n' !in rows[i][j].Content()
  }

  lemma WrittenLines(rows: seq<seq<Value>>, width: nat)
    requires Rectangular(rows, width) && width > 0
    ensures var ls := FileLines(rows);
            && |ls| == |rows| && (forall i :: 0 <= i < |rows| ==> ls[i] == Line(rows[i]))
            && (OneLined(rows) ==> Split(Unlines(ls)) == ls)
            && (!OneLined(rows) ==> |Split(Unlines(ls))| > |rows|)
  {
    var ls := FileLines(rows);
    FileLinesAt(rows, ls);
    forall i | 0 <= i < |rows|
      ensures '\n' in ls[i] <==> exists j :: 0 <= j < |rows[i]| && '\n' in rows[i][j].Content()
    {
      LineBreaks(rows[i]);
      assert ls[i] == "\"" + Tail(rows[i]);
    }
    SplitUnlines(ls);
    UnlinesBreaks(ls);
    SplitCount(Unlines(ls));
  }

  /** No line of a file of sound values brings text past the last column. */
  lemma WrittenFileFits(rows: seq<seq<Value>>, width: nat)
    requires Rectangular(rows, width) && width > 1 && OneLined(rows)
    requires forall i :: 0 <= i < |rows| ==> AllSound(rows[i])
    ensures SubWorker.LinesFit(Split(Unlines(FileLines(rows))), width)
  {
    WrittenLines(rows, width);
    forall i | 0 <= i < |rows|
      ensures FitsColumns(FileLines(rows)[i], width)
    {
      SoundFits(rows[i]);
    }
  }

  ghost predicate AllRowsClean(rows: seq<seq<Value>>) {
    forall i :: 0 <= i < |rows| ==> AllClean(rows[i])
  }

  /**
   The records a worker reads from a written file are the writer's rows, in order and with consecutive stamps,
   exactly when no value holds a backslash, a line break or an unescaped quote; and then every line fits.
   */
  lemma WrittenFile(rows: seq<seq<Value>>, width: nat, source: int, stamp: int)
    requires Rectangular(rows, width) && width > 1
    ensures var ls := Split(Unlines(FileLines(rows)));
            && (SubWorker.FileRecords(ls, width, source, stamp) == RowRecords(rows, source, stamp)
                <==> AllRowsClean(rows) && OneLined(rows))
            && (AllRowsClean(rows) && OneLined(rows) ==> SubWorker.LinesFit(ls, width))
  {
    var ls := Split(Unlines(FileLines(rows)));
    WrittenLines(rows, width);
    if OneLined(rows) {
      var a, b := SubWorker.FileRecords(ls, width, source, stamp), RowRecords(rows, source, stamp);
      forall i | 0 <= i < |rows|
        ensures a[i] == b[i] <==> AllClean(rows[i])
      {
        RecordGathered(ls[i], rows[i], source, stamp + i);
        GatheredClean(rows[i]);
      }
      if AllRowsClean(rows) {
        assert a == b;
        CleanFileFits(rows, width);
      }
    }
  }

  lemma CleanFileFits(rows: seq<seq<Value>>, width: nat)
    requires Rectangular(rows, width) && width > 1 && OneLined(rows) && AllRowsClean(rows)
    ensures SubWorker.LinesFit(Split(Unlines(FileLines(rows))), width)
  {
    forall i | 0 <= i < |rows|
      ensures AllSound(rows[i])
    {
      forall j | 0 <= j < |rows[i]|
        ensures Sound(rows[i][j])
      {
        CleanIsSound(rows[i][j]);
      }
    }
    WrittenFileFits(rows, width);
  }

  /** The record is read from the file. */
  predicate FromFile(file: string, width: nat, source: int, stamp: int, r: Record) {
    r in SubWorker.FileRecords(Split(file), width, source, stamp)
  }

  /** The record is one of the last state's. */
  predicate FromStage(inputs: seq<SubWorker.TwoFiles>, width: nat, r: Record) {
    inputs != [] && r in SubWorker.StageRecords(inputs, width)
  }

  lemma OwnFile(inputs: seq<SubWorker.TwoFiles>, width: nat, source: nat, r: Record)
    requires inputs != [] && (source == 0 || source == 1)
    requires FromFile(inputs[|inputs| - 1].dat[source], width, source,
               SubWorker.Delivered(inputs[..|inputs| - 1], source), r)
    ensures FromStage(inputs, width, r)
  {
    var n := |inputs| - 1;
    var s0, s1 := SubWorker.Delivered(inputs[..n], 0), SubWorker.Delivered(inputs[..n], 1);
    InEither(SubWorker.FileRecords(Split(inputs[n].dat[0]), width, 0, s0),
      SubWorker.FileRecords(Split(inputs[n].dat[1]), width, 1, s1), r);
  }

  lemma InEither(a: seq<Record>, b: seq<Record>, r: Record)
    ensures r in a || r in b <==> r in a + b
  {
  }

  /** Every row that either source writes for a state is among the rows of the state, under its source and count. */
  lemma EveryRowCounts(inputs: seq<SubWorker.TwoFiles>, width: nat, source: nat, rows: seq<seq<Value>>, k: nat)
    requires inputs != [] && (source == 0 || source == 1) && k < |rows|
    requires Rectangular(rows, width) && width > 1 && AllRowsClean(rows) && OneLined(rows)
    requires inputs[|inputs| - 1].dat[source] == Unlines(FileLines(rows))
    ensures var stamp := SubWorker.Delivered(inputs[..|inputs| - 1], source) + k;
            FromStage(inputs, width, RecordOf(rows[k], source, stamp))
  {
    var stamp := SubWorker.Delivered(inputs[..|inputs| - 1], source);
    RowInFile(rows, width, source, stamp, k);
    OwnFile(inputs, width, source, RecordOf(rows[k], source, stamp + k));
  }

  lemma RowInFile(rows: seq<seq<Value>>, width: nat, source: int, stamp: int, k: nat)
    requires Rectangular(rows, width) && width > 1 && AllRowsClean(rows) && OneLined(rows) && k < |rows|
    ensures FromFile(Unlines(FileLines(rows)), width, source, stamp, RecordOf(rows[k], source, stamp + k))
  {
    WrittenFile(rows, width, source, stamp);
    assert RowRecords(rows, source, stamp)[k] == RecordOf(rows[k], source, stamp + k);
  }
}
