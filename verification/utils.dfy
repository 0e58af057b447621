/** The alternate data preparer (visualization-app/src/utils.py): a
    validator that answers yes or no and does not look at column labels,
    and a cleaning that drops all-missing rows and columns and converts
    textual columns, without touching infinities. */
module Utils {
  import opened DataFrame
  import Visualization

  /** Accepts a table unless it is empty or has fewer than two columns. */
  function ValidateData(df: Table): (ok: bool)
    ensures ok <==> !IsEmpty(df) && |df.columns| >= 2
  {
    if IsEmpty(df) then false
    else if |df.columns| < 2 then false
    else true
  }

  /** The two validators agree except on repeated column labels, which only
      the validator of visualization.py rejects. */
  lemma ValidatorsDifferOnlyOnDuplicates(df: Table)
    ensures ValidateData(df) <==> Visualization.ValidateData(Some(df)).valid
                                  || Visualization.ValidateData(Some(df)).message == Visualization.DuplicateNamesMessage
    ensures ValidateData(df) && Distinct(Names(df)) ==> Visualization.ValidateData(Some(df)).valid
  {
  }

  /** A table with a repeated label, rows and two columns is accepted. */
  lemma RepeatedNamesAccepted(df: Table)
    requires Names(df) == ["a", "a"] && df.height > 0
    ensures ValidateData(df)
    ensures !Visualization.ValidateData(Some(df)).valid
  {
    assert Names(df)[0] == Names(df)[1];
  }

  /** What `process_data` computes: drop all-missing rows, then all-missing
      columns, then convert each textual column that parses completely. */
  function Processed(df: Table, parse: Parser): (r: Table)
    requires WellFormed(df)
    ensures WellFormed(r) && r.height <= df.height && |r.columns| <= |df.columns|
  {
    CoerceAll(DropEmptyColumns(DropEmptyRows(df)), parse)
  }

  /** `df.select_dtypes(include=['object']).columns`, as positions. */
  function ObjectColumns(df: Table): (objects: seq<nat>)
    ensures Increasing(objects)
    ensures forall k :: 0 <= k < |objects| ==> objects[k] < |df.columns|
  {
    Select(|df.columns|, (j: nat) => j < |df.columns| && Textual(df.columns[j]))
  }

  lemma ObjectColumnsAre(df: Table)
    ensures var objects := ObjectColumns(df);
      && Increasing(objects)
      && (forall k :: 0 <= k < |objects| ==> objects[k] < |df.columns| && Textual(df.columns[objects[k]]))
      && (forall j :: 0 <= j < |df.columns| && Textual(df.columns[j]) ==> j in objects)
  {
    var p := (j: nat) => j < |df.columns| && Textual(df.columns[j]);
    assert ObjectColumns(df) == Select(|df.columns|, p);
    forall j | 0 <= j < |df.columns| && Textual(df.columns[j]) ensures j in ObjectColumns(df) {
      assert p(j);
    }
    forall k | 0 <= k < |ObjectColumns(df)|
      ensures Textual(df.columns[ObjectColumns(df)[k]])
    {
      assert p(ObjectColumns(df)[k]);
    }
  }

  /** The cleaning pipeline: the two drops, then the conversion loop. */
  method ProcessData(df: Table, parse: Parser) returns (r: Table)
    requires WellFormed(df)
    ensures r == Processed(df, parse)
  {
    r := DropEmptyRows(df);
    r := DropEmptyColumns(r);
    r := ConvertObjectColumns(r, parse);
  }

  /** The loop over the columns of dtype `object`, listed before the loop
      starts: `pd.to_numeric` raises when a cell has no numeric reading, and
      also when `df[col]` is a table because another column shares the
      label; on raising the column is kept. */
  method ConvertObjectColumns(df: Table, parse: Parser) returns (r: Table)
    requires WellFormed(df)
    ensures r == CoerceAll(df, parse)
  {
    var objects := ObjectColumns(df);
    ObjectColumnsAre(df);
    var labels := Names(df);  // the loop never changes a label
    var columns := df.columns;
    for k := 0 to |objects|
      invariant |columns| == |df.columns|
      invariant forall j :: 0 <= j < |columns| && j in objects[..k] ==> columns[j] == CoerceAt(df, j, parse)
      invariant forall j :: 0 <= j < |columns| && j !in objects[..k] ==> columns[j] == df.columns[j]
    {
      var j := objects[k];
      assert j !in objects[..k];
      assert columns[j] == df.columns[j] && Textual(df.columns[j]);
      ghost var before := columns;
      if !Shared(labels, j) {
        var converted := ToNumeric(columns[j].cells, parse);
        if converted.Some? {
          columns := columns[j := Column(columns[j].name, converted.value)];
        }
        assert columns[j] == CoerceColumn(df.columns[j], parse);
      }
      assert columns[j] == CoerceAt(df, j, parse);
      assert forall i :: 0 <= i < |columns| && i != j ==> columns[i] == before[i];
      assert objects[..k + 1] == objects[..k] + [j];
    }
    assert objects[..|objects|] == objects;
    r := Table(columns, df.height);
    assert r.columns == CoerceAll(df, parse).columns;
  }

  /** The rows and the columns kept are exactly those of the input that
      held a value, in order, and each kept column is the input's, converted
      or not. When no string reads as NaN, no row and no column of the
      result is all missing. */
  lemma ProcessedHasNoEmptyRowsOrColumns(df: Table, parse: Parser)
    requires WellFormed(df)
    ensures var d, r := DropEmptyColumns(DropEmptyRows(df)), Processed(df, parse);
      && KeepsExactly(df, d, KeptRows(df), KeptColumns(df))
      && WellFormed(r) && r.height == d.height && Names(r) == Names(d)
      && (forall a :: 0 <= a < |d.columns| ==> r.columns[a] == d.columns[a] || r.columns[a] == CoerceColumn(d.columns[a], parse))
      && (NoBlankReadings(df, parse) ==> NoEmptyRows(r) && NoEmptyColumns(r))
  {
    var d := DropEmptyColumns(DropEmptyRows(df));
    var r := Processed(df, parse);
    DropsKeepExactlyData(df);
    forall a | 0 <= a < |d.columns|
      ensures r.columns[a] == d.columns[a] || r.columns[a] == CoerceColumn(d.columns[a], parse)
    {
      assert r.columns[a] == CoerceAt(d, a, parse);
    }
    if NoBlankReadings(df, parse) {
      CoerceAllKeepsShape(d, parse);
      KeptCellsBlankFree(df, d, KeptRows(df), KeptColumns(df), parse);
    }
  }

  /** Cleaning twice is cleaning once, for a table in which no string reads
      as NaN. */
  lemma ProcessIdempotent(df: Table, parse: Parser)
    requires WellFormed(df)
    ensures WellFormed(Processed(df, parse))
    ensures NoBlankReadings(df, parse) ==> Processed(Processed(df, parse), parse) == Processed(df, parse)
  {
    var d := DropEmptyColumns(DropEmptyRows(df));
    var once := Processed(df, parse);
    ProcessedHasNoEmptyRowsOrColumns(df, parse);
    if NoBlankReadings(df, parse) {
      DropsIdentityOnCleanTable(once);
      CoerceAllIdempotent(d, parse);
    }
  }

  /** Column `j` is converted as a whole: no other column has its label and
      every cell has a numeric reading. */
  predicate ConvertsWhole(df: Table, j: nat, parse: Parser)
    requires j < |df.columns|
  {
    && !Shared(Names(df), j)
    && forall i :: 0 <= i < |df.columns[j].cells| ==> ParseCell(df.columns[j].cells[i], parse).Some?
  }

  /** A kept row whose cells were all missing or strings read as NaN, each
      in a column that converts, is all missing after conversion. */
  lemma ConvertedRowEmpty(df: Table, d: Table, rows: seq<nat>, cols: seq<nat>, parse: Parser, i: nat)
    requires KeepsExactly(df, d, rows, cols) && i < df.height && RowHasData(df, i)
    requires forall j :: 0 <= j < |df.columns| ==>
               df.columns[j].cells[i] == Missing || (ReadsAsMissing(df.columns[j].cells[i], parse) && ConvertsWhole(df, j, parse))
    ensures i in rows
    ensures forall b :: 0 <= b < |rows| && rows[b] == i ==>
              b < CoerceAll(d, parse).height && !RowHasData(CoerceAll(d, parse), b)
  {
    var r := CoerceAll(d, parse);
    assert i in rows;
    forall b | 0 <= b < |rows| && rows[b] == i ensures b < r.height && !RowHasData(r, b) {
      forall a | 0 <= a < |r.columns| ensures r.columns[a].cells[b] == Missing {
        var j := cols[a];
        var c := d.columns[a];
        assert c.cells[b] == df.columns[j].cells[i];
        CoerceAllOrNothing(c, parse);
        if c.cells[b] != Missing {
          assert ConvertsWhole(df, j, parse);
          forall k | 0 <= k < |d.columns| && k != a ensures Names(d)[k] != Names(d)[a] {
            assert cols[k] != j;
            assert Names(d)[k] == df.columns[cols[k]].name;
          }
          assert !Shared(Names(d), a);
          forall b' | 0 <= b' < |c.cells| ensures ParseCell(c.cells[b'], parse).Some? {
            assert c.cells[b'] == df.columns[j].cells[rows[b']];
          }
          assert Textual(c);
          assert r.columns[a] == CoerceColumn(c, parse);
          assert r.columns[a].cells[b] == ParseCell(c.cells[b], parse).value;
        }
      }
    }
  }

  /** A row whose cells are all missing or strings read as NaN, with at
      least one such string, each in a column that converts as a whole, is
      kept by the drops and is an all-missing row of the cleaned table. */
  lemma BlankRowSurvivesAsEmptyRow(df: Table, parse: Parser, i: nat)
    requires WellFormed(df) && i < df.height && RowHasData(df, i)
    requires forall j :: 0 <= j < |df.columns| ==>
               df.columns[j].cells[i] == Missing || (ReadsAsMissing(df.columns[j].cells[i], parse) && ConvertsWhole(df, j, parse))
    ensures i in KeptRows(df)
    ensures forall b :: 0 <= b < |KeptRows(df)| && KeptRows(df)[b] == i ==>
              b < Processed(df, parse).height && !RowHasData(Processed(df, parse), b)
  {
    DropsKeepExactlyData(df);
    ConvertedRowEmpty(df, DropEmptyColumns(DropEmptyRows(df)), KeptRows(df), KeptColumns(df), parse, i);
  }

  /** Cleaning such a table a second time removes that row: without the
      read_csv guarantee that no string reads as NaN, the cleaning is not
      idempotent. */
  lemma BlankRowBreaksIdempotence(df: Table, parse: Parser, i: nat)
    requires WellFormed(df) && i < df.height && RowHasData(df, i)
    requires forall j :: 0 <= j < |df.columns| ==>
               df.columns[j].cells[i] == Missing || (ReadsAsMissing(df.columns[j].cells[i], parse) && ConvertsWhole(df, j, parse))
    ensures Processed(Processed(df, parse), parse) != Processed(df, parse)
  {
    BlankRowSurvivesAsEmptyRow(df, parse, i);
    var once := Processed(df, parse);
    var rows := KeptRows(df);
    var b :| 0 <= b < |rows| && rows[b] == i;
    ProcessedHasNoEmptyRowsOrColumns(df, parse);
    ProcessedHasNoEmptyRowsOrColumns(once, parse);
    SelectMissesOne(once.height, (k: nat) => RowHasData(once, k), b);
    assert Processed(once, parse).height < once.height;
  }
}
