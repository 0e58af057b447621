/** The data preparer and the chart-parameter builder of the hierarchical
    data visualizer (visualization-app/src/visualization.py): the validator
    with its messages, the cleaning pipeline, and the checks and parameter
    assembly of `DataVisualizer.create_chart` up to the charting call. */
module Visualization {
  import opened DataFrame

  // ---------------------------------------------------------------------
  // validate_data

  datatype Validation = Validation(valid: bool, message: string)

  const NoDataMessage := "No data provided"
  const EmptyFileMessage := "The uploaded file is empty"
  const TooFewColumnsMessage := "File must contain at least two columns"
  const DuplicateNamesMessage := "File contains duplicate column names"

  /** Runs the rejection checks in order; the first failing one gives the
      message. `None` stands for a missing table. */
  function ValidateData(df: Option<Table>): (r: Validation)
    ensures r.valid <==> df.Some? && !IsEmpty(df.value) && |df.value.columns| >= 2 && Distinct(Names(df.value))
    ensures r.valid <==> r.message == ""
    ensures df.None? ==> r.message == NoDataMessage
    ensures df.Some? && IsEmpty(df.value) ==> r.message == EmptyFileMessage
    ensures df.Some? && !IsEmpty(df.value) && |df.value.columns| < 2 ==> r.message == TooFewColumnsMessage
    ensures df.Some? && !IsEmpty(df.value) && |df.value.columns| >= 2 && !Distinct(Names(df.value))
            ==> r.message == DuplicateNamesMessage
  {
    match df
    case None => Validation(false, NoDataMessage)
    case Some(t) =>
      if IsEmpty(t) then Validation(false, EmptyFileMessage)
      else if |t.columns| < 2 then Validation(false, TooFewColumnsMessage)
      else if true in Duplicated(Names(t)) then
        DuplicatedAnyIffRepeated(Names(t));
        Validation(false, DuplicateNamesMessage)
      else
        DuplicatedAnyIffRepeated(Names(t));
        Validation(true, "")
  }

  /** A table with fewer than two columns is rejected whatever its number of
      rows: with no row or no column as empty, otherwise for its width. */
  lemma FewColumnsRejected(t: Table)
    requires |t.columns| < 2
    ensures !ValidateData(Some(t)).valid
    ensures ValidateData(Some(t)).message ==
              (if IsEmpty(t) then EmptyFileMessage else TooFewColumnsMessage)
  {
  }

  /** Columns `a`, `a`, `b` with at least one row are rejected as duplicates. */
  lemma RepeatedNameRejected(t: Table)
    requires Names(t) == ["a", "a", "b"] && t.height > 0
    ensures ValidateData(Some(t)) == Validation(false, DuplicateNamesMessage)
  {
    assert Names(t)[0] == Names(t)[1];
  }

  // ---------------------------------------------------------------------
  // process_data

  /** What `process_data` computes: drop all-missing rows, then all-missing
      columns, then turn infinities into missing values, then convert each
      textual column that parses completely. */
  function Processed(df: Table, parse: Parser): (r: Table)
    requires WellFormed(df)
    ensures WellFormed(r) && r.height <= df.height && |r.columns| <= |df.columns|
  {
    CoerceAll(ReplaceInfinities(DropEmptyColumns(DropEmptyRows(df))), parse)
  }

  /** The cleaning pipeline: the two drops, the replacement of infinities,
      then the conversion loop. */
  method ProcessData(df: Table, parse: Parser) returns (r: Table)
    requires WellFormed(df)
    ensures r == Processed(df, parse)
  {
    r := DropEmptyRows(df);
    r := DropEmptyColumns(r);
    r := ReplaceInfinities(r);
    r := ConvertObjectColumns(r, parse);
  }

  /** The loop over `df.columns`: `df[col]` of a label that another column
      shares is a table, whose `.dtype` raises, and the `except` moves on;
      otherwise a column of dtype `object` is handed to
      `pd.to_numeric(..., errors='ignore')`, which leaves the column as it
      was when one of its cells has no numeric reading. */
  method ConvertObjectColumns(df: Table, parse: Parser) returns (r: Table)
    requires WellFormed(df)
    ensures r == CoerceAll(df, parse)
  {
    var labels := Names(df);  // the loop never changes a label
    var columns := df.columns;
    var j := 0;
    while j < |columns|
      invariant |columns| == |df.columns|
      invariant 0 <= j <= |columns|
      invariant forall k :: 0 <= k < j ==> columns[k] == CoerceAt(df, k, parse)
      invariant forall k :: j <= k < |columns| ==> columns[k] == df.columns[k]
    {
      var col := columns[j];
      if !Shared(labels, j) && Textual(col) {
        var converted := ToNumeric(col.cells, parse);
        if converted.Some? {
          columns := columns[j := Column(col.name, converted.value)];
        }
      }
      j := j + 1;
    }
    r := Table(columns, df.height);
    assert r.columns == CoerceAll(df, parse).columns;
  }

  /** How one cell fares in the last two steps: an infinity ends up
      missing, a string either stays or is replaced by its numeric reading
      (a number, or missing when read as NaN), and any other cell is kept. */
  predicate CellCleaned(was: Cell, now: Cell, parse: Parser)
  {
    && (IsInfinite(was) ==> now == Missing)
    && (was.Text? ==> now == was || ParseCell(was, parse) == Some(now))
    && (!IsInfinite(was) && !was.Text? ==> now == was)
  }

  lemma ReplaceThenConvertCells(d: Table, parse: Parser)
    requires WellFormed(d)
    ensures var r := CoerceAll(ReplaceInfinities(d), parse);
      && WellFormed(r) && r.height == d.height && Names(r) == Names(d)
      && forall a, b :: 0 <= a < |d.columns| && 0 <= b < d.height ==>
           CellCleaned(d.columns[a].cells[b], r.columns[a].cells[b], parse)
  {
    var n := ReplaceInfinities(d);
    var r := CoerceAll(n, parse);
    forall a, b | 0 <= a < |d.columns| && 0 <= b < d.height
      ensures CellCleaned(d.columns[a].cells[b], r.columns[a].cells[b], parse)
    {
      ReplaceInfinitiesCells(d, a, b);
      CoerceAllOrNothing(n.columns[a], parse);
      assert r.columns[a] == n.columns[a] || r.columns[a] == CoerceColumn(n.columns[a], parse);
    }
  }

  /** After cleaning, the table has exactly the rows and the columns of the
      input that held a value (an infinity counts as a value), each in its
      original relative order, and every remaining cell is the input's cell
      cleaned as `CellCleaned` says. */
  lemma ProcessedKeepsDataRowsAndColumns(df: Table, parse: Parser)
    requires WellFormed(df)
    ensures var d, r := DropEmptyColumns(DropEmptyRows(df)), Processed(df, parse);
      && KeepsExactly(df, d, KeptRows(df), KeptColumns(df))
      && WellFormed(r) && r.height == d.height && Names(r) == Names(d)
      && forall a, b :: 0 <= a < |d.columns| && 0 <= b < d.height ==>
           CellCleaned(d.columns[a].cells[b], r.columns[a].cells[b], parse)
  {
    DropsKeepExactlyData(df);
    ReplaceThenConvertCells(DropEmptyColumns(DropEmptyRows(df)), parse);
  }

  /** A kept row whose cells were all missing or infinite is all missing
      once each cell has been cleaned. */
  lemma CleanedRowEmpty(df: Table, d: Table, r: Table, rows: seq<nat>, cols: seq<nat>, parse: Parser, i: nat)
    requires KeepsExactly(df, d, rows, cols) && i < df.height && RowHasData(df, i)
    requires forall j :: 0 <= j < |df.columns| ==> df.columns[j].cells[i] == Missing || IsInfinite(df.columns[j].cells[i])
    requires WellFormed(r) && r.height == d.height && |r.columns| == |d.columns|
    requires forall a, b :: 0 <= a < |d.columns| && 0 <= b < d.height ==>
               CellCleaned(d.columns[a].cells[b], r.columns[a].cells[b], parse)
    ensures i in rows
    ensures forall b :: 0 <= b < |rows| && rows[b] == i ==> b < r.height && !RowHasData(r, b)
  {
    assert i in rows;
    forall b | 0 <= b < |rows| && rows[b] == i ensures b < r.height && !RowHasData(r, b) {
      forall a | 0 <= a < |r.columns| ensures r.columns[a].cells[b] == Missing {
        var was := d.columns[a].cells[b];
        assert was == df.columns[cols[a]].cells[i];
        assert CellCleaned(was, r.columns[a].cells[b], parse);
      }
    }
  }

  /** Infinities are cleared after the drops, so a row whose cells are all
      missing or infinite, with at least one infinity, is kept by the drops
      and is an all-missing row of the cleaned table, at its new position. */
  lemma InfinityRowSurvivesAsEmptyRow(df: Table, parse: Parser, i: nat)
    requires WellFormed(df) && i < df.height && RowHasData(df, i)
    requires forall j :: 0 <= j < |df.columns| ==> df.columns[j].cells[i] == Missing || IsInfinite(df.columns[j].cells[i])
    ensures i in KeptRows(df)
    ensures forall b :: 0 <= b < |KeptRows(df)| && KeptRows(df)[b] == i ==>
              b < Processed(df, parse).height && !RowHasData(Processed(df, parse), b)
  {
    ProcessedKeepsDataRowsAndColumns(df, parse);
    CleanedRowEmpty(df, DropEmptyColumns(DropEmptyRows(df)), Processed(df, parse), KeptRows(df), KeptColumns(df), parse, i);
  }

  /** Cleaning such a table a second time removes that row, so this variant
      of the cleaning is not idempotent. */
  lemma CleaningNotIdempotent(df: Table, parse: Parser, i: nat)
    requires WellFormed(df) && i < df.height && RowHasData(df, i)
    requires forall j :: 0 <= j < |df.columns| ==> df.columns[j].cells[i] == Missing || IsInfinite(df.columns[j].cells[i])
    ensures Processed(Processed(df, parse), parse) != Processed(df, parse)
  {
    InfinityRowSurvivesAsEmptyRow(df, parse, i);
    var once := Processed(df, parse);
    var rows := KeptRows(df);
    var b :| 0 <= b < |rows| && rows[b] == i;
    ProcessedKeepsDataRowsAndColumns(once, parse);
    SelectMissesOne(once.height, (k: nat) => RowHasData(once, k), b);
    assert Processed(once, parse).height < once.height;
  }

  // ---------------------------------------------------------------------
  // DataVisualizer.create_chart, up to the plotly call

  datatype ChartKind = Sunburst | Treemap | Icicle

  /** The user's chart settings. Entries read with `settings.get` may be
      absent and are options; the others are always supplied. */
  datatype Settings = Settings(
    pathColumns: Option<seq<string>>,
    chartType: string,
    valuesColumn: Option<string>,
    colorColumn: Option<string>,
    colorScheme: Option<string>,
    width: int,
    height: int)

  /** A value of the keyword-argument map handed to the chart constructor. */
  datatype Param = TableParam(table: Table) | NamesParam(names: seq<string>) | IntParam(n: int) | NameParam(name: string)

  datatype Chart = Chart(kind: ChartKind, params: map<string, Param>)

  const NoHierarchyMessage := "No hierarchy columns selected"

  /** The lookup in the table of chart constructors. */
  function ChartKindNamed(name: string): (k: Option<ChartKind>)
    ensures k.Some? <==> name == "Sunburst" || name == "Treemap" || name == "Icicle"
    ensures k == Some(Sunburst) <==> name == "Sunburst"
    ensures k == Some(Treemap) <==> name == "Treemap"
    ensures k == Some(Icicle) <==> name == "Icicle"
  {
    if name == "Sunburst" then Some(Sunburst)
    else if name == "Treemap" then Some(Treemap)
    else if name == "Icicle" then Some(Icicle)
    else None
  }

  /** The hierarchy columns, with an absent entry read as no column. */
  function PathOf(s: Settings): (path: seq<string>)
    ensures s.pathColumns.None? ==> path == []
    ensures s.pathColumns.Some? ==> path == s.pathColumns.value
  {
    if s.pathColumns.Some? then s.pathColumns.value else []
  }

  /** An optional entry is in use when it is present, non-empty and not the
      sentinel that means "no choice". */
  function Chosen(o: Option<string>, sentinel: string): (inUse: bool)
    ensures inUse <==> o.Some? && |o.value| > 0 && o.value != sentinel
  {
    o.Some? && o.value != "" && o.value != sentinel
  }

  /** The hierarchy columns missing from the table, in path order. */
  function MissingColumns(path: seq<string>, names: seq<string>): (r: seq<string>)
    ensures |r| <= |path|
  {
    if path == [] then []
    else (if path[0] in names then [] else [path[0]]) + MissingColumns(path[1..], names)
  }

  /** Every hierarchy column is a column of the table. */
  predicate AllPresent(path: seq<string>, names: seq<string>)
  {
    forall c :: c in path ==> c in names
  }

  /** The missing list holds exactly the absent hierarchy columns, and is
      empty exactly when every hierarchy column is present. */
  lemma {:induction false} MissingColumnsAre(path: seq<string>, names: seq<string>)
    ensures forall x :: x in MissingColumns(path, names) <==> x in path && x !in names
    ensures MissingColumns(path, names) == [] <==> AllPresent(path, names)
  {
    if path != [] {
      MissingColumnsAre(path[1..], names);
      assert forall x :: x in path <==> x == path[0] || x in path[1..];
      if path[0] !in names {
        assert path[0] in MissingColumns(path, names);
      }
    }
  }

  /** The summed length of the parts. */
  function TotalLength(parts: seq<string>): nat
  {
    if parts == [] then 0 else |parts[0]| + TotalLength(parts[1..])
  }

  /** Python's `sep.join(parts)`: the parts in order with one separator
      between neighbours, so the text starts with the first part. */
  function Join(parts: seq<string>, sep: string): (r: string)
    ensures parts == [] ==> r == ""
    ensures parts != [] ==> |r| == TotalLength(parts) + (|parts| - 1) * |sep|
    ensures parts != [] ==> parts[0] <= r
  {
    if |parts| == 0 then ""
    else if |parts| == 1 then parts[0]
    else parts[0] + sep + Join(parts[1..], sep)
  }

  /** `x` occurs in `s` starting at position `i`. */
  predicate OccursAt(x: string, s: string, i: nat)
  {
    i + |x| <= |s| && s[i..i + |x|] == x
  }

  ghost predicate IsInfix(x: string, s: string)
  {
    exists i: nat :: OccursAt(x, s, i)
  }

  function MissingColumnsMessage(missing: seq<string>): string
  {
    "Columns not found in data: " + Join(missing, ", ")
  }

  function ValuesNotFoundMessage(name: string): string
  {
    "Values column '" + name + "' not found in data"
  }

  function ColorNotFoundMessage(name: string): string
  {
    "Color column '" + name + "' not found in data"
  }

  /** The keys a successful call always sets. */
  const BaseKeys: set<string> := {"data_frame", "path", "width", "height"}

  /** A chosen values or colour column names a column of the table. */
  predicate Resolves(o: Option<string>, names: seq<string>)
  {
    Chosen(o, "None") ==> o.value in names
  }

  /** The keys of a successful call: the base keys plus one per option in
      use. */
  function ExpectedKeys(s: Settings): set<string>
  {
    BaseKeys
      + (if Chosen(s.valuesColumn, "None") then {"values"} else {})
      + (if Chosen(s.colorColumn, "None") then {"color"} else {})
      + (if Chosen(s.colorScheme, "Default") then {"color_continuous_scale"} else {})
  }

  /** The keyword arguments of the chart constructor, once every check has
      passed: the table, the path, the size, and each option in use. */
  function Params(df: Table, s: Settings): (p: map<string, Param>)
    ensures p.Keys == ExpectedKeys(s)
    ensures p["data_frame"] == TableParam(df)
    ensures p["path"] == NamesParam(PathOf(s))
    ensures p["width"] == IntParam(s.width) && p["height"] == IntParam(s.height)
    ensures "values" in p ==> p["values"] == NameParam(s.valuesColumn.value)
    ensures "color" in p ==> p["color"] == NameParam(s.colorColumn.value)
    ensures "color_continuous_scale" in p ==> p["color_continuous_scale"] == NameParam(s.colorScheme.value)
  {
    var base := map["data_frame" := TableParam(df), "path" := NamesParam(PathOf(s)),
                    "width" := IntParam(s.width), "height" := IntParam(s.height)];
    var withValues := if Chosen(s.valuesColumn, "None") then base["values" := NameParam(s.valuesColumn.value)] else base;
    var withColor := if Chosen(s.colorColumn, "None") then withValues["color" := NameParam(s.colorColumn.value)] else withValues;
    if Chosen(s.colorScheme, "Default") then withColor["color_continuous_scale" := NameParam(s.colorScheme.value)] else withColor
  }

  /** Checks the settings, first failure wins, and assembles the keyword
      arguments of the chart constructor. */
  function CreateChart(df: Table, s: Settings): (r: Result<Chart, string>)
    ensures PathOf(s) == [] ==> r == Failure(NoHierarchyMessage)
    ensures PathOf(s) != [] && ChartKindNamed(s.chartType).None? ==>
              r == Failure("Invalid chart type: " + s.chartType)
    ensures PathOf(s) != [] && ChartKindNamed(s.chartType).Some? && !AllPresent(PathOf(s), Names(df)) ==>
              r == Failure(MissingColumnsMessage(MissingColumns(PathOf(s), Names(df))))
    ensures PathOf(s) != [] && ChartKindNamed(s.chartType).Some? && AllPresent(PathOf(s), Names(df))
            && !Resolves(s.valuesColumn, Names(df)) ==>
              r == Failure(ValuesNotFoundMessage(s.valuesColumn.value))
    ensures PathOf(s) != [] && ChartKindNamed(s.chartType).Some? && AllPresent(PathOf(s), Names(df))
            && Resolves(s.valuesColumn, Names(df)) && !Resolves(s.colorColumn, Names(df)) ==>
              r == Failure(ColorNotFoundMessage(s.colorColumn.value))
    ensures r.Success? <==>
              && PathOf(s) != [] && ChartKindNamed(s.chartType).Some? && AllPresent(PathOf(s), Names(df))
              && Resolves(s.valuesColumn, Names(df)) && Resolves(s.colorColumn, Names(df))
    ensures r.Success? ==> Some(r.value.kind) == ChartKindNamed(s.chartType) && r.value.params == Params(df, s)
  {
    var path := PathOf(s);
    if path == [] then Failure(NoHierarchyMessage)
    else match ChartKindNamed(s.chartType)
      case None => Failure("Invalid chart type: " + s.chartType)
      case Some(kind) =>
        var missing := MissingColumns(path, Names(df));
        MissingColumnsAre(path, Names(df));
        if missing != [] then Failure(MissingColumnsMessage(missing))
        else if !Resolves(s.valuesColumn, Names(df)) then Failure(ValuesNotFoundMessage(s.valuesColumn.value))
        else if !Resolves(s.colorColumn, Names(df)) then Failure(ColorNotFoundMessage(s.colorColumn.value))
        else Success(Chart(kind, Params(df, s)))
  }

  /** The missing hierarchy columns of a split path are those of its parts,
      in the same order: the list follows path order. */
  lemma {:induction false} MissingColumnsFollowPathOrder(a: seq<string>, b: seq<string>, names: seq<string>)
    ensures MissingColumns(a + b, names) == MissingColumns(a, names) + MissingColumns(b, names)
  {
    if a != [] {
      assert (a + b)[0] == a[0];
      assert (a + b)[1..] == a[1..] + b;
      MissingColumnsFollowPathOrder(a[1..], b, names);
      var head := if a[0] in names then [] else [a[0]];
      assert MissingColumns(a + b, names) == head + MissingColumns(a[1..] + b, names);
      assert MissingColumns(a, names) == head + MissingColumns(a[1..], names);
    } else {
      assert a + b == b;
    }
  }

  /** Every part occurs in the joined text. */
  lemma {:induction false} JoinMentionsEachPart(parts: seq<string>, sep: string, k: nat)
    requires k < |parts|
    ensures IsInfix(parts[k], Join(parts, sep))
  {
    var s := Join(parts, sep);
    if k == 0 {
      assert s[0..|parts[0]|] == parts[0];
      assert OccursAt(parts[0], s, 0);
    } else {
      JoinMentionsEachPart(parts[1..], sep, k - 1);
      var rest := Join(parts[1..], sep);
      var i: nat :| OccursAt(parts[k], rest, i);
      var off := |parts[0]| + |sep|;
      assert s == parts[0] + sep + rest;
      assert s[off + i..off + i + |parts[k]|] == rest[i..i + |parts[k]|];
      assert OccursAt(parts[k], s, off + i);
    }
  }

  /** When the chart fails on missing hierarchy columns, its message names
      every one of them. */
  lemma MissingColumnsAllNamed(df: Table, s: Settings, c: string)
    requires PathOf(s) != [] && ChartKindNamed(s.chartType).Some?
    requires c in PathOf(s) && c !in Names(df)
    ensures CreateChart(df, s).Failure?
    ensures IsInfix(c, CreateChart(df, s).error)
  {
    var missing := MissingColumns(PathOf(s), Names(df));
    MissingColumnsAre(PathOf(s), Names(df));
    var k :| 0 <= k < |missing| && missing[k] == c;
    JoinMentionsEachPart(missing, ", ", k);
    var msg := MissingColumnsMessage(missing);
    var j := Join(missing, ", ");
    var i: nat :| OccursAt(c, j, i);
    var off := |"Columns not found in data: "|;
    assert msg[off + i..off + i + |c|] == j[i..i + |c|];
    assert OccursAt(c, msg, off + i);
  }

  /** A single absent hierarchy column `X` gives exactly that column's name
      in the message. */
  lemma AbsentColumnNamed(df: Table, s: Settings)
    requires s.pathColumns == Some(["X"]) && "X" !in Names(df)
    requires ChartKindNamed(s.chartType).Some?
    ensures CreateChart(df, s) == Failure("Columns not found in data: X")
  {
    assert MissingColumns(["X"], Names(df)) == ["X"];
    assert Join(["X"], ", ") == "X";
    assert MissingColumnsMessage(["X"]) == "Columns not found in data: X";
  }

  /** The colour scale is attached whenever a scheme other than `Default`
      is chosen, with no colour column at all: the combination is not
      checked. */
  lemma ColorSchemeNotCheckedAgainstColor(df: Table, s: Settings)
    requires CreateChart(df, s).Success?
    requires Chosen(s.colorScheme, "Default") && !Chosen(s.colorColumn, "None")
    ensures "color_continuous_scale" in CreateChart(df, s).value.params
    ensures "color" !in CreateChart(df, s).value.params
  {
  }

  /** The settings of a sunburst over Region and Country sized by `values`,
      with no colouring column, the default scheme, and an 800 by 800 size. */
  function SunburstSettings(values: string): Settings
  {
    Settings(Some(["Region", "Country"]), "Sunburst", Some(values), Some("None"), Some("Default"), 800, 800)
  }

  /** On a table whose columns are Region, Country and Sales, the sunburst
      sized by Sales is built with a two-level path, a values key and no
      colour key. */
  lemma SunburstScenario(df: Table)
    requires Names(df) == ["Region", "Country", "Sales"]
    ensures var r := CreateChart(df, SunburstSettings("Sales"));
      && r.Success? && r.value.kind == Sunburst
      && r.value.params.Keys == {"data_frame", "path", "width", "height", "values"}
      && r.value.params["path"] == NamesParam(["Region", "Country"])
      && r.value.params["values"] == NameParam("Sales")
  {
    var st := SunburstSettings("Sales");
    assert AllPresent(PathOf(st), Names(df));
    assert Resolves(st.valuesColumn, Names(df));
    assert !Chosen(st.colorColumn, "None") && !Chosen(st.colorScheme, "Default");
  }

  /** The same settings with a values column absent from the table fail
      with "Values column 'Nonexistent' not found in data", and build
      nothing. */
  lemma NonexistentValuesScenario(df: Table)
    requires Names(df) == ["Region", "Country", "Sales"]
    ensures CreateChart(df, SunburstSettings("Nonexistent"))
              == Failure(ValuesNotFoundMessage("Nonexistent"))
  {
    var st := SunburstSettings("Nonexistent");
    assert AllPresent(PathOf(st), Names(df));
    assert !Resolves(st.valuesColumn, Names(df));
  }
}
