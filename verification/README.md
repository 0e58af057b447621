# Hierarchical data visualizer: verified model of its data preparation and chart parameters

The visualizer takes a CSV table, validates it, cleans it, and turns the
user's chart settings (chart type, hierarchy columns, optional values and
colour columns, colour scheme, width, height) into the keyword arguments of
a sunburst, treemap or icicle constructor. This project models the three
parts of that with decidable behaviour, in Dafny:

- `dataframe.dfy`, module `DataFrame`: the table (named columns of cells
  that are missing, numeric, or text, plus the length of the row index),
  and the pandas operations the cleaning relies on: `dropna(how='all')` on
  rows and on columns, replacing the two infinities by a missing value,
  `Index.duplicated`, and `pd.to_numeric` on one column, all or nothing.
- `visualization.dfy`, module `Visualization`: `validate_data` with its
  four ordered messages, `process_data` (drops, then infinities, then the
  conversion loop over the columns), and `DataVisualizer.create_chart` as a
  pure function from the table and a settings record to either an error
  message or the chart kind with its parameter map.
- `utils.dfy`, module `Utils`: the alternate `validate_data` (a boolean,
  no duplicate check) and `process_data` (no infinity replacement).

Each `process_data` is a method whose conversion loop is proved equal to a
specification function (`CoerceAll` of the dropped table); what the
cleaning promises is proved about those functions as lemmas.

Modelling choices:

- Numeric-string parsing is a parameter `parse: string -> Reading`, where
  a reading is a number, NaN (as `pd.to_numeric` reads the empty string),
  or a rejection, so no float semantics are assumed; a number may even be
  an infinity, as `pd.to_numeric("inf")` gives.
- A column of dtype `object` is modelled as a column holding at least one
  string, which is what the CSV reader produces.
- Settings entries read with `settings.get` are options; `chart_type`,
  `width` and `height` are read with `settings[...]` and are plain fields.
- `'None'` (values and colour columns) and `'Default'` (colour scheme) are
  the sentinels that leave a key out, as is an absent or empty entry.

Facts about the code that the model makes explicit:

- The sentinel that leaves out a values or colour column is the string
  `'None'` (and `'Default'` for the colour scheme), compared exactly.
- Only the validator of `visualization.py` rejects repeated column labels;
  the one of `utils.py` accepts them (`Utils.RepeatedNamesAccepted`).
- The cleaning of `utils.py` is idempotent on any table in which no string
  reads as NaN (`Utils.ProcessIdempotent`); a table read by `pd.read_csv`
  is such a table. The cleaning of `visualization.py` is not idempotent
  even then: it clears infinities after the drops, so a row made of missing
  and infinite cells survives as an all-missing row, which a second pass
  drops (`Visualization.InfinityRowSurvivesAsEmptyRow`,
  `Visualization.CleaningNotIdempotent`). When a string does read as NaN
  (the empty string), a row of such strings and missing cells breaks the
  idempotence of `utils.py` in the same way
  (`Utils.BlankRowBreaksIdempotence`).
- Both conversion loops leave alone every column whose label another
  column shares: `df[label]` is then a table, so its `.dtype` (in
  `visualization.py`) or `pd.to_numeric` (in `utils.py`) raises, and the
  `except` keeps the column (`DataFrame.SharedLabelNotConverted`).

## Model

| member | source | states |
|---|---|---|
| `DataFrame.MarkDuplicates` | visualization-app/src/visualization.py:19 | a label is flagged exactly when it was seen before or occurred earlier in the list |
| `DataFrame.DuplicatedAnyIffRepeated` | visualization-app/src/visualization.py:19 | `columns.duplicated().any()` holds exactly when two column labels are equal |
| `DataFrame.DropEmptyRows` | visualization-app/src/visualization.py:27 | dropping all-missing rows keeps the table rectangular and keeps every column label |
| `DataFrame.DropEmptyColumns` | visualization-app/src/visualization.py:28 | dropping all-missing columns keeps the table rectangular and keeps the row count |
| `DataFrame.RowDropKeepsColumnData` | visualization-app/src/visualization.py:27-28 | after the row drop a column holds a value exactly when it held one before, so the column drop sees the original columns' emptiness |
| `DataFrame.DropsKeepExactlyData` | visualization-app/src/visualization.py:27-28 | the two drops keep exactly the rows and the columns that held a value, in original relative order with unchanged cells and labels, and leave no all-missing row or column (the same two lines in utils.py:14-15) |
| `DataFrame.DropsIdentityOnCleanTable` | visualization-app/src/utils.py:14-15 | on a table without all-missing rows or columns both drops return the table unchanged |
| `DataFrame.ReplaceInfinities` | visualization-app/src/visualization.py:31 | the replacement keeps the table's shape and labels |
| `DataFrame.ReplaceInfinitiesCells` | visualization-app/src/visualization.py:31 | no infinity is left, an infinite cell becomes missing, every other cell is unchanged |
| `DataFrame.ToNumeric` | visualization-app/src/visualization.py:37 | column conversion succeeds exactly when every cell has a reading, and then each cell is its own reading: a string becomes its number, or a missing value when it reads as NaN; numbers and missing values stay |
| `DataFrame.CoerceColumn` | visualization-app/src/visualization.py:36-37 | the conversion of one column keeps its label and its length |
| `DataFrame.CoerceAllOrNothing` | visualization-app/src/utils.py:18-22 | a column is either returned exactly as it was (not textual, or some string has no reading) or fully converted with no string left; a cell ends up missing exactly when it was missing or was a string read as NaN |
| `DataFrame.CoerceColumnIdempotent` | visualization-app/src/utils.py:18-22 | converting an already converted column changes nothing |
| `DataFrame.ConversionIsPerColumn` | visualization-app/src/utils.py:18-22 | a column's conversion depends only on that column and on whether another column shares its label, so a failure in another column never changes it |
| `DataFrame.SharedLabelNotConverted` | visualization-app/src/visualization.py:35-39 | a column whose label another column has is left unconverted, since `df[col]` is then a table and the `except` moves on (the same at utils.py:19-22) |
| `DataFrame.DistinctLabelsConvertEachColumn` | visualization-app/src/visualization.py:34-39 | with distinct labels every column receives its own conversion |
| `DataFrame.CoerceAt` | visualization-app/src/utils.py:18-22 | what the loop leaves in one column keeps its label and length |
| `DataFrame.CoerceAll` | visualization-app/src/visualization.py:34-39 | the table after the whole conversion loop is rectangular with the same height and labels |
| `DataFrame.CoerceAllKeepsShape` | visualization-app/src/visualization.py:34-39 | the conversion loop keeps the shape and the labels, a converted cell is missing only if it was missing or a string read as NaN, and without such strings a table with no all-missing row or column keeps that property |
| `DataFrame.CoerceAllIdempotent` | visualization-app/src/utils.py:18-22 | running the conversion loop twice gives the result of running it once |
| `DataFrame.CoercionExamples` | visualization-app/src/visualization.py:36-37 | `["1","2","3"]` becomes `[1,2,3]`, `["1","2","x"]` is left unchanged, and `["1",""]` becomes `[1, missing]` |
| `Visualization.ValidateData` | visualization-app/src/visualization.py:8-21 | valid exactly for a present, non-empty table with at least two distinct-labelled columns; otherwise the message of the first failing check in the order no data, empty, fewer than two columns, duplicate labels; the message is empty exactly when valid |
| `Visualization.FewColumnsRejected` | visualization-app/src/visualization.py:15-18 | a table with fewer than two columns is rejected whatever its row count, as empty or as too narrow |
| `Visualization.RepeatedNameRejected` | visualization-app/src/visualization.py:19-20 | columns `a`, `a`, `b` with at least one row get the duplicate-labels message |
| `Visualization.Processed` | visualization-app/src/visualization.py:23-44 | the cleaned table is rectangular and has no more rows and no more columns than the input |
| `Visualization.ProcessData` | visualization-app/src/visualization.py:23-44 | the cleaning returns the drops, then the infinity replacement, then the conversion of every textual column, in that order |
| `Visualization.ConvertObjectColumns` | visualization-app/src/visualization.py:34-39 | the loop over all columns leaves a column whose label is shared as it is, and converts every other column exactly as `CoerceColumn` of that column alone |
| `Visualization.ReplaceThenConvertCells` | visualization-app/src/visualization.py:31-39 | after replacement and conversion an infinite cell is missing, a string is kept or replaced by its reading (a number, or missing when read as NaN), and any other cell is kept |
| `Visualization.ProcessedKeepsDataRowsAndColumns` | visualization-app/src/visualization.py:27-39 | the cleaned table has exactly the input rows and columns that held a value, in order, each cell cleaned as above |
| `Visualization.InfinityRowSurvivesAsEmptyRow` | visualization-app/src/visualization.py:27-31 | a row whose cells are all missing or infinite, with at least one infinity, is kept by the drops and its new position is an all-missing row of the cleaned table |
| `Visualization.CleaningNotIdempotent` | visualization-app/src/visualization.py:27-31 | for such a table, cleaning a second time changes the result |
| `Visualization.ChartKindNamed` | visualization-app/src/visualization.py:76-84 | exactly `Sunburst`, `Treemap` and `Icicle` name a chart constructor, each its own |
| `Visualization.PathOf` | visualization-app/src/visualization.py:73 | an absent hierarchy entry reads as no hierarchy column, a present one as its list |
| `Visualization.Chosen` | visualization-app/src/visualization.py:100 | an optional entry is in use exactly when it is present, non-empty and not the sentinel (the same test at :105 and :110) |
| `Visualization.MissingColumns` | visualization-app/src/visualization.py:87 | the missing list is never longer than the hierarchy |
| `Visualization.MissingColumnsAre` | visualization-app/src/visualization.py:87 | the list holds exactly the hierarchy columns absent from the table, and is empty exactly when every hierarchy column is present |
| `Visualization.MissingColumnsFollowPathOrder` | visualization-app/src/visualization.py:87 | the missing columns of a concatenated path are those of its parts, in path order |
| `Visualization.Join` | visualization-app/src/visualization.py:89 | the joined text is the parts with one separator between neighbours: its length is their total plus one separator per gap, and it starts with the first part |
| `Visualization.JoinMentionsEachPart` | visualization-app/src/visualization.py:89 | every name occurs in the `', '`-joined text |
| `Visualization.Params` | visualization-app/src/visualization.py:92-111 | the parameters hold the table, the path in order, width and height unchanged, `values`, `color` and `color_continuous_scale` exactly when chosen (present, non-empty, not the sentinel), each with its setting, and no other key |
| `Visualization.CreateChart` | visualization-app/src/visualization.py:70-111 | fail-fast checks in order (no hierarchy, unknown chart type, missing hierarchy columns, values column, colour column) each with its message; success exactly when all pass, and then the chart kind is the named one and the parameters are those above |
| `Visualization.MissingColumnsAllNamed` | visualization-app/src/visualization.py:86-89 | once path and chart type pass, every absent hierarchy column appears in the error message |
| `Visualization.AbsentColumnNamed` | visualization-app/src/visualization.py:86-89 | path `["X"]` with `X` absent fails with "Columns not found in data: X" |
| `Visualization.ColorSchemeNotCheckedAgainstColor` | visualization-app/src/visualization.py:110-111 | a colour scheme is attached even when no colour column is chosen |
| `Visualization.SunburstScenario` | visualization-app/src/visualization.py:92-111 | on any table with columns Region, Country and Sales, a sunburst over Region and Country sized by Sales with colour `None` and scheme `Default` succeeds with a two-level path, a `values` key and no `color` or `color_continuous_scale` key |
| `Visualization.NonexistentValuesScenario` | visualization-app/src/visualization.py:100-102 | the same settings with values column `Nonexistent` fail with "Values column 'Nonexistent' not found in data" |
| `Utils.ValidateData` | visualization-app/src/utils.py:3-9 | true exactly for a table with rows and at least two columns |
| `Utils.ValidatorsDifferOnlyOnDuplicates` | visualization-app/src/utils.py:3-9 | this validator accepts exactly what the other accepts plus what the other rejects only for repeated labels |
| `Utils.RepeatedNamesAccepted` | visualization-app/src/utils.py:5-9 | labels `a`, `a` with rows are accepted here and rejected by the other validator |
| `Utils.Processed` | visualization-app/src/utils.py:11-24 | the cleaned table is rectangular and has no more rows and no more columns than the input |
| `Utils.ObjectColumns` | visualization-app/src/utils.py:18 | the positions listed for conversion are increasing and within the table |
| `Utils.ObjectColumnsAre` | visualization-app/src/utils.py:18 | the columns listed for conversion are, in order, exactly the textual ones |
| `Utils.ProcessData` | visualization-app/src/utils.py:11-24 | the cleaning returns the drops followed by the conversion of every textual column |
| `Utils.ConvertObjectColumns` | visualization-app/src/utils.py:18-22 | the loop over the textual columns gives each column whose label is its own its all-or-nothing conversion, and leaves the columns with a shared label and the non-textual ones |
| `Utils.ProcessedHasNoEmptyRowsOrColumns` | visualization-app/src/utils.py:14-22 | the cleaned table keeps exactly the input rows and columns holding a value, in order, each column the kept column converted or not; when no string reads as NaN it has no all-missing row or column |
| `Utils.ProcessIdempotent` | visualization-app/src/utils.py:11-24 | cleaning a cleaned table changes nothing, when no string of the table reads as NaN |
| `Utils.BlankRowSurvivesAsEmptyRow` | visualization-app/src/utils.py:14-22 | a row whose cells are all missing or strings read as NaN, each in a column that converts, is kept by the drops and is all missing after conversion |
| `Utils.BlankRowBreaksIdempotence` | visualization-app/src/utils.py:11-24 | for such a table, cleaning a second time changes the result |

## Left out

- Streamlit user interface and session state (page set-up, sidebar widgets, sliders, file upload, buttons, preview, `initialize_session_state` defaults, the "Please select at least one hierarchy column" guard in `run`): widget wiring with no decidable behaviour of its own.
- CSV parsing with `pd.read_csv`: an external library reading I/O; the model starts from a parsed table.
- The plotly call and `update_layout` (fixed margins and title position): foreign calls; `Visualization.CreateChart` stops at the chart kind and the parameter map.
- HTML and JSON downloads (`write_html`, `to_json`): library serialisation and output.
- Floating-point values and numeric-string parsing: numbers are reals or a signed infinity, NaN and `pd.NA` are one missing cell, and parsing is the abstract `parse` parameter; dtype inference is reduced to "the column holds a string".
- Reporting: `st.error`, the "Show detailed error" checkbox and tracebacks; a failure of `create_chart` is the returned message, without the "Error creating visualization: " prefix the UI shows.
- Visualization.ProcessData: the outer `try`/`except` that reports an error and returns a partially cleaned table is not modelled: the drops and the replacement do not raise, and what the conversion loop raises is caught by its own `except`, which is modelled.
- Which strings `pd.to_numeric` reads as a number, as NaN or not at all is the abstract parser; only the empty string read as NaN is used in an example.
- Visualization.CreateChart: a settings dictionary without `chart_type`, `width` or `height` raises `KeyError` in the source; the model's settings record always has these fields, as the UI always supplies them.
- Visualization.ValidateData: a table object that is not a data frame (anything other than a table or `None`) is not modelled.
