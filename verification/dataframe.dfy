/** A model of the small part of a pandas DataFrame that the visualizer's
    cleaning code relies on: named columns of cells, `dropna(how='all')` on
    rows and on columns, replacing infinities by a missing marker, and the
    all-or-nothing conversion of a textual column to numbers. */
module DataFrame {

  datatype Option<+T> = None | Some(value: T)

  datatype Result<+R, +E> = Success(value: R) | Failure(error: E)

  /** A float value as pandas stores it; NaN is a missing cell, not a number. */
  datatype Number = Finite(value: real) | Infinite(negative: bool)

  /** One cell of a table: missing (NaN, None, pd.NA), numeric, or a string. */
  datatype Cell = Missing | Num(n: Number) | Text(s: string)

  datatype Column = Column(name: string, cells: seq<Cell>)

  /** A table stored column by column. `height` is the length of the row
      index, which a table keeps even when it has no column left. */
  datatype Table = Table(columns: seq<Column>, height: nat)

  /** How `pd.to_numeric` reads one string: as a number (an infinity
      included), as NaN (pandas reads the empty string so), or not at all. */
  datatype Reading = Rejected | Value(n: Number) | NotANumber

  /** The numeric-string parser is left abstract. */
  type Parser = string -> Reading

  predicate WellFormed(t: Table)
  {
    forall j :: 0 <= j < |t.columns| ==> |t.columns[j].cells| == t.height
  }

  /** The column labels, `df.columns`. */
  function Names(t: Table): (r: seq<string>)
    ensures |r| == |t.columns|
    ensures forall j :: 0 <= j < |r| ==> r[j] == t.columns[j].name
  {
    seq(|t.columns|, j requires 0 <= j < |t.columns| => t.columns[j].name)
  }

  /** `df.empty`: no row or no column. */
  predicate IsEmpty(t: Table)
  {
    t.height == 0 || |t.columns| == 0
  }

  predicate Distinct(names: seq<string>)
  {
    forall i, j :: 0 <= i < j < |names| ==> names[i] != names[j]
  }

  /** `Index.duplicated(keep='first')` scanned with the set of labels seen
      so far: a label is flagged when it occurred before. */
  function MarkDuplicates(names: seq<string>, seen: set<string>): (r: seq<bool>)
    ensures |r| == |names|
    ensures forall i :: 0 <= i < |names| ==> (r[i] <==> names[i] in seen || names[i] in names[..i])
  {
    if names == [] then []
    else
      var rest := MarkDuplicates(names[1..], seen + {names[0]});
      assert forall i :: 1 <= i < |names| ==> names[..i] == [names[0]] + names[1..][..i - 1];
      [names[0] in seen] + rest
  }

  function Duplicated(names: seq<string>): seq<bool>
  {
    MarkDuplicates(names, {})
  }

  /** `duplicated().any()` holds exactly when some label repeats. */
  lemma DuplicatedAnyIffRepeated(names: seq<string>)
    ensures (true in Duplicated(names)) <==> !Distinct(names)
  {
    var d := Duplicated(names);
    if true in d {
      var i :| 0 <= i < |d| && d[i];
      var j :| 0 <= j < i && names[j] == names[i];
    } else {
      forall i, j | 0 <= i < j < |names| ensures names[i] != names[j] {
        assert !d[j];
        assert names[i] == names[..j][i];
      }
    }
  }

  // ---------------------------------------------------------------------
  // dropna(how='all')

  predicate Increasing(idx: seq<nat>)
  {
    forall a, b :: 0 <= a < b < |idx| ==> idx[a] < idx[b]
  }

  /** The positions below `n` that satisfy `p`, in ascending order. */
  function Select(n: nat, p: nat -> bool): (r: seq<nat>)
    ensures |r| <= n
    ensures Increasing(r)
    ensures forall k :: 0 <= k < |r| ==> r[k] < n && p(r[k])
    ensures forall i :: 0 <= i < n && p(i) ==> i in r
  {
    if n == 0 then []
    else Select(n - 1, p) + (if p(n - 1) then [n - 1] else [])
  }

  /** The positions `idx` of `cells`, in the order given. */
  function Pick(cells: seq<Cell>, idx: seq<nat>): (r: seq<Cell>)
    requires forall k :: 0 <= k < |idx| ==> idx[k] < |cells|
    ensures |r| == |idx|
    ensures forall k :: 0 <= k < |idx| ==> r[k] == cells[idx[k]]
  {
    seq(|idx|, k requires 0 <= k < |idx| => cells[idx[k]])
  }

  predicate HasData(c: Column)
  {
    exists i :: 0 <= i < |c.cells| && c.cells[i] != Missing
  }

  predicate RowHasData(t: Table, i: nat)
  {
    exists j :: 0 <= j < |t.columns| && i < |t.columns[j].cells| && t.columns[j].cells[i] != Missing
  }

  predicate NoEmptyRows(t: Table)
  {
    forall i: nat :: i < t.height ==> RowHasData(t, i)
  }

  predicate NoEmptyColumns(t: Table)
  {
    forall j :: 0 <= j < |t.columns| ==> HasData(t.columns[j])
  }

  /** The rows that hold at least one value, in order. */
  function KeptRows(t: Table): seq<nat>
  {
    Select(t.height, (i: nat) => RowHasData(t, i))
  }

  /** The columns that hold at least one value, in order. */
  function KeptColumns(t: Table): seq<nat>
  {
    Select(|t.columns|, (j: nat) => j < |t.columns| && HasData(t.columns[j]))
  }

  lemma KeptRowsAre(t: Table)
    ensures var rows := KeptRows(t);
      && Increasing(rows) && |rows| <= t.height
      && (forall k :: 0 <= k < |rows| ==> rows[k] < t.height)
      && (forall i: nat :: i < t.height ==> (i in rows <==> RowHasData(t, i)))
  {
    var p := (i: nat) => RowHasData(t, i);
    assert KeptRows(t) == Select(t.height, p);
    forall i: nat | i < t.height && RowHasData(t, i) ensures i in KeptRows(t) {
      assert p(i);
    }
  }

  lemma KeptColumnsAre(t: Table)
    ensures var cols := KeptColumns(t);
      && Increasing(cols) && |cols| <= |t.columns|
      && (forall a :: 0 <= a < |cols| ==> cols[a] < |t.columns|)
      && (forall j :: 0 <= j < |t.columns| ==> (j in cols <==> HasData(t.columns[j])))
  {
    var p := (j: nat) => j < |t.columns| && HasData(t.columns[j]);
    assert KeptColumns(t) == Select(|t.columns|, p);
    forall j | 0 <= j < |t.columns| && HasData(t.columns[j]) ensures j in KeptColumns(t) {
      assert p(j);
    }
    forall a | 0 <= a < |KeptColumns(t)| ensures HasData(t.columns[KeptColumns(t)[a]]) {
      assert p(KeptColumns(t)[a]);
    }
  }

  /** `df.dropna(how='all')`: removes every row whose cells are all missing. */
  function DropEmptyRows(t: Table): (r: Table)
    requires WellFormed(t)
    ensures WellFormed(r) && Names(r) == Names(t)
  {
    var rows := KeptRows(t);
    Table(seq(|t.columns|, j requires 0 <= j < |t.columns| =>
                Column(t.columns[j].name, Pick(t.columns[j].cells, rows))),
          |rows|)
  }

  /** `df.dropna(axis=1, how='all')`: removes every column whose cells are all missing. */
  function DropEmptyColumns(t: Table): (r: Table)
    requires WellFormed(t)
    ensures WellFormed(r) && r.height == t.height
  {
    var cols := KeptColumns(t);
    Table(seq(|cols|, k requires 0 <= k < |cols| => t.columns[cols[k]]), t.height)
  }

  /** `r` is `t` restricted to the rows `rows` and the columns `cols`, which
      are exactly the rows and the columns of `t` holding a value, each kept
      in its original relative order and with its cells unchanged. */
  predicate KeepsExactly(t: Table, r: Table, rows: seq<nat>, cols: seq<nat>)
  {
    && WellFormed(t) && WellFormed(r)
    && Increasing(rows) && Increasing(cols)
    && (forall k :: 0 <= k < |rows| ==> rows[k] < t.height)
    && (forall a :: 0 <= a < |cols| ==> cols[a] < |t.columns|)
    && (forall i: nat :: i < t.height ==> (i in rows <==> RowHasData(t, i)))
    && (forall j :: 0 <= j < |t.columns| ==> (j in cols <==> HasData(t.columns[j])))
    && r.height == |rows| && |r.columns| == |cols|
    && (forall a :: 0 <= a < |cols| ==> r.columns[a].name == t.columns[cols[a]].name)
    && (forall a, b :: 0 <= a < |cols| && 0 <= b < |rows| ==>
          r.columns[a].cells[b] == t.columns[cols[a]].cells[rows[b]])
  }

  lemma {:induction false} SelectExtensional(n: nat, p: nat -> bool, q: nat -> bool)
    requires forall i :: 0 <= i < n ==> p(i) == q(i)
    ensures Select(n, p) == Select(n, q)
  {
    if n > 0 {
      SelectExtensional(n - 1, p, q);
    }
  }

  /** Dropping empty rows first cannot empty a column: a column keeps a value
      exactly when it had one. */
  lemma RowDropKeepsColumnData(t: Table, j: nat)
    requires WellFormed(t) && j < |t.columns|
    ensures HasData(DropEmptyRows(t).columns[j]) <==> HasData(t.columns[j])
  {
    var rows := KeptRows(t);
    KeptRowsAre(t);
    var before := t.columns[j].cells;
    var after := DropEmptyRows(t).columns[j].cells;
    assert after == Pick(before, rows);
    if HasData(t.columns[j]) {
      var i :| 0 <= i < |before| && before[i] != Missing;
      assert RowHasData(t, i);
      var k :| 0 <= k < |rows| && rows[k] == i;
      assert after[k] != Missing;
    }
    if HasData(DropEmptyRows(t).columns[j]) {
      var k :| 0 <= k < |after| && after[k] != Missing;
      assert before[rows[k]] != Missing;
    }
  }

  /** The column drop after the row drop keeps the columns that held a
      value in the original table. */
  lemma ColumnsKeptAfterRowDrop(t: Table)
    requires WellFormed(t)
    ensures KeptColumns(DropEmptyRows(t)) == KeptColumns(t)
  {
    var mid := DropEmptyRows(t);
    forall j | 0 <= j < |t.columns|
      ensures (j < |mid.columns| && HasData(mid.columns[j])) == (j < |t.columns| && HasData(t.columns[j]))
    {
      RowDropKeepsColumnData(t, j);
    }
    SelectExtensional(|t.columns|, (j: nat) => j < |mid.columns| && HasData(mid.columns[j]),
                      (j: nat) => j < |t.columns| && HasData(t.columns[j]));
  }

  /** Every cell left by the two drops is the original cell at the kept row
      and the kept column. */
  lemma DroppedCells(t: Table)
    requires WellFormed(t)
    ensures var r, rows, cols := DropEmptyColumns(DropEmptyRows(t)), KeptRows(t), KeptColumns(t);
      && WellFormed(r) && r.height == |rows| && |r.columns| == |cols|
      && (forall k :: 0 <= k < |rows| ==> rows[k] < t.height)
      && (forall a :: 0 <= a < |cols| ==> cols[a] < |t.columns|)
      && (forall a :: 0 <= a < |cols| ==> r.columns[a].name == t.columns[cols[a]].name)
      && (forall a, b :: 0 <= a < |cols| && 0 <= b < |rows| ==>
            r.columns[a].cells[b] == t.columns[cols[a]].cells[rows[b]])
  {
    var mid := DropEmptyRows(t);
    var r := DropEmptyColumns(mid);
    KeptRowsAre(t);
    KeptColumnsAre(t);
    ColumnsKeptAfterRowDrop(t);
    forall a | 0 <= a < |r.columns| ensures r.columns[a] == mid.columns[KeptColumns(t)[a]] {
    }
  }

  lemma DropsLeaveNoEmptyColumns(t: Table)
    requires WellFormed(t)
    ensures NoEmptyColumns(DropEmptyColumns(DropEmptyRows(t)))
  {
    var mid := DropEmptyRows(t);
    var r := DropEmptyColumns(mid);
    KeptColumnsAre(mid);
    forall a | 0 <= a < |r.columns| ensures HasData(r.columns[a]) {
      assert r.columns[a] == mid.columns[KeptColumns(mid)[a]];
    }
  }

  lemma DropsLeaveNoEmptyRows(t: Table)
    requires WellFormed(t)
    ensures NoEmptyRows(DropEmptyColumns(DropEmptyRows(t)))
  {
    var r := DropEmptyColumns(DropEmptyRows(t));
    var rows, cols := KeptRows(t), KeptColumns(t);
    DroppedCells(t);
    KeptRowsAre(t);
    KeptColumnsAre(t);
    forall b: nat | b < r.height ensures RowHasData(r, b) {
      var i := rows[b];
      assert RowHasData(t, i);
      var j :| 0 <= j < |t.columns| && i < |t.columns[j].cells| && t.columns[j].cells[i] != Missing;
      assert HasData(t.columns[j]);
      assert j in cols;
      var a :| 0 <= a < |cols| && cols[a] == j;
      assert r.columns[a].cells[b] == t.columns[j].cells[i];
      assert 0 <= a < |r.columns| && b < |r.columns[a].cells|;
    }
  }

  /** The two drops keep exactly the rows and the columns that hold a value,
      in order and unchanged, and leave no all-missing row or column. */
  lemma DropsKeepExactlyData(t: Table)
    requires WellFormed(t)
    ensures KeepsExactly(t, DropEmptyColumns(DropEmptyRows(t)), KeptRows(t), KeptColumns(t))
    ensures NoEmptyRows(DropEmptyColumns(DropEmptyRows(t)))
    ensures NoEmptyColumns(DropEmptyColumns(DropEmptyRows(t)))
  {
    KeptRowsAre(t);
    KeptColumnsAre(t);
    DroppedCells(t);
    DropsLeaveNoEmptyRows(t);
    DropsLeaveNoEmptyColumns(t);
  }

  /** The cells a restriction keeps are cells of the original table, so it
      has no string read as NaN when the original has none. */
  lemma KeptCellsBlankFree(t: Table, r: Table, rows: seq<nat>, cols: seq<nat>, parse: Parser)
    requires KeepsExactly(t, r, rows, cols) && NoBlankReadings(t, parse)
    ensures NoBlankReadings(r, parse)
  {
    forall a, b | 0 <= a < |r.columns| && 0 <= b < |r.columns[a].cells|
      ensures !ReadsAsMissing(r.columns[a].cells[b], parse)
    {
      assert r.columns[a].cells[b] == t.columns[cols[a]].cells[rows[b]];
    }
  }

  function Range(n: nat): (r: seq<nat>)
    ensures |r| == n && forall k :: 0 <= k < n ==> r[k] == k
  {
    seq(n, k requires 0 <= k < n => k)
  }

  lemma {:induction false} SelectAll(n: nat, p: nat -> bool)
    requires forall i :: 0 <= i < n ==> p(i)
    ensures Select(n, p) == Range(n)
  {
    if n > 0 {
      SelectAll(n - 1, p);
      assert Range(n) == Range(n - 1) + [n - 1];
    }
  }

  /** On a table without all-missing rows the row drop changes nothing. */
  lemma RowDropIdentity(t: Table)
    requires WellFormed(t) && NoEmptyRows(t)
    ensures DropEmptyRows(t) == t
  {
    SelectAll(t.height, (i: nat) => RowHasData(t, i));
    var r := DropEmptyRows(t);
    forall j | 0 <= j < |t.columns| ensures r.columns[j] == t.columns[j] {
      assert r.columns[j].cells == Pick(t.columns[j].cells, Range(t.height));
      assert r.columns[j].cells == t.columns[j].cells;
    }
    assert r.columns == t.columns;
  }

  /** On a table without all-missing columns the column drop changes nothing. */
  lemma ColumnDropIdentity(t: Table)
    requires WellFormed(t) && NoEmptyColumns(t)
    ensures DropEmptyColumns(t) == t
  {
    SelectAll(|t.columns|, (j: nat) => j < |t.columns| && HasData(t.columns[j]));
    assert DropEmptyColumns(t).columns == t.columns;
  }

  /** On a table without all-missing rows or columns both drops change nothing. */
  lemma DropsIdentityOnCleanTable(t: Table)
    requires WellFormed(t) && NoEmptyRows(t) && NoEmptyColumns(t)
    ensures DropEmptyRows(t) == t
    ensures DropEmptyColumns(t) == t
  {
    RowDropIdentity(t);
    ColumnDropIdentity(t);
  }

  // ---------------------------------------------------------------------
  // df.replace([inf, -inf], pd.NA)

  predicate IsInfinite(c: Cell)
  {
    c.Num? && c.n.Infinite?
  }

  function ClearInfinity(c: Cell): Cell
  {
    if IsInfinite(c) then Missing else c
  }

  /** Replaces both infinities by the missing marker everywhere in the table. */
  function ReplaceInfinities(t: Table): (r: Table)
    requires WellFormed(t)
    ensures WellFormed(r) && r.height == t.height && Names(r) == Names(t)
  {
    Table(seq(|t.columns|, j requires 0 <= j < |t.columns| =>
                Column(t.columns[j].name,
                       seq(t.height, i requires 0 <= i < t.height => ClearInfinity(t.columns[j].cells[i])))),
          t.height)
  }

  /** No infinity is left, an infinite cell becomes missing, and every other
      cell keeps its value. */
  lemma ReplaceInfinitiesCells(t: Table, j: nat, i: nat)
    requires WellFormed(t) && j < |t.columns| && i < t.height
    ensures var c := ReplaceInfinities(t).columns[j].cells[i];
      && !IsInfinite(c)
      && (IsInfinite(t.columns[j].cells[i]) ==> c == Missing)
      && (!IsInfinite(t.columns[j].cells[i]) ==> c == t.columns[j].cells[i])
  {
  }

  // ---------------------------------------------------------------------
  // pd.to_numeric, all or nothing per column

  /** A column of dtype `object`: one that holds a string. */
  predicate Textual(c: Column)
  {
    exists i :: 0 <= i < |c.cells| && c.cells[i].Text?
  }

  /** The numeric reading of one cell: strings are parsed, numbers and
      missing values are kept as they are. */
  function ParseCell(c: Cell, parse: Parser): Option<Cell>
  {
    match c
    case Text(s) =>
      (match parse(s)
       case Value(x) => Some(Num(x))
       case NotANumber => Some(Missing)
       case Rejected => None)
    case _ => Some(c)
  }

  /** A string that `pd.to_numeric` reads as NaN. */
  predicate ReadsAsMissing(c: Cell, parse: Parser)
  {
    c.Text? && parse(c.s).NotANumber?
  }

  /** No string of the table reads as NaN. This is the case for a table read
      by `pd.read_csv`, which already turns empty fields into NaN. */
  predicate NoBlankReadings(t: Table, parse: Parser)
  {
    forall j, i :: 0 <= j < |t.columns| && 0 <= i < |t.columns[j].cells| ==>
      !ReadsAsMissing(t.columns[j].cells[i], parse)
  }

  /** `pd.to_numeric` on a whole column: either every cell has a numeric
      reading, or the conversion fails as a whole. */
  function ToNumeric(cells: seq<Cell>, parse: Parser): (r: Option<seq<Cell>>)
    ensures r.Some? <==> forall i :: 0 <= i < |cells| ==> ParseCell(cells[i], parse).Some?
    ensures r.Some? ==> |r.value| == |cells|
    ensures r.Some? ==> forall i :: 0 <= i < |cells| ==> r.value[i] == ParseCell(cells[i], parse).value
  {
    if cells == [] then Some([])
    else match ParseCell(cells[0], parse)
      case None => None
      case Some(c) =>
        match ToNumeric(cells[1..], parse)
        case None => None
        case Some(rest) => Some([c] + rest)
  }

  /** The conversion of one column, when `df[col]` is that column: a
      textual column is replaced by its numeric reading when every cell has
      one. */
  function CoerceColumn(c: Column, parse: Parser): (r: Column)
    ensures r.name == c.name && |r.cells| == |c.cells|
  {
    if Textual(c) then
      match ToNumeric(c.cells, parse)
      case Some(cells) => Column(c.name, cells)
      case None => c
    else c
  }

  /** A reading is never a string, and it is missing exactly when the cell
      was missing or was a string read as NaN. */
  lemma ReadingOfCell(x: Cell, parse: Parser)
    requires ParseCell(x, parse).Some?
    ensures !ParseCell(x, parse).value.Text?
    ensures ParseCell(x, parse).value == Missing <==> x == Missing || ReadsAsMissing(x, parse)
  {
  }

  /** A textual column whose every cell has a reading is replaced cell by
      cell by those readings. */
  lemma ConvertedColumn(c: Column, parse: Parser)
    requires Textual(c) && ToNumeric(c.cells, parse).Some?
    ensures var r := CoerceColumn(c, parse);
      && r != c && !Textual(r)
      && (forall i :: 0 <= i < |c.cells| ==> ParseCell(c.cells[i], parse) == Some(r.cells[i]))
      && (forall i :: 0 <= i < |c.cells| ==>
            (r.cells[i] == Missing <==> c.cells[i] == Missing || ReadsAsMissing(c.cells[i], parse)))
  {
    var cells := ToNumeric(c.cells, parse).value;
    var r := CoerceColumn(c, parse);
    assert r == Column(c.name, cells);
    forall i | 0 <= i < |cells|
      ensures ParseCell(c.cells[i], parse) == Some(cells[i])
      ensures !cells[i].Text?
      ensures cells[i] == Missing <==> c.cells[i] == Missing || ReadsAsMissing(c.cells[i], parse)
    {
      ReadingOfCell(c.cells[i], parse);
    }
    var w :| 0 <= w < |c.cells| && c.cells[w].Text?;
    assert r.cells[w] != c.cells[w];
  }

  /** Conversion is all or nothing: the column is either returned exactly as
      it was, or it was textual, every cell had a reading, and every string
      is replaced by its reading while all other cells stay. A cell ends up
      missing exactly when it was missing or was a string read as NaN. */
  lemma CoerceAllOrNothing(c: Column, parse: Parser)
    ensures var r := CoerceColumn(c, parse);
      && r.name == c.name && |r.cells| == |c.cells|
      && (r == c <==> !Textual(c) || exists i :: 0 <= i < |c.cells| && ParseCell(c.cells[i], parse).None?)
      && (r != c ==> && Textual(c) && !Textual(r)
                     && forall i :: 0 <= i < |c.cells| ==> ParseCell(c.cells[i], parse) == Some(r.cells[i]))
      && (forall i :: 0 <= i < |c.cells| ==>
            (r.cells[i] == Missing <==> c.cells[i] == Missing || (r != c && ReadsAsMissing(c.cells[i], parse))))
  {
    if Textual(c) && ToNumeric(c.cells, parse).Some? {
      ConvertedColumn(c, parse);
    } else if Textual(c) {
      var i :| 0 <= i < |c.cells| && ParseCell(c.cells[i], parse).None?;
      assert CoerceColumn(c, parse) == c;
    }
  }

  /** Converting an already converted column changes nothing. */
  lemma CoerceColumnIdempotent(c: Column, parse: Parser)
    ensures CoerceColumn(CoerceColumn(c, parse), parse) == CoerceColumn(c, parse)
  {
    CoerceAllOrNothing(c, parse);
  }

  /** Another column carries the label of column `j`. `df[label]` is then a
      table rather than a column, so asking for its dtype or converting it
      raises, and the loop leaves the column as it is. */
  predicate Shared(names: seq<string>, j: nat)
    requires j < |names|
  {
    exists k :: 0 <= k < |names| && k != j && names[k] == names[j]
  }

  /** What the conversion loop leaves in column `j`. */
  function CoerceAt(t: Table, j: nat, parse: Parser): (r: Column)
    requires j < |t.columns|
    ensures r.name == t.columns[j].name && |r.cells| == |t.columns[j].cells|
  {
    if Shared(Names(t), j) then t.columns[j] else CoerceColumn(t.columns[j], parse)
  }

  /** The conversion step applied to every column. */
  function CoerceAll(t: Table, parse: Parser): (r: Table)
    requires WellFormed(t)
    ensures WellFormed(r) && r.height == t.height && Names(r) == Names(t)
  {
    Table(seq(|t.columns|, j requires 0 <= j < |t.columns| => CoerceAt(t, j, parse)), t.height)
  }

  /** A column's conversion depends on that column and on whether its label
      is shared, and on nothing else: two tables that agree on both agree on
      the column after conversion, whatever their other columns hold or
      whether those parse. */
  lemma ConversionIsPerColumn(t: Table, u: Table, parse: Parser, j: nat)
    requires WellFormed(t) && WellFormed(u)
    requires j < |t.columns| && j < |u.columns| && t.columns[j] == u.columns[j]
    requires Shared(Names(t), j) == Shared(Names(u), j)
    ensures CoerceAll(t, parse).columns[j] == CoerceAll(u, parse).columns[j]
  {
  }

  /** With distinct labels, as the validator of visualization.py demands,
      every column receives its own conversion. */
  lemma DistinctLabelsConvertEachColumn(t: Table, parse: Parser, j: nat)
    requires WellFormed(t) && Distinct(Names(t)) && j < |t.columns|
    ensures CoerceAll(t, parse).columns[j] == CoerceColumn(t.columns[j], parse)
  {
    assert !Shared(Names(t), j);
  }

  /** A column whose label another column shares is never converted. */
  lemma SharedLabelNotConverted(t: Table, parse: Parser, j: nat, k: nat)
    requires WellFormed(t) && j < |t.columns| && k < |t.columns|
    requires j != k && t.columns[j].name == t.columns[k].name
    ensures CoerceAll(t, parse).columns[j] == t.columns[j]
  {
    assert Names(t)[k] == Names(t)[j];
  }

  /** Conversion keeps where the values are, unless a string is read as NaN;
      so a table without such strings and without all-missing rows or
      columns keeps that property. */
  lemma CoerceAllKeepsShape(t: Table, parse: Parser)
    requires WellFormed(t)
    ensures var r := CoerceAll(t, parse);
      && WellFormed(r) && r.height == t.height && Names(r) == Names(t)
      && (forall j, i :: 0 <= j < |t.columns| && 0 <= i < t.height ==>
            (r.columns[j].cells[i] == Missing ==>
               t.columns[j].cells[i] == Missing || ReadsAsMissing(t.columns[j].cells[i], parse)))
      && (NoBlankReadings(t, parse) && NoEmptyRows(t) ==> NoEmptyRows(r))
      && (NoBlankReadings(t, parse) && NoEmptyColumns(t) ==> NoEmptyColumns(r))
  {
    var r := CoerceAll(t, parse);
    forall j | 0 <= j < |t.columns|
      ensures forall i :: 0 <= i < t.height ==>
        (r.columns[j].cells[i] == Missing ==>
           t.columns[j].cells[i] == Missing || ReadsAsMissing(t.columns[j].cells[i], parse))
    {
      CoerceAllOrNothing(t.columns[j], parse);
    }
    if NoBlankReadings(t, parse) && NoEmptyRows(t) {
      forall i: nat | i < t.height ensures RowHasData(r, i) {
        assert RowHasData(t, i);
        var j :| 0 <= j < |t.columns| && i < |t.columns[j].cells| && t.columns[j].cells[i] != Missing;
        assert !ReadsAsMissing(t.columns[j].cells[i], parse);
        assert r.columns[j].cells[i] != Missing;
      }
    }
    if NoBlankReadings(t, parse) && NoEmptyColumns(t) {
      forall j | 0 <= j < |r.columns| ensures HasData(r.columns[j]) {
        assert HasData(t.columns[j]);
        var i :| 0 <= i < |t.columns[j].cells| && t.columns[j].cells[i] != Missing;
        assert !ReadsAsMissing(t.columns[j].cells[i], parse);
        assert r.columns[j].cells[i] != Missing;
      }
    }
  }

  /** Conversion applied twice is conversion applied once. */
  lemma CoerceAllIdempotent(t: Table, parse: Parser)
    requires WellFormed(t)
    ensures WellFormed(CoerceAll(t, parse))
    ensures CoerceAll(CoerceAll(t, parse), parse) == CoerceAll(t, parse)
  {
    var once := CoerceAll(t, parse);
    var twice := CoerceAll(once, parse);
    forall j | 0 <= j < |t.columns| ensures twice.columns[j] == once.columns[j] {
      assert Names(once) == Names(t);
      CoerceColumnIdempotent(t.columns[j], parse);
    }
    assert twice.columns == once.columns;
  }

  /** The examples of the all-or-nothing rule: `["1","2","3"]` becomes
      numeric, `["1","2","x"]` is left as it is, and an empty string in an
      otherwise numeric column becomes a missing value. */
  lemma CoercionExamples(parse: Parser, name: string)
    requires parse("1") == Value(Finite(1.0)) && parse("2") == Value(Finite(2.0))
    requires parse("3") == Value(Finite(3.0)) && parse("x") == Rejected && parse("") == NotANumber
    ensures CoerceColumn(Column(name, [Text("1"), Text("2"), Text("3")]), parse)
         == Column(name, [Num(Finite(1.0)), Num(Finite(2.0)), Num(Finite(3.0))])
    ensures CoerceColumn(Column(name, [Text("1"), Text("2"), Text("x")]), parse)
         == Column(name, [Text("1"), Text("2"), Text("x")])
    ensures CoerceColumn(Column(name, [Text("1"), Text("")]), parse)
         == Column(name, [Num(Finite(1.0)), Missing])
  {
    var good := Column(name, [Text("1"), Text("2"), Text("3")]);
    var bad := Column(name, [Text("1"), Text("2"), Text("x")]);
    var blank := Column(name, [Text("1"), Text("")]);
    assert good.cells[0].Text? && bad.cells[0].Text? && blank.cells[0].Text?;
    assert ParseCell(bad.cells[2], parse).None?;
  }

  /** Leaving out one position makes the selection shorter than the range. */
  lemma {:induction false} SelectMissesOne(n: nat, p: nat -> bool, i: nat)
    requires i < n && !p(i)
    ensures |Select(n, p)| < n
  {
    if i < n - 1 {
      SelectMissesOne(n - 1, p, i);
    }
  }
}
