/** The OCR table validator (`OCRCheckerGUI`): a cursor over a loaded table
    that walks to the cells needing attention, first the invalid ones and
    then the statistical outliers, and lets the operator confirm, empty or
    jump to cells.

    The first half is the validator as pure functions over a `View` of all
    its fields; the `Checker` class holds those fields and its methods, which
    follow the source's statements and loops, are proved to produce exactly
    the view the functions describe. The outlier detector (`find_outliers`,
    a floating-point mean and deviation test) is a parameter. */
module ErrorChecker {
  import opened Wrappers
  import opened Text

  // ---------------------------------------------------------------------
  // Cells and the validity rule

  /** A cell as `pd.read_csv(..., dtype=str)` produces it: text, or the
      missing value of an empty field, which `str()` shows as "nan". */
  datatype Cell = Value(s: string) | Missing

  type Table = seq<seq<Cell>>

  function CellText(c: Cell): string {
    match c
    case Value(s) => s
    case Missing => "nan"
  }

  /** Lowest and highest accepted year (first column) and reading (other
      columns). */
  const MIN_YEAR := 1850
  const MAX_YEAR := 2025
  const MIN_READING := -50
  const MAX_READING := 99

  /** `is_invalid`: whether a cell's text needs the operator's attention.
      `LowerIsX(v)` and `LowerIsNan(v)` are `v.lower() == "x"` and
      `v.lower() == "nan"` (lemma `Text.LowerMarkers`). */
  function IsInvalid(value: string, isFirstCol: bool, ignoreNan: bool): bool {
    var v := Trim(value);
    if LowerIsX(v) || v == [] then true
    else if LowerIsNan(v) && ignoreNan then false
    else if isFirstCol then
      match ParseInt(v)
      case Some(n) => !(MIN_YEAR <= n <= MAX_YEAR)
      case None => true
    else
      match ParseDecimal(v)
      case Some(x) => !(MIN_READING as real <= x <= MAX_READING as real)
      case None => true
  }

  /** Blank cells and the "x" marker are invalid whatever the flags. */
  lemma MarkersInvalid(value: string, isFirstCol: bool, ignoreNan: bool)
    requires Trim(value) == "" || Trim(value) == "x" || Trim(value) == "X"
    ensures IsInvalid(value, isFirstCol, ignoreNan)
  {
    LowerMarkers(Trim(value));
  }

  /** "nan" in any case is valid exactly when the ignore-NaN flag is set: it
      reads neither as an integer nor as a decimal number. */
  lemma NanValidIffIgnored(value: string, isFirstCol: bool, ignoreNan: bool)
    requires LowerIsNan(Trim(value))
    ensures !IsInvalid(value, isFirstCol, ignoreNan) <==> ignoreNan
  {
    var v := Trim(value);
    assert !IsDigit(v[0]) && !IsDigit(v[1]);
    TrimIdempotent(value);
    assert ParseInt(v) == None;
    assert FirstIndex(v, 'e', 'E') == None;
    assert FirstIndex(v, '.', '.') == None;
    assert ParseDecimal(v) == None;
  }

  /** A year written out as `str(y)` is accepted in the first column exactly
      when 1850 <= y <= 2025. */
  lemma YearValidIffInRange(y: int, ignoreNan: bool)
    ensures !IsInvalid(IntToString(y), true, ignoreNan) <==> MIN_YEAR <= y <= MAX_YEAR
  {
    var s := IntToString(y);
    TrimUnpadded(s);
    IntRoundTrip(y);
    assert !LowerIsX(s) && !LowerIsNan(s) by {
      assert s[|s| - 1] in NatToString(if y < 0 then -y else y);
      assert IsDigit(s[|s| - 1]);
    }
  }

  /** An integer reading written out as `str(n)` is accepted in a data column
      exactly when -50 <= n <= 99. */
  lemma ReadingValidIffInRange(n: int, ignoreNan: bool)
    ensures !IsInvalid(IntToString(n), false, ignoreNan) <==> MIN_READING <= n <= MAX_READING
  {
    var s := IntToString(n);
    TrimUnpadded(s);
    DecimalOfInt(n);
    assert !LowerIsX(s) && !LowerIsNan(s) by {
      assert s[|s| - 1] in NatToString(if n < 0 then -n else n);
      assert IsDigit(s[|s| - 1]);
    }
  }

  // ---------------------------------------------------------------------
  // Cell normalisation

  /** The clean-up `load_csv` applies to every cell: "x" in any case and
      with any padding becomes blank. */
  function CleanCell(c: Cell): Cell {
    if LowerIsX(Trim(CellText(c))) then Value("") else c
  }

  function CleanTable(t: Table): (r: Table)
    ensures |r| == |t|
    ensures forall i | 0 <= i < |t| :: |r[i]| == |t[i]|
  {
    seq(|t|, i requires 0 <= i < |t| => seq(|t[i]|, j requires 0 <= j < |t[i]| => CleanCell(t[i][j])))
  }

  /** Clean-up keeps the table's shape. */
  lemma CleanTableShape(t: Table, width: nat)
    requires Rectangular(t, width)
    ensures Rectangular(CleanTable(t), width)
  {
  }

  /** After clean-up no cell reads as "x", every other cell is as loaded, and
      cleaning again changes nothing. */
  lemma CleanTableSpec(t: Table)
    ensures forall i, j | 0 <= i < |t| && 0 <= j < |t[i]| ::
      !LowerIsX(Trim(CellText(CleanTable(t)[i][j])))
      && (!LowerIsX(Trim(CellText(t[i][j]))) ==> CleanTable(t)[i][j] == t[i][j])
    ensures CleanTable(CleanTable(t)) == CleanTable(t)
  {
    var r := CleanTable(t);
    assert Trim("") == "";
    forall i, j | 0 <= i < |t| && 0 <= j < |t[i]| ensures !LowerIsX(Trim(CellText(r[i][j]))) {
      if LowerIsX(Trim(CellText(t[i][j]))) {
        assert r[i][j] == Value("");
      }
    }
    var rr := CleanTable(r);
    assert |rr| == |r|;
    forall i | 0 <= i < |r| ensures rr[i] == r[i] {
      assert |rr[i]| == |r[i]|;
      forall j | 0 <= j < |r[i]| ensures rr[i][j] == r[i][j] {
        assert !LowerIsX(Trim(CellText(r[i][j])));
      }
    }
  }

  /** What `confirm_cell` stores for the entry's text: blank for the markers
      "x" and "nan" (any case, any padding), the text itself otherwise. */
  function Normalise(text: string): Cell {
    if IsMarker(text) then Value("") else Value(text)
  }

  /** The entry texts that mean "no value": "x" and "nan", in any case and
      with any padding. */
  predicate IsMarker(text: string) {
    var k := Trim(text);
    LowerIsX(k) || LowerIsNan(k)
  }

  /** A stored cell never holds a marker, and confirming its text again
      stores the same cell. */
  lemma NormaliseSpec(text: string)
    ensures !IsMarker(CellText(Normalise(text)))
    ensures Normalise(CellText(Normalise(text))) == Normalise(text)
    ensures Normalise(text) == Value("") <==> (IsMarker(text) || text == "")
  {
    assert Trim("") == "";
  }

  // ---------------------------------------------------------------------
  // The row display

  const ARROW := "➡ "
  const BLANK := "   "

  function Texts(row: seq<Cell>): (r: seq<string>)
    ensures |r| == |row| && forall j | 0 <= j < |row| :: r[j] == CellText(row[j])
  {
    seq(|row|, j requires 0 <= j < |row| => CellText(row[j]))
  }

  /** The head of display line `r`: the cursor marker and the 1-based row
      number. */
  function RowHead(r: nat, cursor: int): string {
    (if r == cursor then ARROW else BLANK) + "Row " + NatToString(r + 1) + ": "
  }

  /** One line of `update_csv_display`, without its newline. */
  function RowLine(r: nat, cursor: int, row: seq<Cell>): string {
    RowHead(r, cursor) + Join(Texts(row), '\t')
  }

  function Concat(lines: seq<string>): string {
    if lines == [] then "" else lines[0] + "\n" + Concat(lines[1..])
  }

  /** The whole text the display holds. */
  function Display(t: Table, cursor: int): string {
    Concat(seq(|t|, r requires 0 <= r < |t| => RowLine(r, cursor, t[r])))
  }

  /** A display line starts with the arrow exactly on the cursor row, its row
      number reads back as r + 1, and splitting its remainder at tabs gives
      back the row's cell texts. */
  lemma RowLineParts(r: nat, cursor: int, row: seq<Cell>)
    requires |row| >= 1 && forall j | 0 <= j < |row| :: '\t' !in CellText(row[j])
    ensures StartsWith(RowLine(r, cursor, row), ARROW) <==> r == cursor
    ensures StartsWith(RowLine(r, cursor, row), RowHead(r, cursor))
    ensures Split(RowLine(r, cursor, row)[|RowHead(r, cursor)|..], '\t') == Texts(row)
    ensures ParseInt(NatToString(r + 1)) == Some(r + 1)
  {
    var line := RowLine(r, cursor, row);
    var head := RowHead(r, cursor);
    RowLineCells(r, cursor, row);
    RowLineArrow(r, cursor, row);
    IntRoundTrip(r + 1);
  }

  lemma RowLineArrow(r: nat, cursor: int, row: seq<Cell>)
    ensures StartsWith(RowLine(r, cursor, row), ARROW) <==> r == cursor
  {
    var line := RowLine(r, cursor, row);
    var head := RowHead(r, cursor);
    RowHeadArrow(r, cursor);
    assert line[..|ARROW|] == head[..|ARROW|];
  }

  lemma RowLineNoBreak(r: nat, cursor: int, row: seq<Cell>)
    requires forall j | 0 <= j < |row| :: '\n' !in CellText(row[j])
    ensures '\n' !in RowLine(r, cursor, row)
  {
    var head := RowHead(r, cursor);
    JoinAvoids(Texts(row), '\t', '\n');
    assert '\n' !in head by {
      var digits := NatToString(r + 1);
      assert forall k | 0 <= k < |digits| :: IsDigit(digits[k]);
    }
  }

  lemma RowHeadArrow(r: nat, cursor: int)
    ensures |ARROW| <= |RowHead(r, cursor)|
    ensures RowHead(r, cursor)[..|ARROW|] == ARROW <==> r == cursor
  {
    if r != cursor {
      assert RowHead(r, cursor)[0] == ' ';
    }
  }

  lemma RowLineCells(r: nat, cursor: int, row: seq<Cell>)
    requires |row| >= 1 && forall j | 0 <= j < |row| :: '\t' !in CellText(row[j])
    ensures StartsWith(RowLine(r, cursor, row), RowHead(r, cursor))
    ensures Split(RowLine(r, cursor, row)[|RowHead(r, cursor)|..], '\t') == Texts(row)
  {
    var line := RowLine(r, cursor, row);
    var head := RowHead(r, cursor);
    assert line[..|head|] == head;
    assert line[|head|..] == Join(Texts(row), '\t');
    SplitJoin(Texts(row), '\t');
  }

  lemma {:induction false} ConcatLines(lines: seq<string>)
    requires forall i | 0 <= i < |lines| :: '\n' !in lines[i]
    ensures Split(Concat(lines), '\n') == lines + [""]
  {
    if lines != [] {
      ConcatLines(lines[1..]);
      SplitAtSep(lines[0], Concat(lines[1..]), '\n');
      assert lines == [lines[0]] + lines[1..];
    }
  }

  /** When no cell holds a line break, the display's lines are exactly the
      row lines, one per table row, in order, with the arrow on the cursor
      row only. */
  lemma DisplayLines(t: Table, cursor: int)
    requires forall r, j | 0 <= r < |t| && 0 <= j < |t[r]| :: '\n' !in CellText(t[r][j])
    ensures var lines := Split(Display(t, cursor), '\n');
      |lines| == |t| + 1 && lines[|t|] == ""
      && (forall r | 0 <= r < |t| :: lines[r] == RowLine(r, cursor, t[r]))
      && (forall r | 0 <= r < |t| :: StartsWith(lines[r], ARROW) <==> r == cursor)
  {
    var lines := seq(|t|, r requires 0 <= r < |t| => RowLine(r, cursor, t[r]));
    forall r | 0 <= r < |t| ensures '\n' !in lines[r] && (StartsWith(lines[r], ARROW) <==> r == cursor) {
      RowLineNoBreak(r, cursor, t[r]);
      RowLineArrow(r, cursor, t[r]);
    }
    ConcatLines(lines);
  }

  // ---------------------------------------------------------------------
  // The validator's state and its operations

  /** Message boxes the operations show. */
  datatype Notice = ReachedEnd | InvalidPosition | NoCsvFolder | Saved | NoMoreInvalid

  /** Every field of the validator that the operations read or write:
      whether a CSV has been loaded (before `load_csv` succeeds the
      validator has no table and no cursor, and `table`, `width`, `row` and
      `col` hold placeholders no operation reads), the table and its column
      count, the cursor, the scan phase, the
      outlier positions, the two check boxes, the entry and the two search
      boxes, the folder of cell images, and the tables saved so far. */
  datatype View = View(
    loaded: bool, table: Table, width: nat, row: nat, col: nat,
    outlierPhase: bool, outliers: set<(int, int)>,
    stepMode: bool, ignoreNan: bool,
    text: string, searchRow: string, searchCol: string,
    tableFolder: string, saved: seq<Table>, notices: seq<Notice>)

  /** A data frame: every row has `width` cells, and there is a column. */
  predicate Rectangular(t: Table, width: nat) {
    width >= 1 && forall r | 0 <= r < |t| :: |t[r]| == width
  }

  predicate ValidView(v: View) {
    Rectangular(v.table, v.width) && (v.loaded || v.table == [])
  }

  /** `load_cell`: the entry shows the cell, the search boxes its 1-based
      position. */
  function LoadCellSpec(v: View, c: Cell): View {
    v.(text := CellText(c), searchRow := NatToString(v.row + 1), searchCol := NatToString(v.col + 1))
  }

  /** `next_cell`: before a load, `self.col_idx` does not exist, the
      handler raises and nothing changes. */
  function NextCellSpec(v: View): View
    requires ValidView(v)
  {
    if !v.loaded then v
    else
      var c := v.col + 1;
      var w := if c >= v.width then v.(col := 0, row := v.row + 1) else v.(col := c);
      if w.row >= |v.table| then w.(notices := v.notices + [ReachedEnd])
      else LoadCellSpec(w, v.table[w.row][w.col])
  }

  /** Stepping moves the flat position `row * width + col` forward by one;
      the cell reached is shown, and past the last row nothing is. */
  lemma NextCellAdvances(v: View)
    requires ValidView(v) && v.loaded && v.col < v.width
    ensures var n := NextCellSpec(v);
      n.row * v.width + n.col == v.row * v.width + v.col + 1 && n.col < v.width
      && n.table == v.table && n.outlierPhase == v.outlierPhase
      && (n.row < |v.table| ==> n.text == CellText(v.table[n.row][n.col]) && n.notices == v.notices)
      && (n.row >= |v.table| ==> n.text == v.text && n.notices == v.notices + [ReachedEnd])
  {
    if v.col + 1 >= v.width {
      assert (v.row + 1) * v.width == v.row * v.width + v.width;
    }
  }

  /** The 0-based cell the two search boxes name, read as 1-based numbers,
      when both read as integers and the cell is in a table of `rows` rows
      and `width` columns. */
  function TypedPosition(searchRow: string, searchCol: string, rows: nat, width: nat): (p: Option<(nat, nat)>)
    ensures p.Some? ==> p.value.0 < rows && p.value.1 < width
  {
    match (ParseInt(searchRow), ParseInt(searchCol))
    case (Some(r1), Some(c1)) =>
      var r, c := r1 - 1, c1 - 1;
      if r < 0 || c < 0 || r >= rows || c >= width then None else Some((r, c))
    case _ => None
  }

  /** `goto_cell`: an unreadable or out-of-range position leaves everything
      but the message as it was. */
  function GotoSpec(v: View): View
    requires ValidView(v)
  {
    match TypedPosition(v.searchRow, v.searchCol, |v.table|, v.width)
    case Some(p) => LoadCellSpec(v.(row := p.0, col := p.1), v.table[p.0][p.1])
    case None => v.(notices := v.notices + [InvalidPosition])
  }

  /** Typing a cell's 1-based position into the search boxes moves the cursor
      there and shows it. */
  lemma GotoReachesTypedCell(v: View, r: nat, c: nat)
    requires ValidView(v) && r < |v.table| && c < v.width
    requires v.searchRow == NatToString(r + 1) && v.searchCol == NatToString(c + 1)
    ensures GotoSpec(v) == v.(row := r, col := c, text := CellText(v.table[r][c]))
  {
    NatRoundTrip(r + 1);
    NatRoundTrip(c + 1);
    assert ParseInt(v.searchRow) == Some(r + 1);
    assert ParseInt(v.searchCol) == Some(c + 1);
    assert TypedPosition(v.searchRow, v.searchCol, |v.table|, v.width) == Some((r, c));
    var moved := v.(row := r, col := c);
    assert GotoSpec(v) == LoadCellSpec(moved, v.table[r][c]);
  }

  /** The search boxes name a cell exactly when both read as integers and
      those integers are a 1-based row and column of the table; that cell
      is then the one named. */
  lemma TypedPositionExact(searchRow: string, searchCol: string, rows: nat, width: nat)
    ensures var p := TypedPosition(searchRow, searchCol, rows, width);
      var r, c := ParseInt(searchRow), ParseInt(searchCol);
      (p.Some? <==> r.Some? && c.Some? && 1 <= r.value <= rows && 1 <= c.value <= width)
      && (p.Some? ==> p.value.0 == r.value - 1 && p.value.1 == c.value - 1)
  {
  }

  /** The cursor after `goto_cell` is in the table or where it was: a box
      that does not read as an integer, or a row or column outside
      1..rows and 1..columns, leaves everything but the message as it was.
      A second `goto_cell` with the boxes the first one filled in changes
      nothing more. */
  lemma GotoStaysInTable(v: View)
    requires ValidView(v)
    ensures var g := GotoSpec(v);
      ((g.row, g.col) == (v.row, v.col) || (g.row < |v.table| && g.col < v.width))
      && g.table == v.table
      && (g.notices == v.notices ==> GotoSpec(g) == g)
    ensures var r, c := ParseInt(v.searchRow), ParseInt(v.searchCol);
      (r.None? || c.None? || !(1 <= r.value <= |v.table|) || !(1 <= c.value <= v.width))
      ==> GotoSpec(v) == v.(notices := v.notices + [InvalidPosition])
  {
    GotoMovesInTable(v);
    GotoRejects(v);
  }

  lemma GotoMovesInTable(v: View)
    requires ValidView(v)
    ensures var g := GotoSpec(v);
      ((g.row, g.col) == (v.row, v.col) || (g.row < |v.table| && g.col < v.width))
      && g.table == v.table
      && (g.notices == v.notices ==> GotoSpec(g) == g)
  {
    match TypedPosition(v.searchRow, v.searchCol, |v.table|, v.width)
    case Some(p) =>
      GotoReachesTypedCell(GotoSpec(v), p.0, p.1);
    case None =>
      assert |GotoSpec(v).notices| == |v.notices| + 1;
  }

  lemma GotoRejects(v: View)
    requires ValidView(v)
    ensures var r, c := ParseInt(v.searchRow), ParseInt(v.searchCol);
      (r.None? || c.None? || !(1 <= r.value <= |v.table|) || !(1 <= c.value <= v.width))
      ==> GotoSpec(v) == v.(notices := v.notices + [InvalidPosition])
  {
    TypedPositionExact(v.searchRow, v.searchCol, |v.table|, v.width);
  }

  /** Whether the scan in phase `outlierPhase` stops at a cell: an invalid
      cell in the first phase; in the outlier phase a listed position
      outside the year column. */
  predicate Flagged(t: Table, outlierPhase: bool, outliers: set<(int, int)>, ignoreNan: bool, r: nat, c: nat)
    requires r < |t| && c < |t[r]|
  {
    if !outlierPhase then IsInvalid(CellText(t[r][c]), c == 0, ignoreNan)
    else c > 0 && (r as int, c as int) in outliers
  }

  /** The scan's test for every cell of the table, row by row. */
  function Marks(t: Table, outlierPhase: bool, outliers: set<(int, int)>, ignoreNan: bool): (m: seq<seq<bool>>)
    ensures |m| == |t| && forall r | 0 <= r < |t| :: |m[r]| == |t[r]|
  {
    seq(|t|, r requires 0 <= r < |t| =>
      seq(|t[r]|, c requires 0 <= c < |t[r]| => Flagged(t, outlierPhase, outliers, ignoreNan, r, c)))
  }

  function MarksOf(v: View): seq<seq<bool>> {
    Marks(v.table, v.outlierPhase, v.outliers, v.ignoreNan)
  }

  predicate Grid(m: seq<seq<bool>>, width: nat) {
    forall r | 0 <= r < |m| :: |m[r]| == width
  }

  /** The first marked cell the row-major scan reaches from (r, c): the rest
      of row r from column c, then every later row from column 0. */
  function FirstMarked(m: seq<seq<bool>>, width: nat, r: nat, c: nat): (p: Option<(nat, nat)>)
    requires Grid(m, width)
    decreases |m| - r, width - c
    ensures p.Some? ==> p.value.0 < |m| && p.value.1 < width
  {
    if r >= |m| then None
    else if c >= width then FirstMarked(m, width, r + 1, 0)
    else if m[r][c] then Some((r, c))
    else FirstMarked(m, width, r, c + 1)
  }

  /** (r2, c2) is visited by a scan starting at (r, c). */
  ghost predicate Reached(r: nat, c: nat, r2: nat, c2: nat) {
    (r2 == r && c <= c2) || r < r2
  }

  ghost predicate Before(r2: nat, c2: nat, r3: nat, c3: nat) {
    r2 < r3 || (r2 == r3 && c2 < c3)
  }

  /** The scan stops at a marked cell it reaches, and no cell it passes
      before that is marked; when it finds none, no reachable cell is. */
  lemma {:induction false} FirstMarkedIsFirst(m: seq<seq<bool>>, width: nat, r: nat, c: nat)
    requires Grid(m, width)
    decreases |m| - r, width - c
    ensures match FirstMarked(m, width, r, c)
      case Some(p) =>
        Reached(r, c, p.0, p.1) && m[p.0][p.1]
        && forall r2: nat, c2: nat | r2 < |m| && c2 < width && Reached(r, c, r2, c2) && Before(r2, c2, p.0, p.1) ::
             !m[r2][c2]
      case None =>
        forall r2: nat, c2: nat | r2 < |m| && c2 < width && Reached(r, c, r2, c2) :: !m[r2][c2]
  {
    if r >= |m| {
    } else if c >= width {
      FirstMarkedIsFirst(m, width, r + 1, 0);
    } else if m[r][c] {
    } else {
      FirstMarkedIsFirst(m, width, r, c + 1);
    }
  }

  /** Where the scan loops leave the cursor when they find nothing. */
  function ScanEnd(rows: nat, r: nat, c: nat): (nat, nat) {
    if r < rows then (rows, 0) else (r, c)
  }

  /** The nested `while` loops of `load_next_invalid_cell` in the current
      phase. */
  function ScanSpec(v: View): View
    requires ValidView(v)
  {
    match FirstMarked(MarksOf(v), v.width, v.row, v.col)
    case Some(p) => LoadCellSpec(v.(row := p.0, col := p.1), v.table[p.0][p.1])
    case None =>
      var e := ScanEnd(|v.table|, v.row, v.col);
      v.(row := e.0, col := e.1)
  }

  /** `save_csv` followed by the closing message. */
  function SaveSpec(v: View): View {
    v.(saved := v.saved + [v.table], notices := v.notices + [Saved, NoMoreInvalid])
  }

  /** The "Save Now" button: before a load `self.month` does not exist,
      `save_csv` raises and nothing is written. */
  function SaveNowSpec(v: View): View {
    if !v.loaded then v
    else v.(saved := v.saved + [v.table], notices := v.notices + [Saved])
  }

  /** `load_next_invalid_cell`, with `detect` standing for `find_outliers`. */
  function LoadNextSpec(v: View, detect: Table -> set<(int, int)>): View
    requires ValidView(v)
    decreases if v.outlierPhase then 0 else 1
  {
    if v.stepMode then v
    else
      var s := ScanSpec(v);
      if FirstMarked(MarksOf(v), v.width, v.row, v.col).Some? then s
      else if !v.outlierPhase then
        LoadNextSpec(s.(outlierPhase := true, row := 0, col := 0, outliers := detect(v.table)), detect)
      else SaveSpec(s)
  }

  /** Outside step mode the walk ends on the first cell needing attention:
      the first invalid cell from the cursor; failing that the first outlier
      from the top (switching to the outlier phase once); failing that the
      table is saved with the cursor past the end. It never changes a cell. */
  lemma LoadNextOutcome(v: View, detect: Table -> set<(int, int)>)
    requires ValidView(v) && !v.stepMode
    ensures var n := LoadNextSpec(v, detect);
      n.table == v.table && n.width == v.width && ValidView(n)
      && ((n.row < |v.table| && n.col < v.width && n.saved == v.saved
           && n.text == CellText(v.table[n.row][n.col])
           && Flagged(v.table, n.outlierPhase, n.outliers, v.ignoreNan, n.row, n.col)
           && (v.outlierPhase ==> n.outlierPhase))
          || (n.outlierPhase && n.saved == v.saved + [v.table] && n.row >= |v.table|))
    decreases if v.outlierPhase then 0 else 1
  {
    FirstMarkedIsFirst(MarksOf(v), v.width, v.row, v.col);
    var f := FirstMarked(MarksOf(v), v.width, v.row, v.col);
    if f.Some? {
      assert MarksOf(v)[f.value.0][f.value.1];
    } else if !v.outlierPhase {
      var s := ScanSpec(v);
      LoadNextOutcome(s.(outlierPhase := true, row := 0, col := 0, outliers := detect(v.table)), detect);
    }
  }

  /** The cell the outlier phase stops at is never in the year column. */
  lemma PhaseTwoSkipsYears(v: View, detect: Table -> set<(int, int)>)
    requires ValidView(v) && !v.stepMode
    ensures var n := LoadNextSpec(v, detect);
      n.row < |v.table| && n.col < v.width && n.outlierPhase && n.saved == v.saved ==> n.col > 0
  {
    LoadNextOutcome(v, detect);
  }

  predicate InRange(v: View) {
    v.row < |v.table| && v.col < v.width
  }

  /** The step `confirm_cell` and `clear_cell` share inside the table:
      store `x` in the cursor cell, leave every other cell as it was, and
      move the cursor one column right. */
  function StoreAndStep(v: View, x: Cell): (w: View)
    requires ValidView(v) && InRange(v)
    ensures ValidView(w) && w.width == v.width && |w.table| == |v.table| && w.table[v.row][v.col] == x
    ensures forall r, c | 0 <= r < |v.table| && 0 <= c < v.width && (r, c) != (v.row, v.col) ::
      w.table[r][c] == v.table[r][c]
    ensures w.row == v.row && w.col == v.col + 1 && w.stepMode == v.stepMode
  {
    CellUpdate(v.table, v.width, v.row, v.col, x);
    v.(table := v.table[v.row := v.table[v.row][v.col := x]], col := v.col + 1)
  }

  /** `confirm_cell`: outside the table `iat` raises and nothing changes;
      otherwise the entry's text is stored, normalised, the cursor moves one
      column right and the walk resumes. */
  function ConfirmSpec(v: View, detect: Table -> set<(int, int)>): View
    requires ValidView(v)
  {
    if !InRange(v) then v
    else LoadNextSpec(StoreAndStep(v, Normalise(v.text)), detect)
  }

  /** `clear_cell`: as `confirm_cell`, storing a blank cell. */
  function ClearSpec(v: View, detect: Table -> set<(int, int)>): View
    requires ValidView(v)
  {
    if !InRange(v) then v
    else LoadNextSpec(StoreAndStep(v, Value("")), detect)
  }

  /** Confirming writes exactly the cursor cell, with the normalised entry
      text, and nothing else in the table; in step mode the cursor then sits
      one column right of that cell. */
  lemma ConfirmWritesOneCell(v: View, detect: Table -> set<(int, int)>)
    requires ValidView(v) && InRange(v)
    ensures var n := ConfirmSpec(v, detect);
      ValidView(n) && n.width == v.width && |n.table| == |v.table|
      && n.table[v.row][v.col] == Normalise(v.text)
      && (forall r, c | 0 <= r < |v.table| && 0 <= c < v.width && (r, c) != (v.row, v.col) ::
            n.table[r][c] == v.table[r][c])
      && (v.stepMode ==> n.row == v.row && n.col == v.col + 1)
  {
    var w := StoreAndStep(v, Normalise(v.text));
    if !v.stepMode {
      LoadNextOutcome(w, detect);
    }
  }

  /** Storing one cell changes that cell only. */
  lemma CellUpdate(t: Table, width: nat, row: nat, col: nat, x: Cell)
    requires Rectangular(t, width) && row < |t| && col < width
    ensures var t2 := t[row := t[row][col := x]];
      Rectangular(t2, width) && |t2| == |t| && t2[row][col] == x
      && forall r, c | 0 <= r < |t| && 0 <= c < width && (r, c) != (row, col) :: t2[r][c] == t[r][c]
  {
  }

  /** Emptying writes a blank into exactly the cursor cell (a blank the
      validity rule flags again, by `MarkersInvalid`); in step mode the
      cursor then sits one column right of it. */
  lemma ClearWritesBlank(v: View, detect: Table -> set<(int, int)>)
    requires ValidView(v) && InRange(v)
    ensures var n := ClearSpec(v, detect);
      ValidView(n) && n.table == v.table[v.row := v.table[v.row][v.col := Value("")]]
      && (v.stepMode ==> n.row == v.row && n.col == v.col + 1)
  {
    var w := StoreAndStep(v, Value(""));
    if !v.stepMode {
      LoadNextOutcome(w, detect);
    }
  }

  /** Outside the table, confirming and emptying change nothing. */
  lemma OutOfRangeEditsNothing(v: View, detect: Table -> set<(int, int)>)
    requires ValidView(v) && !InRange(v)
    ensures ConfirmSpec(v, detect) == v && ClearSpec(v, detect) == v
  {
  }

  /** `handle_enter_key`. */
  function EnterSpec(v: View, detect: Table -> set<(int, int)>): View
    requires ValidView(v)
  {
    if v.stepMode then NextCellSpec(v) else ConfirmSpec(v, detect)
  }

  /** Enter never edits the table in step mode, and always edits the cursor
      cell otherwise (when the cursor is in the table). */
  lemma EnterEditsOnlyOutsideStepMode(v: View, detect: Table -> set<(int, int)>)
    requires ValidView(v)
    ensures v.stepMode ==> EnterSpec(v, detect).table == v.table
    ensures !v.stepMode && InRange(v) ==>
      var n := EnterSpec(v, detect);
      n.width == v.width && |n.table| == |v.table| && ValidView(n)
      && n.table[v.row][v.col] == Normalise(v.text)
  {
    if !v.stepMode && InRange(v) {
      ConfirmWritesOneCell(v, detect);
    }
  }

  /** Before a CSV is loaded every button that needs the table does
      nothing: "Next Cell", "Confirm", "Empty", Enter and "Save Now" raise
      on a missing attribute and leave the state as it was, and "Go to
      Cell" can only show its error message. */
  lemma BeforeLoadNothingHappens(v: View, detect: Table -> set<(int, int)>)
    requires ValidView(v) && !v.loaded
    ensures NextCellSpec(v) == v && ConfirmSpec(v, detect) == v && ClearSpec(v, detect) == v
    ensures EnterSpec(v, detect) == v && SaveNowSpec(v) == v
    ensures GotoSpec(v) == v.(notices := v.notices + [InvalidPosition])
  {
  }

  /** The folder of cell images for a CSV: `table_` and the part of the file
      name after its last `_`, with ".csv" removed. */
  function TableFolder(csvFilename: string): string {
    "table_" + RemoveAll(Last(Split(csvFilename, '_')), ".csv")
  }

  /** For the names the OCR step writes, `<month>_<type>_<n>.csv`, this is
      the `table_<n>` folder the segmentation step wrote the cells to. */
  lemma TableFolderOfCsvName(month: string, dtype: string, n: string)
    requires '_' !in n && '.' !in n
    ensures TableFolder(month + "_" + dtype + "_" + n + ".csv") == "table_" + n
  {
    var name := month + "_" + dtype + "_" + n + ".csv";
    assert name == (month + "_" + dtype) + ['_'] + (n + ".csv");
    assert '_' !in n + ".csv";
    SplitLast(month + "_" + dtype, n + ".csv", '_');
    RemoveSuffix(n, ".csv");
  }

  /** `load_csv` with the file already read: a missing folder only shows an
      error; otherwise the cleaned table replaces the old one, the validator
      counts as loaded, the cursor returns to the top in the first phase,
      and the walk starts. */
  function LoadCsvSpec(v: View, detect: Table -> set<(int, int)>, folderExists: bool,
                       filename: string, file: Table, fileWidth: nat): View
    requires Rectangular(file, fileWidth)
  {
    if !folderExists then v.(notices := v.notices + [NoCsvFolder])
    else
      var t := CleanTable(file);
      LoadNextSpec(v.(loaded := true, table := t, width := fileWidth, tableFolder := TableFolder(filename),
                      row := 0, col := 0, outlierPhase := false, outliers := detect(t)), detect)
  }

  /** A successful load leaves the cleaned file in place. With step mode off
      the cursor then lands on the first invalid cell of the table in
      row-major order, or, when every cell is valid, the outlier phase has
      begun. */
  lemma LoadCsvStartsAtFirstInvalid(v: View, detect: Table -> set<(int, int)>,
                                    filename: string, file: Table, fileWidth: nat)
    requires Rectangular(file, fileWidth) && !v.stepMode
    ensures var n := LoadCsvSpec(v, detect, true, filename, file, fileWidth);
      var t := CleanTable(file);
      n.loaded && n.table == t && ValidView(n)
      && (!n.outlierPhase ==>
            n.row < |t| && n.col < fileWidth && IsInvalid(CellText(t[n.row][n.col]), n.col == 0, v.ignoreNan)
            && forall r: nat, c: nat | r < |t| && c < fileWidth && Before(r, c, n.row, n.col) ::
                 !IsInvalid(CellText(t[r][c]), c == 0, v.ignoreNan))
      && (n.outlierPhase ==>
            forall r: nat, c: nat | r < |t| && c < fileWidth :: !IsInvalid(CellText(t[r][c]), c == 0, v.ignoreNan))
  {
    var t := CleanTable(file);
    var w := v.(loaded := true, table := t, width := fileWidth, tableFolder := TableFolder(filename),
                row := 0, col := 0, outlierPhase := false, outliers := detect(t));
    assert ValidView(w);
    var m := MarksOf(w);
    assert forall r: nat, c: nat | r < |t| && c < fileWidth :: m[r][c] == IsInvalid(CellText(t[r][c]), c == 0, v.ignoreNan);
    FirstMarkedIsFirst(m, fileWidth, 0, 0);
    LoadNextOutcome(w, detect);
  }

  // ---------------------------------------------------------------------
  // The validator as the source runs it

  /** `m` holds the scan's test for every cell of `t`. */
  ghost predicate MarksCells(m: seq<seq<bool>>, t: Table, width: nat, outlierPhase: bool,
                             outliers: set<(int, int)>, ignoreNan: bool)
  {
    Grid(m, width) && |m| == |t|
    && forall r, c {:trigger Flagged(t, outlierPhase, outliers, ignoreNan, r, c)}
         | 0 <= r < |t| && 0 <= c < width && c < |t[r]| ::
         m[r][c] == Flagged(t, outlierPhase, outliers, ignoreNan, r, c)
  }

  lemma MarksMarkCells(t: Table, width: nat, outlierPhase: bool, outliers: set<(int, int)>, ignoreNan: bool)
    requires Rectangular(t, width)
    ensures MarksCells(Marks(t, outlierPhase, outliers, ignoreNan), t, width, outlierPhase, outliers, ignoreNan)
  {
  }

  /** The inner scan loop of `load_next_invalid_cell` over row r from
      column c0: the column of the first flagged cell there, or None when
      the scan moves on to the next row. */
  method ScanRow(t: Table, width: nat, outlierPhase: bool, outliers: set<(int, int)>,
                 ignoreNan: bool, ghost m: seq<seq<bool>>, r: nat, c0: nat) returns (col: Option<nat>)
    requires Rectangular(t, width) && r < |t|
    requires MarksCells(m, t, width, outlierPhase, outliers, ignoreNan)
    ensures FirstMarked(m, width, r, c0) == if col.Some? then Some((r, col.value)) else FirstMarked(m, width, r + 1, 0)
  {
    var c := c0;
    while c < width
      invariant FirstMarked(m, width, r, c) == FirstMarked(m, width, r, c0)
      decreases width - c
    {
      assert m[r][c] == Flagged(t, outlierPhase, outliers, ignoreNan, r, c);
      if !outlierPhase {
        if IsInvalid(CellText(t[r][c]), c == 0, ignoreNan) {
          return Some(c);
        }
      } else if c > 0 && (r as int, c as int) in outliers {
        return Some(c);
      }
      c := c + 1;
    }
    return None;
  }

  /** The scan loops of `load_next_invalid_cell`, from cell (r0, c0), over
      the marks `m` of the table: the first flagged cell in row-major order,
      or where the loops leave the cursor when there is none. */
  method FindFlagged(t: Table, width: nat, outlierPhase: bool, outliers: set<(int, int)>,
                     ignoreNan: bool, ghost m: seq<seq<bool>>, r0: nat, c0: nat)
    returns (p: Option<(nat, nat)>, end: (nat, nat))
    requires Rectangular(t, width)
    requires MarksCells(m, t, width, outlierPhase, outliers, ignoreNan)
    ensures p == FirstMarked(m, width, r0, c0)
    ensures p.None? ==> end == ScanEnd(|t|, r0, c0)
  {
    ghost var first := FirstMarked(m, width, r0, c0);
    var r: nat, c: nat := r0, c0;
    while r < |t|
      invariant FirstMarked(m, width, r, c) == first
      invariant r0 >= |t| ==> r == r0 && c == c0
      invariant r0 < |t| ==> r <= |t| && (r == |t| ==> c == 0)
      decreases |t| - r
    {
      var col := ScanRow(t, width, outlierPhase, outliers, ignoreNan, m, r, c);
      if col.Some? {
        return Some((r, col.value)), (r, col.value);
      }
      c := 0;
      r := r + 1;
    }
    return None, (r, c);
  }

  class Checker {
    /** `find_outliers`, whose statistics are not modelled. */
    const detect: Table -> set<(int, int)>
    var loaded: bool
    var table: Table
    var width: nat
    var rowIdx: nat
    var colIdx: nat
    var checkingOutliers: bool
    var outlierIndices: set<(int, int)>
    var stepMode: bool
    var ignoreNan: bool
    var currentText: string
    var searchRow: string
    var searchCol: string
    var tableFolder: string
    var saved: seq<Table>
    var notices: seq<Notice>

    function Snapshot(): View
      reads this
    {
      View(loaded, table, width, rowIdx, colIdx, checkingOutliers, outlierIndices, stepMode, ignoreNan,
           currentText, searchRow, searchCol, tableFolder, saved, notices)
    }

    predicate Valid()
      reads this
    {
      ValidView(Snapshot())
    }

    /** `__init__`: nothing loaded (the table and cursor fields are
        placeholders until `load_csv` succeeds), no outliers, first phase,
        both boxes unticked, empty entry and search boxes. */
    constructor (detect: Table -> set<(int, int)>)
      ensures this.detect == detect && Valid() && !loaded
      ensures Snapshot() == View(false, [], 1, 0, 0, false, {}, false, false, "", "", "", "", [], [])
    {
      this.detect := detect;
      loaded := false;
      table, width, rowIdx, colIdx := [], 1, 0, 0;
      checkingOutliers, outlierIndices := false, {};
      stepMode, ignoreNan := false, false;
      currentText, searchRow, searchCol, tableFolder := "", "", "", "";
      saved, notices := [], [];
    }

    method LoadCell(value: Cell)
      modifies this
      ensures Snapshot() == LoadCellSpec(old(Snapshot()), value)
    {
      currentText := CellText(value);
      searchRow := NatToString(rowIdx + 1);
      searchCol := NatToString(colIdx + 1);
    }

    method NextCell()
      requires Valid()
      modifies this
      ensures Snapshot() == NextCellSpec(old(Snapshot())) && Valid()
    {
      if !loaded {
        return;
      }
      colIdx := colIdx + 1;
      if colIdx >= width {
        colIdx := 0;
        rowIdx := rowIdx + 1;
      }
      if rowIdx >= |table| {
        notices := notices + [ReachedEnd];
        return;
      }
      LoadCell(table[rowIdx][colIdx]);
    }

    method GotoCell()
      requires Valid()
      modifies this
      ensures Snapshot() == GotoSpec(old(Snapshot())) && Valid()
    {
      ghost var v0 := Snapshot();
      var p := TypedPosition(searchRow, searchCol, |table|, width);
      if p.None? {
        notices := notices + [InvalidPosition];
        return;
      }
      rowIdx, colIdx := p.value.0, p.value.1;
      assert Snapshot() == v0.(row := p.value.0, col := p.value.1);
      LoadCell(table[rowIdx][colIdx]);
    }

    /** The nested `while` loops of `load_next_invalid_cell`: the cursor
        stops on the first flagged cell, which is shown, or ends past the
        table. */
    method Scan() returns (found: bool)
      requires Valid()
      modifies this
      ensures Snapshot() == ScanSpec(old(Snapshot())) && Valid()
      ensures found <==> FirstMarked(MarksOf(old(Snapshot())), old(width), old(rowIdx), old(colIdx)).Some?
    {
      MarksMarkCells(table, width, checkingOutliers, outlierIndices, ignoreNan);
      var p, e := FindFlagged(table, width, checkingOutliers, outlierIndices, ignoreNan,
                              Marks(table, checkingOutliers, outlierIndices, ignoreNan), rowIdx, colIdx);
      if p.Some? {
        rowIdx, colIdx := p.value.0, p.value.1;
        LoadCell(table[rowIdx][colIdx]);
        return true;
      }
      rowIdx, colIdx := e.0, e.1;
      return false;
    }

    /** `save_csv`; before a load it raises and nothing is saved. */
    method SaveCsv()
      requires Valid()
      modifies this
      ensures Snapshot() == SaveNowSpec(old(Snapshot())) && Valid()
    {
      if !loaded {
        return;
      }
      saved := saved + [table];
      notices := notices + [Saved];
    }

    /** Starts a pass over the table from its first cell, with the outliers
        of the table as it now stands. */
    method StartPass(outlierPhase: bool)
      modifies this
      ensures Snapshot() == old(Snapshot()).(outlierPhase := outlierPhase, row := 0, col := 0,
                                             outliers := detect(old(table)))
    {
      checkingOutliers, rowIdx, colIdx, outlierIndices := outlierPhase, 0, 0, detect(table);
    }

    method LoadNextInvalidCell()
      requires Valid()
      modifies this
      requires loaded
      ensures Snapshot() == LoadNextSpec(old(Snapshot()), detect) && Valid()
      decreases if checkingOutliers then 0 else 1
    {
      if stepMode {
        return;
      }
      ghost var v0 := Snapshot();
      var found := Scan();
      if found {
        return;
      }
      ghost var s := Snapshot();
      assert s == ScanSpec(v0);
      if !checkingOutliers {
        StartPass(true);
        LoadNextInvalidCell();
      } else {
        SaveCsv();
        notices := notices + [NoMoreInvalid];
        assert Snapshot() == SaveSpec(s);
      }
    }

    method ConfirmCell()
      requires Valid()
      modifies this
      ensures Snapshot() == ConfirmSpec(old(Snapshot()), detect) && Valid()
    {
      var value := currentText;
      if !(rowIdx < |table| && colIdx < width) {
        return;
      }
      ghost var v := Snapshot();
      table := table[rowIdx := table[rowIdx][colIdx := Normalise(value)]];
      colIdx := colIdx + 1;
      assert Snapshot() == StoreAndStep(v, Normalise(value));
      LoadNextInvalidCell();
    }

    method ClearCell()
      requires Valid()
      modifies this
      ensures Snapshot() == ClearSpec(old(Snapshot()), detect) && Valid()
    {
      if !(rowIdx < |table| && colIdx < width) {
        return;
      }
      ghost var v := Snapshot();
      table := table[rowIdx := table[rowIdx][colIdx := Value("")]];
      colIdx := colIdx + 1;
      assert Snapshot() == StoreAndStep(v, Value(""));
      LoadNextInvalidCell();
    }

    method HandleEnterKey()
      requires Valid()
      modifies this
      ensures Snapshot() == EnterSpec(old(Snapshot()), detect) && Valid()
    {
      if stepMode {
        NextCell();
      } else {
        ConfirmCell();
      }
    }

    method LoadCsv(folderExists: bool, filename: string, file: Table, fileWidth: nat)
      requires Valid() && Rectangular(file, fileWidth)
      modifies this
      ensures Snapshot() == LoadCsvSpec(old(Snapshot()), detect, folderExists, filename, file, fileWidth) && Valid()
    {
      if !folderExists {
        notices := notices + [NoCsvFolder];
        return;
      }
      ghost var v0 := Snapshot();
      var t := CleanTable(file);
      var folder := TableFolder(filename);
      CleanTableShape(file, fileWidth);
      loaded, table, width, tableFolder := true, t, fileWidth, folder;
      StartPass(false);
      assert Snapshot() == v0.(loaded := true, table := t, width := fileWidth, tableFolder := folder,
                               row := 0, col := 0, outlierPhase := false, outliers := detect(t));
      LoadNextInvalidCell();
    }
  }
}
