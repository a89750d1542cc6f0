/** The reformatting script: it reads every month's validated CSV tables
    (one row per year, one column per day of the month), turns them into
    dated records, and writes one master file sorted by date with the
    columns `date, max, min, precipitation`.

    The per-file reshaping is a pure function; the script's loops over the
    months, the measurement types and the files are a method proved to
    compute the same result. The folder tree is a parameter, and the
    outer join pandas performs between the types of one month is a
    parameter `merge`. Readings are kept as the text they were read as. */
module Reformat {
  import opened Wrappers
  import opened Text
  import Sorting

  /** A CSV file as rows of fields, read without a header. */
  type Csv = seq<seq<string>>

  /** `month_to_number`, as the (month, number) pairs the script walks,
      in the dictionary's order. */
  const MONTH_TO_NUMBER: seq<(string, string)> :=
    [("january", "01"), ("february", "02"), ("march", "03"), ("april", "04"),
     ("may", "05"), ("june", "06"), ("july", "07"), ("august", "08"),
     ("september", "09"), ("october", "10"), ("november", "11"), ("december", "12")]

  /** The measurement types, in the order the script takes them. */
  const TYPES: seq<string> := ["max", "min", "precipitation"]

  /** The columns kept from each file: the year and 31 days. */
  const KEPT_COLUMNS := 32
  const MIN_YEAR := 1800
  const MAX_YEAR := 2025

  /** The months are distinct and come in calendar order, each with its
      two-digit number. */
  lemma MonthNumbers()
    ensures |MONTH_TO_NUMBER| == 12
    ensures forall i, j | 0 <= i < j < 12 :: MONTH_TO_NUMBER[i].0 != MONTH_TO_NUMBER[j].0
    ensures forall i | 0 <= i < 12 :: MONTH_TO_NUMBER[i].1 == Pad2(i + 1)
  {
    MonthNamesDistinct();
    MonthNumbersPadded();
  }

  lemma MonthNamesDistinct()
    ensures forall i, j | 0 <= i < j < |MONTH_TO_NUMBER| :: MONTH_TO_NUMBER[i].0 != MONTH_TO_NUMBER[j].0
  {
    forall i, j | 0 <= i < j < 12 ensures MONTH_TO_NUMBER[i].0 != MONTH_TO_NUMBER[j].0 {
      var a, b := MONTH_TO_NUMBER[i].0, MONTH_TO_NUMBER[j].0;
      assert (|a|, a[0], a[2]) != (|b|, b[0], b[2]);
    }
  }

  lemma MonthNumbersPadded()
    ensures forall i | 0 <= i < |MONTH_TO_NUMBER| :: MONTH_TO_NUMBER[i].1 == Pad2(i + 1)
  {
    forall i | 0 <= i < 12 ensures MONTH_TO_NUMBER[i].1 == Pad2(i + 1) {
      TwoDigits(i + 1);
      assert MONTH_TO_NUMBER[i].1 == [DigitChar((i + 1) / 10), DigitChar((i + 1) % 10)];
    }
  }

  lemma TwoDigits(n: nat)
    requires 1 <= n <= 12
    ensures Pad2(n) == [DigitChar(n / 10), DigitChar(n % 10)]
  {
    if n >= 10 {
      assert NatToString(n) == NatToString(1) + [DigitChar(n % 10)];
    }
  }

  // ---------------------------------------------------------------------
  // One file

  /** Every row of the file has `width` fields. */
  predicate Rectangular(t: Csv, width: nat) {
    width >= 1 && forall r | 0 <= r < |t| :: |t[r]| == width
  }

  /** One melted record: the year field, the day (the column's position)
      and the reading. */
  datatype Melted = Melted(year: string, day: nat, value: string)

  /** The records of day column `d`, one per row. */
  function DayColumn(t: Csv, width: nat, d: nat): (r: seq<Melted>)
    requires Rectangular(t, width) && 1 <= d < width
    ensures |r| == |t|
  {
    seq(|t|, row requires 0 <= row < |t| => Melted(t[row][0], d, t[row][d]))
  }

  /** The day columns from `d` on, column after column, as `melt` stacks
      them. */
  function MeltFrom(t: Csv, width: nat, d: nat): seq<Melted>
    requires Rectangular(t, width) && 1 <= d
    decreases width - d
  {
    if d >= width || d >= KEPT_COLUMNS then []
    else DayColumn(t, width, d) + MeltFrom(t, width, d + 1)
  }

  /** `load_and_melt`: the first 32 columns, column 0 as the year, the rest
      stacked into (year, day, reading) records. */
  function LoadAndMelt(t: Csv, width: nat): seq<Melted>
    requires Rectangular(t, width)
  {
    MeltFrom(t, width, 1)
  }

  /** The number of day columns kept. */
  function DayCount(width: nat): nat {
    if width >= KEPT_COLUMNS then KEPT_COLUMNS - 1 else if width >= 1 then width - 1 else 0
  }

  /** Melting gives one record per row and kept day column, the day being
      the column's position, 1 to 31, and the year and reading being the
      row's fields. */
  lemma {:induction false} MeltFromShape(t: Csv, width: nat, d: nat)
    requires Rectangular(t, width) && 1 <= d
    ensures var m := MeltFrom(t, width, d);
      var stop := if width < KEPT_COLUMNS then width else KEPT_COLUMNS;
      |m| == (if d < stop then stop - d else 0) * |t|
      && forall k | 0 <= k < |m| ::
           d <= m[k].day < stop && exists row | 0 <= row < |t| ::
             m[k] == Melted(t[row][0], m[k].day, t[row][m[k].day])
    decreases width - d
  {
    var stop := if width < KEPT_COLUMNS then width else KEPT_COLUMNS;
    if d < stop {
      MeltFromShape(t, width, d + 1);
      var c: seq<Melted> := DayColumn(t, width, d);
      var rest: seq<Melted> := MeltFrom(t, width, d + 1);
      assert (stop - d) * |t| == |t| + (stop - (d + 1)) * |t|;
      forall k | 0 <= k < |c + rest|
        ensures d <= (c + rest)[k].day < stop && exists row | 0 <= row < |t| ::
          (c + rest)[k] == Melted(t[row][0], (c + rest)[k].day, t[row][(c + rest)[k].day])
      {
        if k < |c| {
          assert (c + rest)[k] == Melted(t[k][0], d, t[k][d]);
        } else {
          assert (c + rest)[k] == rest[k - |c|];
        }
      }
    }
  }

  /** Where `melt` puts a cell: the record of row `row` and day `day` comes
      after the full columns of the days before it, at its row's place in
      its own column. */
  lemma {:induction false} MeltFromAt(t: Csv, width: nat, d: nat, row: nat, day: nat)
    requires Rectangular(t, width) && 1 <= d <= day && day < width && day < KEPT_COLUMNS
    requires row < |t|
    ensures var m, k := MeltFrom(t, width, d), (day - d) * |t| + row;
      k < |m| && m[k] == Melted(t[row][0], day, t[row][day])
    decreases day - d
  {
    var c := DayColumn(t, width, d);
    var rest := MeltFrom(t, width, d + 1);
    assert MeltFrom(t, width, d) == c + rest;
    if day == d {
      assert (day - d) * |t| == 0;
      assert c[row] == Melted(t[row][0], d, t[row][d]);
    } else {
      MeltFromAt(t, width, d + 1, row, day);
      MulStep(day - d - 1, |t|);
      assert (c + rest)[|t| + (day - (d + 1)) * |t| + row] == rest[(day - (d + 1)) * |t| + row];
    }
  }

  /** One more factor is one more summand. */
  lemma MulStep(x: nat, n: nat)
    ensures (x + 1) * n == n + x * n
  {
  }

  /** Every (row, day) cell of the kept day columns from `d` on is melted. */
  lemma MeltFromCovers(t: Csv, width: nat, d: nat)
    requires Rectangular(t, width) && 1 <= d
    ensures forall row, day | 0 <= row < |t| && d <= day < width && day < KEPT_COLUMNS ::
      Melted(t[row][0], day, t[row][day]) in MeltFrom(t, width, d)
  {
    forall row, day | 0 <= row < |t| && d <= day < width && day < KEPT_COLUMNS
      ensures Melted(t[row][0], day, t[row][day]) in MeltFrom(t, width, d)
    {
      MeltCellIn(t, width, d, row, day);
    }
  }

  lemma {:induction false} MeltCellIn(t: Csv, width: nat, d: nat, row: nat, day: nat)
    requires Rectangular(t, width) && 1 <= d <= day && day < width && day < KEPT_COLUMNS
    requires row < |t|
    ensures Melted(t[row][0], day, t[row][day]) in MeltFrom(t, width, d)
    decreases day - d
  {
    var c := DayColumn(t, width, d);
    var rest := MeltFrom(t, width, d + 1);
    assert MeltFrom(t, width, d) == c + rest;
    if day == d {
      assert c[row] == Melted(t[row][0], d, t[row][d]);
    } else {
      MeltCellIn(t, width, d + 1, row, day);
    }
  }

  /** `load_and_melt` gives one record per row and kept day column, each
      from its own row. */
  lemma LoadAndMeltShape(t: Csv, width: nat)
    requires Rectangular(t, width)
    ensures var m := LoadAndMelt(t, width);
      |m| == DayCount(width) * |t|
      && forall k | 0 <= k < |m| ::
           1 <= m[k].day <= 31 && m[k].day < width && exists row | 0 <= row < |t| ::
             m[k] == Melted(t[row][0], m[k].day, t[row][m[k].day])
    ensures forall row, day | 0 <= row < |t| && 1 <= day < width && day < KEPT_COLUMNS ::
      Melted(t[row][0], day, t[row][day]) in LoadAndMelt(t, width)
  {
    MeltFromShape(t, width, 1);
    MeltFromCovers(t, width, 1);
  }

  /** `astype(int)` on a float: truncation toward zero. */
  function Truncate(x: real): int {
    if x >= 0.0 then x.Floor else -((-x).Floor)
  }

  /** `pd.to_numeric(..., errors='coerce')` followed by `astype(int)`; None
      for the values coerced to NaN. */
  function YearOf(field: string): Option<int> {
    match ParseDecimal(field)
    case Some(x) => Some(Truncate(x))
    case None => None
  }

  /** The two year filters: a number, and between 1800 and 2025. */
  predicate KeptYear(field: string) {
    YearOf(field).Some? && MIN_YEAR <= YearOf(field).value <= MAX_YEAR
  }

  /** A year written as `str(y)` is kept exactly when 1800 <= y <= 2025. */
  lemma KeptYearIffInRange(y: int)
    ensures KeptYear(IntToString(y)) <==> MIN_YEAR <= y <= MAX_YEAR
  {
    DecimalOfInt(y);
    assert (y as real).Floor == y;
  }

  /** The date the script writes: `f"{day:02d}-{month}-{year}"`. */
  function DateOf(day: int, monthNum: string, year: int): string {
    Pad2(day) + "-" + monthNum + "-" + IntToString(year)
  }

  /** One record of the table the script builds: the date and the three
      readings, None where pandas has NaN. */
  datatype Row = Row(date: string, max: Option<string>, min: Option<string>, precipitation: Option<string>)

  /** A record holding only the reading of one type. */
  function RowOf(date: string, varType: string, value: string): Row {
    Row(date, if varType == "max" then Some(value) else None,
              if varType == "min" then Some(value) else None,
              if varType == "precipitation" then Some(value) else None)
  }

  /** The records of `ms` whose year passes the filters, dated. */
  function KeepDated(ms: seq<Melted>, monthNum: string, varType: string): (r: seq<Row>)
    ensures |r| <= |ms|
  {
    if ms == [] then []
    else
      var m := ms[0];
      (if KeptYear(m.year) then [RowOf(DateOf(m.day, monthNum, YearOf(m.year).value), varType, m.value)] else [])
      + KeepDated(ms[1..], monthNum, varType)
  }

  /** A record that passed the year filters, with its year read as an
      integer. */
  datatype Kept = Kept(rec: Melted, year: int)

  /** The year filters of lines 57-66 on their own: the records whose year
      field reads as a number between 1800 and 2025, in their order. */
  function KeptRecords(ms: seq<Melted>): (r: seq<Kept>)
    ensures |r| <= |ms|
    ensures forall k | 0 <= k < |r| ::
      r[k].rec in ms && KeptYear(r[k].rec.year) && r[k].year == YearOf(r[k].rec.year).value
    ensures forall m | m in ms && KeptYear(m.year) :: Kept(m, YearOf(m.year).value) in r
  {
    if ms == [] then []
    else
      (if KeptYear(ms[0].year) then [Kept(ms[0], YearOf(ms[0].year).value)] else [])
      + KeptRecords(ms[1..])
  }

  /** Filtering a concatenation filters each part in turn, so the filter
      keeps the records' order. */
  lemma {:induction false} KeptRecordsAppend(a: seq<Melted>, b: seq<Melted>)
    ensures KeptRecords(a + b) == KeptRecords(a) + KeptRecords(b)
  {
    if a == [] {
      assert a + b == b;
    } else {
      assert (a + b)[0] == a[0];
      assert (a + b)[1..] == a[1..] + b;
      KeptRecordsAppend(a[1..], b);
    }
  }

  /** Each record that passed the filters, dated (line 70), with its
      reading under its type (line 72), in order. */
  function Dated(kept: seq<Kept>, monthNum: string, varType: string): (r: seq<Row>)
    ensures |r| == |kept|
  {
    seq(|kept|, k requires 0 <= k < |kept| =>
      RowOf(DateOf(kept[k].rec.day, monthNum, kept[k].year), varType, kept[k].rec.value))
  }

  lemma DatedAppend(a: seq<Kept>, b: seq<Kept>, monthNum: string, varType: string)
    ensures Dated(a + b, monthNum, varType) == Dated(a, monthNum, varType) + Dated(b, monthNum, varType)
  {
    var whole := Dated(a + b, monthNum, varType);
    var parts := Dated(a, monthNum, varType) + Dated(b, monthNum, varType);
    forall k | 0 <= k < |whole| ensures whole[k] == parts[k] {
      if k < |a| {
        assert (a + b)[k] == a[k];
      } else {
        assert (a + b)[k] == b[k - |a|];
      }
    }
  }

  /** The filtering and dating of one file is exactly the year filter
      followed by dating each kept record: no record is added, dropped
      beyond the filter, reordered or altered beyond its date. */
  lemma {:induction false} KeepDatedRecords(ms: seq<Melted>, monthNum: string, varType: string)
    ensures KeepDated(ms, monthNum, varType) == Dated(KeptRecords(ms), monthNum, varType)
  {
    if ms != [] {
      KeepDatedRecords(ms[1..], monthNum, varType);
      var m := ms[0];
      var head := if KeptYear(m.year) then [Kept(m, YearOf(m.year).value)] else [];
      var dated := if KeptYear(m.year) then [RowOf(DateOf(m.day, monthNum, YearOf(m.year).value), varType, m.value)]
                   else [];
      assert KeepDated(ms, monthNum, varType) == dated + KeepDated(ms[1..], monthNum, varType);
      assert KeptRecords(ms) == head + KeptRecords(ms[1..]);
      assert Dated(head, monthNum, varType) == dated;
      DatedAppend(head, KeptRecords(ms[1..]), monthNum, varType);
    }
  }

  /** Lines 54-72 for one file: melt, filter the years, date the records,
      keep the date and the reading. */
  function ProcessFile(t: Csv, width: nat, monthNum: string, varType: string): seq<Row>
    requires Rectangular(t, width)
  {
    KeepDated(LoadAndMelt(t, width), monthNum, varType)
  }

  // ---------------------------------------------------------------------
  // Dates

  /** `date.split('-')` read as three integers (day, month, year); None
      where pandas would fail. */
  function DateParts(date: string): Option<(int, int, int)> {
    var p := Split(date, '-');
    if |p| != 3 then None
    else match (ParseInt(p[0]), ParseInt(p[1]), ParseInt(p[2]))
      case (Some(d), Some(m), Some(y)) => Some((d, m, y))
      case _ => None
  }

  /** The rebuilt date, `f"{day:02d}-{month:02d}-{year}"`. */
  function Rebuild(d: int, m: int, y: int): string {
    Pad2(d) + "-" + Pad2(m) + "-" + IntToString(y)
  }

  /** A date as the script writes it for a kept record. */
  predicate WellDated(date: string) {
    match DateParts(date)
    case None => false
    case Some((d, m, y)) =>
      1 <= d <= 31 && 1 <= m <= 12 && MIN_YEAR <= y <= MAX_YEAR && date == DateOf(d, Pad2(m), y)
  }

  /** Every date the script builds for a kept record is such a date. */
  lemma BuiltDateWellDated(d: int, m: int, y: int)
    requires 1 <= d <= 31 && 1 <= m <= 12 && MIN_YEAR <= y <= MAX_YEAR
    ensures WellDated(DateOf(d, Pad2(m), y))
  {
    DateRoundTrip(d, m, y);
  }

  /** Splitting such a date gives back day, month and year, and rebuilding
      it gives the same text. */
  lemma DateRoundTrip(d: int, m: int, y: int)
    requires 1 <= d <= 31 && 1 <= m <= 12 && MIN_YEAR <= y <= MAX_YEAR
    ensures DateParts(DateOf(d, Pad2(m), y)) == Some((d, m, y))
    ensures Rebuild(d, m, y) == DateOf(d, Pad2(m), y)
  {
    var a, b, c := Pad2(d), Pad2(m), IntToString(y);
    Pad2RoundTrip(d);
    Pad2RoundTrip(m);
    IntRoundTrip(y);
    assert '-' !in a && '-' !in b by {
      assert IsDigit(a[0]) && IsDigit(a[1]) && IsDigit(b[0]) && IsDigit(b[1]);
    }
    assert '-' !in c by {
      assert AllDigits(c);
    }
    var s := DateOf(d, b, y);
    assert s == a + ['-'] + (b + ['-'] + c);
    SplitAtSep(a, b + ['-'] + c, '-');
    SplitAtSep(b, c, '-');
    SplitNoSep(c, '-');
  }

  /** The records of a file all carry well-formed dates. */
  lemma {:induction false} KeepDatedWellDated(ms: seq<Melted>, i: int, varType: string)
    requires 1 <= i <= 12
    requires forall k | 0 <= k < |ms| :: 1 <= ms[k].day <= 31
    ensures forall k | 0 <= k < |KeepDated(ms, Pad2(i), varType)| :: WellDated(KeepDated(ms, Pad2(i), varType)[k].date)
  {
    if ms != [] {
      KeepDatedWellDated(ms[1..], i, varType);
      var m := ms[0];
      if KeptYear(m.year) {
        BuiltDateWellDated(m.day, i, YearOf(m.year).value);
      }
    }
  }

  lemma ProcessFileWellDated(t: Csv, width: nat, i: int, varType: string)
    requires Rectangular(t, width) && 1 <= i <= 12
    ensures forall k | 0 <= k < |ProcessFile(t, width, Pad2(i), varType)| ::
      WellDated(ProcessFile(t, width, Pad2(i), varType)[k].date)
  {
    LoadAndMeltShape(t, width);
    KeepDatedWellDated(LoadAndMelt(t, width), i, varType);
  }

  // ---------------------------------------------------------------------
  // The final table

  /** The sort key `(year, month, day)`. */
  function DateKey(r: Row): seq<int> {
    match DateParts(r.date)
    case Some((d, m, y)) => [y, m, d]
    case None => []
  }

  /** The rows with their dates rebuilt from the split parts. */
  function Rebuilt(rows: seq<Row>): (r: seq<Row>)
    requires forall i | 0 <= i < |rows| :: DateParts(rows[i].date).Some?
    ensures |r| == |rows|
  {
    seq(|rows|, i requires 0 <= i < |rows| =>
      var p := DateParts(rows[i].date).value;
      rows[i].(date := Rebuild(p.0, p.1, p.2)))
  }

  /** Lines 91-97: split the dates, sort by (year, month, day), rebuild the
      dates. None when a date does not split into three integers. */
  function SortAndRebuild(rows: seq<Row>): Option<seq<Row>> {
    if exists i | 0 <= i < |rows| :: DateParts(rows[i].date).None? then None
    else
      var sorted := Sorting.SortBy(rows, DateKey);
      assert forall i | 0 <= i < |sorted| :: DateParts(sorted[i].date).Some? by {
        forall i | 0 <= i < |sorted| ensures DateParts(sorted[i].date).Some? {
          assert sorted[i] in multiset(rows);
        }
      }
      Some(Rebuilt(sorted))
  }

  /** A date the script wrote splits into its parts and rebuilds to
      itself. */
  lemma WellDatedRebuilds(date: string)
    requires WellDated(date)
    ensures DateParts(date).Some?
    ensures var p := DateParts(date).value; Rebuild(p.0, p.1, p.2) == date
  {
    var (d, m, y) := DateParts(date).value;
    DateRoundTrip(d, m, y);
  }

  /** When every date is one the script wrote, sorting and rebuilding
      succeeds, changes no date, and yields the records in chronological
      order, each exactly once. */
  lemma SortAndRebuildKeepsDates(rows: seq<Row>)
    requires forall i | 0 <= i < |rows| :: WellDated(rows[i].date)
    ensures SortAndRebuild(rows) == Some(Sorting.SortBy(rows, DateKey))
    ensures Sorting.SortedBy(Sorting.SortBy(rows, DateKey), DateKey)
    ensures multiset(Sorting.SortBy(rows, DateKey)) == multiset(rows)
  {
    AllParse(rows);
    var sorted := Sorting.SortBy(rows, DateKey);
    forall i | 0 <= i < |sorted| ensures WellDated(sorted[i].date) {
      assert sorted[i] in multiset(rows);
    }
    RebuiltUnchanged(sorted);
  }

  lemma AllParse(rows: seq<Row>)
    requires forall i | 0 <= i < |rows| :: WellDated(rows[i].date)
    ensures forall i | 0 <= i < |rows| :: DateParts(rows[i].date).Some?
  {
    forall i | 0 <= i < |rows| ensures DateParts(rows[i].date).Some? {
      WellDatedRebuilds(rows[i].date);
    }
  }

  /** Rebuilding dates the script wrote changes nothing. */
  lemma RebuiltUnchanged(rows: seq<Row>)
    requires forall i | 0 <= i < |rows| :: WellDated(rows[i].date)
    ensures forall i | 0 <= i < |rows| :: DateParts(rows[i].date).Some?
    ensures Rebuilt(rows) == rows
  {
    AllParse(rows);
    var r := Rebuilt(rows);
    forall i | 0 <= i < |rows| ensures r[i] == rows[i] {
      WellDatedRebuilds(rows[i].date);
    }
  }

  /** The header of the master file. */
  const OUTPUT_COLUMNS: seq<string> := ["date", "max", "min", "precipitation"]

  /** A reading as `to_csv` writes it: NaN as an empty field. */
  function Field(v: Option<string>): string {
    match v
    case Some(s) => s
    case None => ""
  }

  /** `final_df[['date', 'max', 'min', 'precipitation']].to_csv(index=False)`. */
  function OutputCsv(rows: seq<Row>): (lines: Csv)
    ensures |lines| == |rows| + 1 && lines[0] == OUTPUT_COLUMNS
    ensures forall i | 0 <= i < |rows| ::
      lines[i + 1] == [rows[i].date, Field(rows[i].max), Field(rows[i].min), Field(rows[i].precipitation)]
  {
    [OUTPUT_COLUMNS] + seq(|rows|, i requires 0 <= i < |rows| =>
      [rows[i].date, Field(rows[i].max), Field(rows[i].min), Field(rows[i].precipitation)])
  }

  // ---------------------------------------------------------------------
  // The script's loops

  /** A file in a `csv_output` folder: its name, its rows and their width. */
  datatype CsvFile = CsvFile(name: string, rows: Csv, width: nat)

  /** A month folder: for each type whose `csv_output` folder exists, the
      files in it. */
  datatype MonthFolder = MonthFolder(types: map<string, seq<CsvFile>>)

  /** The month folders that exist under `output`. */
  type Tree = map<string, MonthFolder>

  predicate WellRead(tree: Tree) {
    forall m, t, k | m in tree && t in tree[m].types && 0 <= k < |tree[m].types[t]| ::
      Rectangular(tree[m].types[t][k].rows, tree[m].types[t][k].width)
  }

  /** `glob(f'{month}_{type}_*.csv')` over the folder's files, in listing
      order. */
  function Glob(files: seq<CsvFile>, prefix: string): (r: seq<CsvFile>)
    ensures forall k | 0 <= k < |r| :: r[k] in files
  {
    if files == [] then []
    else
      var last := files[|files| - 1];
      Glob(files[..|files| - 1], prefix)
      + (if |last.name| >= |prefix| + 4 && StartsWith(last.name, prefix) && EndsWith(last.name, ".csv")
         then [last] else [])
  }

  /** `pd.concat(frames, ignore_index=True)`. */
  function Concat(frames: seq<seq<Row>>): seq<Row> {
    if frames == [] then [] else Concat(frames[..|frames| - 1]) + frames[|frames| - 1]
  }

  /** The files of one type, concatenated after processing. */
  function TypeFrame(files: seq<CsvFile>, monthNum: string, varType: string): seq<Row>
    requires forall k | 0 <= k < |files| :: Rectangular(files[k].rows, files[k].width)
  {
    Concat(seq(|files|, k requires 0 <= k < |files| => ProcessFile(files[k].rows, files[k].width, monthNum, varType)))
  }

  /** The files of type `t` in month `m`, or none when its folder is
      missing. */
  function TypeFiles(tree: Tree, m: string, t: string): seq<CsvFile>
    requires m in tree
  {
    if t in tree[m].types then Glob(tree[m].types[t], m + "_" + t + "_") else []
  }

  /** `month_data` after the types `ts`: the first frame found, then each
      further one merged in. */
  function MonthData(tree: Tree, merge: (seq<Row>, seq<Row>) -> seq<Row>, m: string, num: string,
                     ts: seq<string>): Option<seq<Row>>
    requires WellRead(tree) && m in tree
  {
    if ts == [] then None
    else
      var t := ts[|ts| - 1];
      var acc := MonthData(tree, merge, m, num, ts[..|ts| - 1]);
      var files := TypeFiles(tree, m, t);
      if files == [] then acc
      else
        var frame := TypeFrame(files, num, t);
        match acc
        case None => Some(frame)
        case Some(a) => Some(merge(a, frame))
  }

  /** `all_data` after the (month, number) pairs `ms`. */
  function AllData(tree: Tree, merge: (seq<Row>, seq<Row>) -> seq<Row>, ms: seq<(string, string)>): seq<seq<Row>>
    requires WellRead(tree)
  {
    if ms == [] then []
    else
      var (m, num) := ms[|ms| - 1];
      var acc := AllData(tree, merge, ms[..|ms| - 1]);
      if m !in tree then acc
      else match MonthData(tree, merge, m, num, TYPES)
        case None => acc
        case Some(frame) => acc + [frame]
  }

  /** The reading columns the concatenated table has: the types some month
      had files for. */
  function Columns(tree: Tree, ms: seq<(string, string)>): set<string> {
    if ms == [] then {}
    else
      var m := ms[|ms| - 1].0;
      Columns(tree, ms[..|ms| - 1])
      + (if m in tree then set t | t in TYPES && TypeFiles(tree, m, t) != [] else {})
  }

  /** How a run ends: nothing found, the column selection failing, the
      date split of line 91 raising, or the master file written. */
  datatype Outcome = NoData | MissingColumn | BadDate | Written(lines: Csv)

  /** The whole script. When every record was filtered out, each frame's
      `date` column comes out of the empty `apply` of line 70 as floats,
      and `str.split` on line 91 raises, as it does on a date that does not
      split. */
  function RunSpec(tree: Tree, merge: (seq<Row>, seq<Row>) -> seq<Row>): Outcome
    requires WellRead(tree)
  {
    var all := AllData(tree, merge, MONTH_TO_NUMBER);
    if all == [] then NoData
    else if Columns(tree, MONTH_TO_NUMBER) != {"max", "min", "precipitation"} then MissingColumn
    else if Concat(all) == [] then BadDate
    else match SortAndRebuild(Concat(all))
      case None => BadDate
      case Some(rows) => Written(OutputCsv(rows))
  }

  // ---------------------------------------------------------------------
  // What a run writes

  /** Every record carries a date the script wrote. */
  predicate AllWellDated(rows: seq<Row>) {
    forall k | 0 <= k < |rows| :: WellDated(rows[k].date)
  }

  /** The outer join on `date` only produces dates found in its inputs. */
  ghost predicate MergeKeepsDates(merge: (seq<Row>, seq<Row>) -> seq<Row>) {
    forall a, b {:trigger merge(a, b)} :: AllWellDated(a) && AllWellDated(b) ==> AllWellDated(merge(a, b))
  }

  lemma {:induction false} ConcatWellDated(frames: seq<seq<Row>>)
    requires forall i | 0 <= i < |frames| :: AllWellDated(frames[i])
    ensures AllWellDated(Concat(frames))
  {
    if frames != [] {
      var init := frames[..|frames| - 1];
      ConcatWellDated(init);
      var a: seq<Row>, b: seq<Row> := Concat(init), frames[|frames| - 1];
      forall k | 0 <= k < |a + b| ensures WellDated((a + b)[k].date) {
        if k >= |a| {
          assert (a + b)[k] == b[k - |a|];
        }
      }
    }
  }

  lemma TypeFrameWellDated(files: seq<CsvFile>, i: int, varType: string)
    requires forall k | 0 <= k < |files| :: Rectangular(files[k].rows, files[k].width)
    requires 1 <= i <= 12
    ensures AllWellDated(TypeFrame(files, Pad2(i), varType))
  {
    var frames := seq(|files|, k requires 0 <= k < |files| =>
      ProcessFile(files[k].rows, files[k].width, Pad2(i), varType));
    forall k | 0 <= k < |frames| ensures AllWellDated(frames[k]) {
      ProcessFileWellDated(files[k].rows, files[k].width, i, varType);
    }
    ConcatWellDated(frames);
  }

  lemma {:induction false} MonthDataWellDated(tree: Tree, merge: (seq<Row>, seq<Row>) -> seq<Row>,
                                              m: string, i: int, ts: seq<string>)
    requires WellRead(tree) && m in tree && MergeKeepsDates(merge) && 1 <= i <= 12
    ensures var data := MonthData(tree, merge, m, Pad2(i), ts);
      data.Some? ==> AllWellDated(data.value)
  {
    if ts != [] {
      var t := ts[|ts| - 1];
      MonthDataWellDated(tree, merge, m, i, ts[..|ts| - 1]);
      var acc := MonthData(tree, merge, m, Pad2(i), ts[..|ts| - 1]);
      var files := TypeFiles(tree, m, t);
      if files != [] {
        TypeFrameWellDated(files, i, t);
        var frame := TypeFrame(files, Pad2(i), t);
        assert MonthData(tree, merge, m, Pad2(i), ts)
          == if acc.None? then Some(frame) else Some(merge(acc.value, frame));
        if acc.Some? {
          MergeWellDated(merge, acc.value, frame);
        }
      }
    }
  }

  lemma MergeWellDated(merge: (seq<Row>, seq<Row>) -> seq<Row>, a: seq<Row>, b: seq<Row>)
    requires MergeKeepsDates(merge) && AllWellDated(a) && AllWellDated(b)
    ensures AllWellDated(merge(a, b))
  {
  }

  /** Each month's frame in `all_data` carries only dates the script
      wrote. */
  lemma {:induction false} AllDataWellDated(tree: Tree, merge: (seq<Row>, seq<Row>) -> seq<Row>, n: nat)
    requires WellRead(tree) && MergeKeepsDates(merge) && n <= |MONTH_TO_NUMBER|
    ensures var all := AllData(tree, merge, MONTH_TO_NUMBER[..n]);
      forall j | 0 <= j < |all| :: AllWellDated(all[j])
  {
    if n > 0 {
      AllDataWellDated(tree, merge, n - 1);
      RunStep(tree, merge, MONTH_TO_NUMBER, n - 1);
      MonthNumbersPadded();
      var (m, num) := MONTH_TO_NUMBER[n - 1];
      if m in tree {
        MonthDataWellDated(tree, merge, m, n, TYPES);
      }
    }
  }

  /** Every date a run builds splits, so the split of line 91 fails only
      when no record is left at all. When the run writes the master file,
      the file holds every record of every month, each exactly once, in
      chronological order, with its date as it was built. */
  lemma RunWritesChronologically(tree: Tree, merge: (seq<Row>, seq<Row>) -> seq<Row>)
    requires WellRead(tree) && MergeKeepsDates(merge)
    ensures RunSpec(tree, merge) == BadDate ==> Concat(AllData(tree, merge, MONTH_TO_NUMBER)) == []
    ensures var records := Concat(AllData(tree, merge, MONTH_TO_NUMBER));
      var sorted := Sorting.SortBy(records, DateKey);
      RunSpec(tree, merge).Written? ==>
        RunSpec(tree, merge).lines == OutputCsv(sorted)
        && Sorting.SortedBy(sorted, DateKey)
        && multiset(sorted) == multiset(records)
  {
    var records := Concat(AllData(tree, merge, MONTH_TO_NUMBER));
    RecordsWellDated(tree, merge);
    SortAndRebuildKeepsDates(records);
    RunEnds(tree, merge);
  }

  /** How the end of a run depends on the final table alone. */
  lemma RunEnds(tree: Tree, merge: (seq<Row>, seq<Row>) -> seq<Row>)
    requires WellRead(tree)
    ensures var records := Concat(AllData(tree, merge, MONTH_TO_NUMBER));
      var r := RunSpec(tree, merge);
      (r == BadDate ==> records == [] || SortAndRebuild(records).None?)
      && (r.Written? ==> SortAndRebuild(records).Some? && r.lines == OutputCsv(SortAndRebuild(records).value))
  {
  }

  /** Every record of the final table carries a date the script wrote. */
  lemma RecordsWellDated(tree: Tree, merge: (seq<Row>, seq<Row>) -> seq<Row>)
    requires WellRead(tree) && MergeKeepsDates(merge)
    ensures AllWellDated(Concat(AllData(tree, merge, MONTH_TO_NUMBER)))
  {
    AllDataWellDated(tree, merge, 12);
    assert var all := AllData(tree, merge, MONTH_TO_NUMBER[..12]);
      forall j | 0 <= j < |all| :: AllWellDated(all[j]);
    assert MONTH_TO_NUMBER[..12] == MONTH_TO_NUMBER;
    ConcatWellDated(AllData(tree, merge, MONTH_TO_NUMBER));
  }

  /** What one month adds to `all_data` and to the columns. */
  lemma RunStep(tree: Tree, merge: (seq<Row>, seq<Row>) -> seq<Row>, ms: seq<(string, string)>, i: nat)
    requires WellRead(tree) && i < |ms|
    ensures var (m, num) := ms[i];
      AllData(tree, merge, ms[..i + 1])
        == (if m !in tree then AllData(tree, merge, ms[..i])
            else match MonthData(tree, merge, m, num, TYPES)
              case None => AllData(tree, merge, ms[..i])
              case Some(frame) => AllData(tree, merge, ms[..i]) + [frame])
      && Columns(tree, ms[..i + 1])
        == Columns(tree, ms[..i]) + (if m in tree then set t | t in TYPES && TypeFiles(tree, m, t) != [] else {})
  {
    assert ms[..i + 1][..i] == ms[..i];
  }

  /** Lines 31-106: the loops over months, types and files, then the final
      table. */
  method Run(tree: Tree, merge: (seq<Row>, seq<Row>) -> seq<Row>) returns (out: Outcome)
    requires WellRead(tree)
    ensures out == RunSpec(tree, merge)
  {
    var allData: seq<seq<Row>> := [];
    var columns: set<string> := {};
    for i := 0 to |MONTH_TO_NUMBER|
      invariant allData == AllData(tree, merge, MONTH_TO_NUMBER[..i])
      invariant columns == Columns(tree, MONTH_TO_NUMBER[..i])
    {
      var (month, monthNum) := MONTH_TO_NUMBER[i];
      RunStep(tree, merge, MONTH_TO_NUMBER, i);
      if month !in tree {
        continue;
      }
      var monthData, found := MonthLoop(tree, merge, month, monthNum);
      if monthData.Some? {
        allData := allData + [monthData.value];
      }
      columns := columns + found;
    }
    assert MONTH_TO_NUMBER[..|MONTH_TO_NUMBER|] == MONTH_TO_NUMBER;
    if allData == [] {
      return NoData;
    }
    var final := Concat(allData);
    if columns != {"max", "min", "precipitation"} {
      return MissingColumn;
    }
    if final == [] {
      return BadDate;
    }
    var rows := SortAndRebuild(final);
    if rows.None? {
      return BadDate;
    }
    return Written(OutputCsv(rows.value));
  }

  /** The types among `ts` that have files in month `m`. */
  function Found(tree: Tree, m: string, ts: seq<string>): set<string>
    requires m in tree
  {
    set t | t in ts && TypeFiles(tree, m, t) != []
  }

  /** What one type adds to `month_data` and to the columns found. */
  lemma MonthStep(tree: Tree, merge: (seq<Row>, seq<Row>) -> seq<Row>, m: string, num: string,
                  ts: seq<string>, j: nat)
    requires WellRead(tree) && m in tree && j < |ts|
    ensures var files := TypeFiles(tree, m, ts[j]);
      var acc := MonthData(tree, merge, m, num, ts[..j]);
      MonthData(tree, merge, m, num, ts[..j + 1])
        == (if files == [] then acc
            else match acc
              case None => Some(TypeFrame(files, num, ts[j]))
              case Some(a) => Some(merge(a, TypeFrame(files, num, ts[j]))))
      && Found(tree, m, ts[..j + 1]) == Found(tree, m, ts[..j]) + (if files == [] then {} else {ts[j]})
  {
    assert ts[..j + 1][..j] == ts[..j];
    assert forall t :: t in ts[..j + 1] <==> t in ts[..j] || t == ts[j];
  }

  /** The loop over the types of one month (lines 42-79). */
  method MonthLoop(tree: Tree, merge: (seq<Row>, seq<Row>) -> seq<Row>, month: string, monthNum: string)
    returns (monthData: Option<seq<Row>>, found: set<string>)
    requires WellRead(tree) && month in tree
    ensures monthData == MonthData(tree, merge, month, monthNum, TYPES)
    ensures found == set t | t in TYPES && TypeFiles(tree, month, t) != []
  {
    monthData := None;
    found := {};
    for j := 0 to |TYPES|
      invariant monthData == MonthData(tree, merge, month, monthNum, TYPES[..j])
      invariant found == Found(tree, month, TYPES[..j])
    {
      var varType := TYPES[j];
      MonthStep(tree, merge, month, monthNum, TYPES, j);
      if varType !in tree[month].types {
        continue;
      }
      var files := Glob(tree[month].types[varType], month + "_" + varType + "_");
      if files == [] {
        continue;
      }
      var varFrames := FileLoop(files, monthNum, varType);
      var varDf := Concat(varFrames);
      if monthData.None? {
        monthData := Some(varDf);
      } else {
        monthData := Some(merge(monthData.value, varDf));
      }
      found := found + {varType};
    }
    assert TYPES[..|TYPES|] == TYPES;
  }

  /** The loop over the files of one type (lines 53-72). */
  method FileLoop(files: seq<CsvFile>, monthNum: string, varType: string) returns (frames: seq<seq<Row>>)
    requires forall k | 0 <= k < |files| :: Rectangular(files[k].rows, files[k].width)
    ensures frames == seq(|files|, k requires 0 <= k < |files| =>
      ProcessFile(files[k].rows, files[k].width, monthNum, varType))
  {
    frames := [];
    for k := 0 to |files|
      invariant frames == seq(k, k2 requires 0 <= k2 < k =>
        ProcessFile(files[k2].rows, files[k2].width, monthNum, varType))
    {
      frames := frames + [ProcessFile(files[k].rows, files[k].width, monthNum, varType)];
    }
  }
}
