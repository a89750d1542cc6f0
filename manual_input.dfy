/** The manual data-entry tool (`ManualInputGUI`): the operator is shown the
    segmented cell images one at a time and types each value; the values
    fill a `rows` x `cols` sheet in row-major order, and the sheet is
    written to a CSV file when the images or the rows run out.

    Pure functions describe each handler over a `View` of the tool's
    fields; the `ManualEntry` class holds those fields, and its methods,
    which follow the handlers statement by statement, are proved to
    produce exactly that view. Reading and writing files, showing images
    and the prompt window are outside the model: the directory listing,
    the CSV read and the operator's typing are parameters, and the files
    written are recorded in `saved`. */
module ManualInput {
  import opened Wrappers
  import opened Text
  import Sorting
  import EC = ErrorChecker

  /** The sheet: `self.data`, a list of rows of strings. */
  type Sheet = seq<seq<string>>

  /** The sheet size before any file is chosen. */
  const DEFAULT_ROWS := 22
  const DEFAULT_COLS := 33

  // ---------------------------------------------------------------------
  // The stored value

  /** What `save_and_next` stores for the typed text: "NaN" for blank input,
      otherwise the stripped text with every `/` turned into a line break. */
  function Normalise(text: string): string {
    var v := Trim(text);
    if v == "" then "NaN" else ReplaceChar(v, '/', '\n')
  }

  /** A stored value is never blank and never holds a `/`; blank input is
      stored as "NaN", and any other input comes back from the stored value
      by turning the line breaks into `/` again, as long as the operator
      typed no line break. */
  lemma NormaliseSpec(text: string)
    ensures Normalise(text) != "" && '/' !in Normalise(text)
    ensures Trim(text) == "" ==> Normalise(text) == "NaN"
    ensures Trim(text) != "" && '\n' !in Trim(text) ==>
      ReplaceChar(Normalise(text), '\n', '/') == Trim(text)
  {
    var v := Trim(text);
    if v != "" {
      ReplaceCharRemoves(v, '/', '\n');
      if '\n' !in v {
        var r := ReplaceChar(v, '/', '\n');
        assert forall i | 0 <= i < |v| :: ReplaceChar(r, '\n', '/')[i] == v[i];
      }
    }
  }

  /** The `/` key puts a line break into the text being typed. Between two
      pieces of text this stores the same value as typing `/` itself. */
  lemma SlashKeyInside(a: string, b: string)
    requires a != [] && !IsSpace(a[0]) && b != [] && !IsSpace(b[|b| - 1])
    ensures Normalise(a + "\n" + b) == Normalise(a + "/" + b)
  {
    var s1, s2 := a + "\n" + b, a + "/" + b;
    TrimUnpadded(s1);
    TrimUnpadded(s2);
    assert forall i | 0 <= i < |s1| :: ReplaceChar(s1, '/', '\n')[i] == ReplaceChar(s2, '/', '\n')[i];
  }

  /** At the end of the text, though, the line break from the `/` key is
      stripped away before the value is stored, where a typed `/` would
      have become a line break. */
  lemma SlashKeyAtEnd(a: string)
    requires a != [] && !IsSpace(a[0]) && !IsSpace(a[|a| - 1])
    ensures Normalise(a + "\n") == Normalise(a)
    ensures Normalise(a + "/") == Normalise(a) + "\n"
  {
    var s := a + "\n";
    TrimUnpadded(a);
    assert SkipSpaces(s, 0) == 0;
    assert SkipSpacesBack(s, 0, |s|) == SkipSpacesBack(s, 0, |a|) == |a|;
    assert Trim(s) == a;
    var t := a + "/";
    TrimUnpadded(t);
    assert ReplaceChar(t, '/', '\n') == ReplaceChar(a, '/', '\n') + "\n";
  }

  // ---------------------------------------------------------------------
  // The cursor

  /** `row_idx * cols + col_idx`: where the cursor's image sits in the list
      of collected images. */
  function FlatIndex(row: nat, col: nat, cols: nat): nat {
    row * cols + col
  }

  /** The step after a value is stored: the next column, or column 0 of
      the next row once `cols` is reached. */
  function Advance(row: nat, col: nat, cols: nat): (nat, nat) {
    if col + 1 >= cols then (row + 1, 0) else (row, col + 1)
  }

  /** From a cursor inside the sheet's width, the step moves to the very
      next image, and the cursor stays inside the width. */
  lemma AdvanceStepsOneImage(row: nat, col: nat, cols: nat)
    requires col < cols
    ensures var (r, c) := Advance(row, col, cols);
      c < cols && FlatIndex(r, c, cols) == FlatIndex(row, col, cols) + 1
  {
    if col + 1 >= cols {
      assert (row + 1) * cols == row * cols + cols;
    }
  }

  // ---------------------------------------------------------------------
  // The tool's state and its handlers

  /** One CSV file written: its name in the output folder and the sheet. */
  datatype SavedCsv = SavedCsv(name: string, sheet: Sheet)

  /** Every field of `ManualInputGUI` the handlers read or write, with the
      files written so far and whether `finish` has run. The
      collected images and the table number never change and are passed
      alongside. */
  datatype View = View(rows: nat, cols: nat, row: nat, col: nat, data: Sheet,
                       selected: Option<string>, input: string, shown: Option<string>,
                       saved: seq<SavedCsv>, finished: bool)

  /** `self.selected_file or f"manual_input_table_{table_number}.csv"`. */
  function SaveName(selected: Option<string>, tableNumber: string): (r: string)
    ensures selected.Some? && selected.value != "" ==> r == selected.value
  {
    match selected
    case Some(s) => if s != "" then s else "manual_input_table_" + tableNumber + ".csv"
    case None => "manual_input_table_" + tableNumber + ".csv"
  }

  /** `save_csv`: the sheet is written under the chosen name. */
  function SaveSpec(v: View, tableNumber: string): View {
    v.(saved := v.saved + [SavedCsv(SaveName(v.selected, tableNumber), v.data)])
  }

  /** `finish`: the sheet is written and `root.quit()` is called, recorded
      as `finished`. A `quit()` before `root.mainloop()` has started (a
      finish during `__init__`'s `load_image`) does not end the main loop,
      so the handlers can still run after a finish. */
  function FinishSpec(v: View, tableNumber: string): View {
    SaveSpec(v, tableNumber).(finished := true)
  }

  /** `load_image`: past the last row, or past the last collected image,
      the tool finishes; otherwise the image at the cursor's flat index is
      shown. */
  function LoadImageSpec(v: View, images: seq<string>, tableNumber: string): View {
    var i := FlatIndex(v.row, v.col, v.cols);
    if v.row >= v.rows || i >= |images| then FinishSpec(v, tableNumber)
    else v.(shown := Some(images[i]))
  }

  /** Whether `self.data[self.row_idx][self.col_idx]` exists; otherwise the
      assignment raises `IndexError` and the handler stops there. */
  predicate InSheet(v: View) {
    v.row < |v.data| && v.col < |v.data[v.row]|
  }

  /** `save_and_next`: the typed value is stored at the cursor, the entry is
      cleared, the cursor advances and the next image is loaded. */
  function SaveAndNextSpec(v: View, images: seq<string>, tableNumber: string): View {
    if !InSheet(v) then v
    else
      var next := Advance(v.row, v.col, v.cols);
      var w := v.(data := v.data[v.row := v.data[v.row][v.col := Normalise(v.input)]], input := "",
                  row := next.0, col := next.1);
      LoadImageSpec(w, images, tableNumber)
  }

  /** Loading an image changes neither the sheet nor the cursor. It finishes
      (writing the sheet once) exactly when the cursor is past the last row
      or past the last image, and otherwise shows the image at the
      cursor's flat index. */
  lemma LoadImageOutcome(v: View, images: seq<string>, tableNumber: string)
    ensures var n := LoadImageSpec(v, images, tableNumber);
      var done := v.row >= v.rows || FlatIndex(v.row, v.col, v.cols) >= |images|;
      n.data == v.data && n.row == v.row && n.col == v.col && n.input == v.input
      && (done ==> n.finished && n.saved == v.saved + [SavedCsv(SaveName(v.selected, tableNumber), v.data)])
      && (!done ==> n.finished == v.finished && n.saved == v.saved
                    && n.shown == Some(images[FlatIndex(v.row, v.col, v.cols)]))
  {
  }

  /** A stored value lands in exactly the cursor's cell, normalised, and no
      other cell changes; the entry is cleared and the cursor moves on to
      the very next image, which is shown unless the rows or the images have
      run out, in which case the sheet is written. Outside the sheet nothing
      changes. */
  lemma SaveAndNextStores(v: View, images: seq<string>, tableNumber: string)
    requires v.col < v.cols
    ensures var n := SaveAndNextSpec(v, images, tableNumber);
      (!InSheet(v) ==> n == v)
      && (InSheet(v) ==>
            |n.data| == |v.data|
            && (forall r | 0 <= r < |v.data| :: |n.data[r]| == |v.data[r]|)
            && n.data[v.row][v.col] == Normalise(v.input)
            && (forall r, c | 0 <= r < |v.data| && 0 <= c < |v.data[r]| && (r, c) != (v.row, v.col) ::
                  n.data[r][c] == v.data[r][c])
            && n.input == ""
            && FlatIndex(n.row, n.col, n.cols) == FlatIndex(v.row, v.col, v.cols) + 1
            && n.col < n.cols
            && (n.finished <==> v.finished || n.row >= v.rows || FlatIndex(v.row, v.col, v.cols) + 1 >= |images|)
            && (!n.finished ==> n.shown == Some(images[FlatIndex(v.row, v.col, v.cols) + 1])))
  {
    if InSheet(v) {
      AdvanceStepsOneImage(v.row, v.col, v.cols);
    }
  }

  // ---------------------------------------------------------------------
  // Choosing the file and resuming

  /** The file name `confirm` settles on: the typed new name, or else the
      file picked from the list, both stripped, with ".csv" added unless
      already there. */
  function ChooseFile(entry: string, dropdown: string): string {
    var choice := if Trim(entry) != "" then Trim(entry) else Trim(dropdown);
    if EndsWith(choice, ".csv") then choice else choice + ".csv"
  }

  /** The chosen name ends in ".csv" and starts with the typed name when
      there is one, else with the picked one; choosing it again keeps it. */
  lemma ChooseFileSpec(entry: string, dropdown: string, other: string)
    ensures var f := ChooseFile(entry, dropdown);
      EndsWith(f, ".csv")
      && StartsWith(f, if Trim(entry) != "" then Trim(entry) else Trim(dropdown))
      && ChooseFile(f, other) == f
    ensures var choice := if Trim(entry) != "" then Trim(entry) else Trim(dropdown);
      var f := ChooseFile(entry, dropdown);
      (EndsWith(choice, ".csv") ==> f == choice) && (!EndsWith(choice, ".csv") ==> f == choice + ".csv")
  {
    var choice := if Trim(entry) != "" then Trim(entry) else Trim(dropdown);
    var f := ChooseFile(entry, dropdown);
    if !EndsWith(choice, ".csv") {
      assert f[|f| - 4..] == ".csv";
      assert f[..|choice|] == choice;
    }
    assert f != [] && !IsSpace(f[0]) && !IsSpace(f[|f| - 1]) by {
      if choice != [] {
        assert f[0] == choice[0];
      }
    }
    TrimUnpadded(f);
  }

  /** `df.fillna("NaN")` followed by `df.values.tolist()`. */
  function FillNa(t: EC.Table): (d: Sheet)
    ensures |d| == |t| && forall r | 0 <= r < |t| :: |d[r]| == |t[r]|
  {
    seq(|t|, r requires 0 <= r < |t| =>
      seq(|t[r]|, c requires 0 <= c < |t[r]| => match t[r][c] case Value(s) => s case Missing => "NaN"))
  }

  /** A file as `pd.read_csv` returns it: every row as long as the first. */
  predicate Uniform(t: EC.Table) {
    forall r | 0 <= r < |t| :: |t[r]| == |t[0]|
  }

  /** A new sheet: `rows` rows of `cols` "NaN" values. */
  function BlankSheet(rows: nat, cols: nat): (d: Sheet)
    ensures |d| == rows && forall r | 0 <= r < rows :: d[r] == seq(cols, _ => "NaN")
  {
    seq(rows, _ => seq(cols, _ => "NaN"))
  }

  /** Which cells of the sheet still hold "NaN". */
  function NaNMarks(d: Sheet): (m: seq<seq<bool>>)
    ensures |m| == |d| && forall r | 0 <= r < |d| :: |m[r]| == |d[r]|
  {
    seq(|d|, r requires 0 <= r < |d| => seq(|d[r]|, c requires 0 <= c < |d[r]| => d[r][c] == "NaN"))
  }

  /** `confirm` in `load_or_prompt_csv`: the chosen file is remembered. An
      existing file becomes the sheet, its size is taken from it (33
      columns when it has no rows), and the cursor moves to its first
      "NaN" cell in row-major order, staying put when there is none. A new
      file gets a blank sheet of the current size and the cursor (0, 0). */
  function ConfirmSpec(v: View, entry: string, dropdown: string, existing: Option<EC.Table>): View
    requires existing.Some? ==> Uniform(existing.value)
  {
    var w := v.(selected := Some(ChooseFile(entry, dropdown)));
    match existing
    case None => w.(data := BlankSheet(v.rows, v.cols), row := 0, col := 0)
    case Some(t) =>
      var d := FillNa(t);
      var cols := if |d| > 0 then |d[0]| else DEFAULT_COLS;
      var u := w.(data := d, rows := |d|, cols := cols);
      match EC.FirstMarked(NaNMarks(d), cols, 0, 0)
      case Some(p) => u.(row := p.0, col := p.1)
      case None => u
  }

  /** Starting a new file: a blank sheet of the current size, the cursor at
      the top, the chosen name remembered. */
  lemma ConfirmNewFile(v: View, entry: string, dropdown: string)
    ensures var n := ConfirmSpec(v, entry, dropdown, None);
      n.selected == Some(ChooseFile(entry, dropdown)) && n.rows == v.rows && n.cols == v.cols
      && |n.data| == n.rows && (forall r | 0 <= r < n.rows :: |n.data[r]| == n.cols)
      && (forall r, c | 0 <= r < n.rows && 0 <= c < n.cols :: n.data[r][c] == "NaN")
      && n.row == 0 && n.col == 0
  {
  }

  /** Resuming an existing file: the sheet is the file with its missing
      values read as "NaN", and the cursor lands on the first "NaN" cell in
      row-major order; when there is none, no cell is "NaN" and the cursor
      has not moved. */
  lemma ConfirmResumes(v: View, entry: string, dropdown: string, t: EC.Table)
    requires Uniform(t)
    ensures var n := ConfirmSpec(v, entry, dropdown, Some(t));
      n.data == FillNa(t) && n.rows == |t| && (|t| > 0 ==> n.cols == |t[0]|)
      && (forall r | 0 <= r < n.rows :: |n.data[r]| == n.cols)
      && ((n.row < n.rows && n.col < n.cols && n.data[n.row][n.col] == "NaN"
           && forall r: nat, c: nat | r < n.rows && c < n.cols && EC.Before(r, c, n.row, n.col) ::
                n.data[r][c] != "NaN")
          || (n.row == v.row && n.col == v.col
              && forall r: nat, c: nat | r < n.rows && c < n.cols :: n.data[r][c] != "NaN"))
  {
    var d := FillNa(t);
    var cols := if |d| > 0 then |d[0]| else DEFAULT_COLS;
    var m := NaNMarks(d);
    EC.FirstMarkedIsFirst(m, cols, 0, 0);
    assert forall r: nat, c: nat | r < |d| && c < cols :: EC.Reached(0, 0, r, c) && m[r][c] == (d[r][c] == "NaN");
  }

  /** The nested loops of `confirm` that look for the first "NaN" cell,
      row by row. */
  method FindBlank(d: Sheet, rows: nat, cols: nat) returns (p: Option<(nat, nat)>)
    requires rows == |d| && forall r | 0 <= r < |d| :: |d[r]| == cols
    ensures p == EC.FirstMarked(NaNMarks(d), cols, 0, 0)
  {
    ghost var m := NaNMarks(d);
    for r := 0 to rows
      invariant EC.FirstMarked(m, cols, 0, 0) == EC.FirstMarked(m, cols, r, 0)
    {
      for c := 0 to cols
        invariant EC.FirstMarked(m, cols, 0, 0) == EC.FirstMarked(m, cols, r, c)
      {
        if d[r][c] == "NaN" {
          return Some((r, c));
        }
      }
    }
    return None;
  }

  // ---------------------------------------------------------------------
  // Collecting the images

  /** An entry of `os.listdir(path)`: its name, whether it is a folder, and
      the names inside it when it is. */
  datatype Entry = Entry(name: string, isDir: bool, files: seq<string>)

  /** A string as its code points, the order Python's `sorted` puts strings
      in. */
  function CodePoints(s: string): seq<int> {
    seq(|s|, i requires 0 <= i < |s| => s[i] as int)
  }

  /** `int(x.split('_')[1].split('.')[0])`, the number after the first `_`;
      None where Python raises. */
  function NameNumber(name: string): Option<int> {
    var parts := Split(name, '_');
    if |parts| < 2 then None else ParseInt(Split(parts[1], '.')[0])
  }

  /** For the cell files the segmentation step writes, the number is the
      column number. */
  lemma NameNumberOfCellFile(j: nat)
    ensures NameNumber("col_" + NatToString(j) + ".png") == Some(j)
  {
    var s := NatToString(j);
    assert "col_" + s + ".png" == "col" + ['_'] + (s + ".png");
    assert '_' !in s + ".png" by {
      assert forall i | 0 <= i < |s| :: IsDigit(s[i]);
    }
    SplitAtSep("col", s + ".png", '_');
    SplitNoSep("col", '_');
    SplitNoSep(s + ".png", '_');
    assert s + ".png" == s + ['.'] + "png";
    assert '.' !in s by {
      assert forall i | 0 <= i < |s| :: IsDigit(s[i]);
    }
    SplitAtSep(s, "png", '.');
    NatRoundTrip(j);
  }

  /** The sort key of a file; only used once every file has a number. */
  function FileKey(name: string): seq<int> {
    match NameNumber(name)
    case Some(k) => [k]
    case None => []
  }

  predicate Numbered(files: seq<string>) {
    forall i | 0 <= i < |files| :: NameNumber(files[i]).Some?
  }

  /** The image files among `files`, in their order. */
  function ImageNames(files: seq<string>): seq<string> {
    if files == [] then []
    else
      var last := files[|files| - 1];
      ImageNames(files[..|files| - 1]) + (if IsImageFile(last) then [last] else [])
  }

  /** Each name under its folder: `os.path.join(folder, name)`. */
  function InFolder(folder: string, names: seq<string>): (r: seq<string>)
    ensures |r| == |names|
  {
    seq(|names|, i requires 0 <= i < |names| => folder + "/" + names[i])
  }

  predicate IsRowFolder(e: Entry) {
    e.isDir && StartsWith(e.name, "row_")
  }

  /** The images of one row folder, by ascending number. */
  function RowImages(path: string, e: Entry): seq<string> {
    InFolder(path + "/" + e.name, ImageNames(Sorting.SortBy(e.files, FileKey)))
  }

  /** The images of the row folders among `dirs`, folder after folder; None
      when a row folder holds a name without a number. */
  function CollectFrom(path: string, dirs: seq<Entry>): Option<seq<string>> {
    if dirs == [] then Some([])
    else
      var e := dirs[|dirs| - 1];
      match CollectFrom(path, dirs[..|dirs| - 1])
      case None => None
      case Some(acc) =>
        if !IsRowFolder(e) then Some(acc)
        else if !Numbered(e.files) then None
        else Some(acc + RowImages(path, e))
  }

  function FolderKey(e: Entry): seq<int> {
    CodePoints(e.name)
  }

  /** `collect_images`: the row folders in name order, each one's images by
      number. */
  function CollectImagesSpec(path: string, listing: seq<Entry>): Option<seq<string>> {
    CollectFrom(path, Sorting.SortBy(listing, FolderKey))
  }

  /** Once a folder fails, the whole collection fails. */
  lemma {:induction false} CollectFails(path: string, dirs: seq<Entry>, i: nat)
    requires i <= |dirs| && CollectFrom(path, dirs[..i]) == None
    ensures CollectFrom(path, dirs) == None
    decreases |dirs| - i
  {
    if i < |dirs| {
      assert dirs[..i + 1][..i] == dirs[..i];
      CollectFails(path, dirs, i + 1);
    } else {
      assert dirs[..i] == dirs;
    }
  }

  /** The inner loop of `collect_images`: the image files of one folder,
      in the given order, appended to `all`. */
  method AppendImages(all: seq<string>, rowPath: string, files: seq<string>) returns (r: seq<string>)
    ensures r == all + InFolder(rowPath, ImageNames(files))
  {
    r := all;
    for j := 0 to |files|
      invariant r == all + InFolder(rowPath, ImageNames(files[..j]))
    {
      assert files[..j + 1][..j] == files[..j];
      if IsImageFile(files[j]) {
        r := r + [rowPath + "/" + files[j]];
      }
    }
    assert files[..|files|] == files;
  }

  /** `collect_images` as written: the folders in name order, and the image
      files of each row folder appended by number. */
  method CollectImages(path: string, listing: seq<Entry>) returns (r: Option<seq<string>>)
    ensures r == CollectImagesSpec(path, listing)
  {
    var dirs := Sorting.SortBy(listing, FolderKey);
    var all: seq<string> := [];
    for i := 0 to |dirs|
      invariant CollectFrom(path, dirs[..i]) == Some(all)
    {
      var e := dirs[i];
      assert dirs[..i + 1][..i] == dirs[..i];
      if IsRowFolder(e) {
        if !Numbered(e.files) {
          CollectFails(path, dirs, i + 1);
          return None;
        }
        all := AppendImages(all, path + "/" + e.name, Sorting.SortBy(e.files, FileKey));
      }
    }
    assert dirs[..|dirs|] == dirs;
    return Some(all);
  }

  /** A name is kept exactly when it is an image file, as often as it
      occurs. */
  lemma {:induction false} ImageNamesCount(files: seq<string>, f: string)
    ensures multiset(ImageNames(files))[f] == if IsImageFile(f) then multiset(files)[f] else 0
  {
    if files != [] {
      var init := files[..|files| - 1];
      ImageNamesCount(init, f);
      assert files == init + [files[|files| - 1]];
    }
  }

  /** Within a row folder the images come by ascending number, and they are
      exactly its image files. */
  lemma RowImagesOrdered(files: seq<string>)
    ensures Sorting.SortedBy(ImageNames(Sorting.SortBy(files, FileKey)), FileKey)
    ensures multiset(ImageNames(Sorting.SortBy(files, FileKey))) == multiset(ImageNames(files))
  {
    var s := Sorting.SortBy(files, FileKey);
    ImageNamesSorted(s);
    forall f ensures multiset(ImageNames(s))[f] == multiset(ImageNames(files))[f] {
      ImageNamesCount(s, f);
      ImageNamesCount(files, f);
    }
  }

  lemma {:induction false} ImageNamesSorted(s: seq<string>)
    requires Sorting.SortedBy(s, FileKey)
    ensures Sorting.SortedBy(ImageNames(s), FileKey)
  {
    if s != [] {
      var init := s[..|s| - 1];
      var x := s[|s| - 1];
      var a := ImageNames(init);
      ImageNamesSorted(init);
      if IsImageFile(x) {
        forall i, j | 0 <= i < j < |a + [x]|
          ensures Sorting.LexLe(FileKey((a + [x])[i]), FileKey((a + [x])[j]))
        {
          if j == |a| {
            ImageNamesCount(init, a[i]);
            assert a[i] in multiset(a);
            var k :| 0 <= k < |init| && init[k] == a[i];
            assert s[k] == a[i];
          }
        }
      }
    }
  }

  // ---------------------------------------------------------------------
  // The tool

  class ManualEntry {
    /** The table number from the command line. */
    const tableNumber: string
    /** `self.images`, collected once at start-up. */
    const images: seq<string>
    var rows: nat
    var cols: nat
    var rowIdx: nat
    var colIdx: nat
    var data: Sheet
    var selectedFile: Option<string>
    /** The text in the entry box. */
    var inputText: string
    /** The image on display. */
    var shown: Option<string>
    var saved: seq<SavedCsv>
    var finished: bool

    function Snapshot(): View
      reads this
    {
      View(rows, cols, rowIdx, colIdx, data, selectedFile, inputText, shown, saved, finished)
    }

    /** `__init__` up to the file prompt: a 22 x 33 sheet size, the cursor
        at the top, no sheet and no file yet. */
    constructor (tableNumber: string, images: seq<string>)
      ensures this.tableNumber == tableNumber && this.images == images
      ensures Snapshot() == View(DEFAULT_ROWS, DEFAULT_COLS, 0, 0, [], None, "", None, [], false)
    {
      this.tableNumber, this.images := tableNumber, images;
      rows, cols, rowIdx, colIdx := DEFAULT_ROWS, DEFAULT_COLS, 0, 0;
      data, selectedFile, inputText := [], None, "";
      shown, saved, finished := None, [], false;
    }

    method SaveCsv()
      modifies this
      ensures Snapshot() == SaveSpec(old(Snapshot()), tableNumber)
    {
      saved := saved + [SavedCsv(SaveName(selectedFile, tableNumber), data)];
    }

    method Finish()
      modifies this
      ensures Snapshot() == FinishSpec(old(Snapshot()), tableNumber)
    {
      SaveCsv();
      finished := true;
    }

    method LoadImage()
      modifies this
      ensures Snapshot() == LoadImageSpec(old(Snapshot()), images, tableNumber)
    {
      if rowIdx >= rows {
        Finish();
        return;
      }
      var imgIndex := rowIdx * cols + colIdx;
      if imgIndex >= |images| {
        Finish();
        return;
      }
      shown := Some(images[imgIndex]);
    }

    /** Stores `value` at the cursor and moves the cursor on. */
    method Store(value: string)
      requires rowIdx < |data| && colIdx < |data[rowIdx]|
      modifies this
      ensures var next := Advance(old(rowIdx), old(colIdx), old(cols));
        Snapshot() == old(Snapshot()).(data := old(data[rowIdx := data[rowIdx][colIdx := value]]),
                                       row := next.0, col := next.1)
    {
      data := data[rowIdx := data[rowIdx][colIdx := value]];
      colIdx := colIdx + 1;
      if colIdx >= cols {
        colIdx := 0;
        rowIdx := rowIdx + 1;
      }
    }

    /** `save_and_next`, the Confirm button and Enter. It can run after a
        `finish` that came before the main loop started; it then stores,
        advances and finishes again, writing the sheet once more. */
    method SaveAndNext()
      modifies this
      ensures Snapshot() == SaveAndNextSpec(old(Snapshot()), images, tableNumber)
    {
      var value := Trim(inputText);
      if value == "" {
        value := "NaN";
      } else {
        value := ReplaceChar(value, '/', '\n');
      }
      if !(rowIdx < |data| && colIdx < |data[rowIdx]|) {
        return;
      }
      ghost var v0 := Snapshot();
      Store(value);
      inputText := "";
      assert Snapshot() == v0.(data := v0.data[v0.row := v0.data[v0.row][v0.col := Normalise(v0.input)]],
                               input := "", row := Advance(v0.row, v0.col, v0.cols).0,
                               col := Advance(v0.row, v0.col, v0.cols).1);
      LoadImage();
    }

    method HandleSlashKey()
      modifies this
      ensures Snapshot() == old(Snapshot()).(input := old(inputText) + "\n")
    {
      inputText := inputText + "\n";
    }

    /** Takes an existing file as the sheet, with its size. */
    method Adopt(d: Sheet)
      modifies this
      ensures Snapshot() == old(Snapshot()).(data := d, rows := |d|,
                                             cols := if |d| > 0 then |d[0]| else DEFAULT_COLS)
    {
      data := d;
      rows := |d|;
      cols := if |d| > 0 then |d[0]| else DEFAULT_COLS;
    }

    method MoveTo(r: nat, c: nat)
      modifies this
      ensures Snapshot() == old(Snapshot()).(row := r, col := c)
    {
      rowIdx, colIdx := r, c;
    }

    /** `confirm`, with the two text boxes and, when the chosen file exists,
        its contents as parameters. */
    method Confirm(entry: string, dropdown: string, existing: Option<EC.Table>)
      requires existing.Some? ==> Uniform(existing.value)
      modifies this
      ensures Snapshot() == ConfirmSpec(old(Snapshot()), entry, dropdown, existing)
    {
      var choice := Trim(entry);
      if choice == "" {
        choice := Trim(dropdown);
      }
      if !EndsWith(choice, ".csv") {
        choice := choice + ".csv";
      }
      selectedFile := Some(choice);
      if existing.Some? {
        var d := FillNa(existing.value);
        Adopt(d);
        var p := FindBlank(d, rows, cols);
        if p.Some? {
          MoveTo(p.value.0, p.value.1);
        }
      } else {
        data := BlankSheet(rows, cols);
        MoveTo(0, 0);
      }
    }
  }

  // ---------------------------------------------------------------------
  // Folder order

  /** The row folders in order of their number, as the cursor arithmetic of
      `load_image` needs them. */
  function RowFolderKey(e: Entry): seq<int> {
    FileKey(e.name)
  }

  function RowFolders(listing: seq<Entry>): (r: seq<Entry>)
    ensures forall i | 0 <= i < |r| :: IsRowFolder(r[i])
  {
    if listing == [] then []
    else
      var last := listing[|listing| - 1];
      RowFolders(listing[..|listing| - 1]) + (if IsRowFolder(last) then [last] else [])
  }

  /** `collect_images` with the row folders sorted by number rather than by
      name; None also when a row folder's name has no number. */
  function CollectInRowOrder(path: string, listing: seq<Entry>): Option<seq<string>> {
    var dirs := RowFolders(listing);
    if exists i | 0 <= i < |dirs| :: NameNumber(dirs[i].name).None? then None
    else CollectFrom(path, Sorting.SortBy(dirs, RowFolderKey))
  }

  /** The folders `CollectInRowOrder` walks come by ascending row number. */
  lemma RowOrderSorted(listing: seq<Entry>)
    ensures var dirs := Sorting.SortBy(RowFolders(listing), RowFolderKey);
      Sorting.SortedBy(dirs, RowFolderKey)
      && (forall i | 0 <= i < |dirs| :: IsRowFolder(dirs[i]))
  {
    var rows := RowFolders(listing);
    var dirs := Sorting.SortBy(rows, RowFolderKey);
    forall i | 0 <= i < |dirs| ensures IsRowFolder(dirs[i]) {
      assert dirs[i] in multiset(rows);
    }
  }

  /** `row_<i>` folders carry their row number. */
  lemma RowNumber(i: nat)
    ensures NameNumber("row_" + NatToString(i)) == Some(i)
  {
    var s := NatToString(i);
    assert "row_" + s == "row" + ['_'] + s;
    assert '_' !in s && '.' !in s by {
      assert forall k | 0 <= k < |s| :: IsDigit(s[k]);
    }
    SplitAtSep("row", s, '_');
    SplitNoSep(s, '_');
    SplitNoSep(s, '.');
    NatRoundTrip(i);
  }

  /** `col_1.png` is an image with number 1. */
  lemma FirstCellFile()
    ensures NameNumber("col_1.png") == Some(1) && IsImageFile("col_1.png")
  {
    NameNumberOfCellFile(1);
    assert "col_" + NatToString(1) + ".png" == "col_1.png";
    PngIsImage("col_1");
    assert "col_1" + ".png" == "col_1.png";
  }

  lemma PngIsImage(stem: string)
    ensures IsImageFile(stem + ".png")
  {
    var l := Lower(stem + ".png");
    assert l[|stem|..] == ".png" by {
      assert forall i | 0 <= i < 4 :: l[|stem| + i] == LowerChar(".png"[i]) == ".png"[i];
    }
  }

  /** A row folder holding just `col_1.png`. */
  lemma RowImagesOneCell(path: string, e: Entry)
    requires e.files == ["col_1.png"]
    ensures Numbered(e.files) && RowImages(path, e) == [path + "/" + e.name + "/" + "col_1.png"]
  {
    FirstCellFile();
    var s := Sorting.SortBy(e.files, FileKey);
    assert s == e.files;
    assert ImageNames(s) == s by {
      assert s[..0] == [];
    }
  }

  // ---------------------------------------------------------------------
  // The folders the segmentation step leaves

  /** `row_<i>`, the folder of row i. */
  function RowFolderName(i: nat): string {
    "row_" + NatToString(i)
  }

  /** `col_<j>.png`, the image of column j. */
  function CellFile(j: nat): string {
    "col_" + NatToString(j) + ".png"
  }

  /** `col_1.png` to `col_<cols>.png`. */
  function CellFiles(cols: nat): seq<string> {
    seq(cols, j requires 0 <= j < cols => CellFile(j + 1))
  }

  /** The row folders the segmentation step writes for a `rows` x `cols`
      grid, in row order: folder i is `row_<i+1>` and holds the files of
      that row's cells, listed in any order. */
  ghost predicate IsGrid(g: seq<Entry>, rows: nat, cols: nat) {
    |g| == rows
    && forall i | 0 <= i < rows ::
         g[i].name == RowFolderName(i + 1) && g[i].isDir
         && multiset(g[i].files) == multiset(CellFiles(cols))
  }

  /** The grid's images row by row, each row's in column order. */
  function GridImages(path: string, rows: nat, cols: nat): seq<string> {
    if rows == 0 then []
    else GridImages(path, rows - 1, cols) + InFolder(path + "/" + RowFolderName(rows), CellFiles(cols))
  }

  /** A cell file is an image whose sort key is its column number. */
  lemma CellFileNumber(j: nat)
    ensures FileKey(CellFile(j)) == [j] && IsImageFile(CellFile(j))
  {
    NameNumberOfCellFile(j);
    PngIsImage("col_" + NatToString(j));
  }

  /** Sorting a row folder's files by number puts them in column order. */
  lemma SortCellFiles(files: seq<string>, cols: nat)
    requires multiset(files) == multiset(CellFiles(cols))
    ensures Sorting.SortBy(files, FileKey) == CellFiles(cols)
  {
    var c := CellFiles(cols);
    forall j | 0 <= j < cols ensures FileKey(c[j]) == [j + 1] {
      CellFileNumber(j + 1);
    }
    assert Sorting.SortedBy(c, FileKey) by {
      forall i, j | 0 <= i < j < cols ensures Sorting.LexLe(FileKey(c[i]), FileKey(c[j])) {
        Sorting.LexLeSingle(i + 1, j + 1);
      }
    }
    forall x, y | x in c && y in c && FileKey(x) == FileKey(y) ensures x == y {
      var i :| 0 <= i < cols && c[i] == x;
      var j :| 0 <= j < cols && c[j] == y;
    }
    Sorting.SortedUnique(c, Sorting.SortBy(files, FileKey), FileKey);
  }

  /** Every cell file passes the image filter. */
  lemma CellFilesAreImages(cols: nat)
    ensures ImageNames(CellFiles(cols)) == CellFiles(cols)
  {
    var c := CellFiles(cols);
    forall k | 0 <= k < |c| ensures IsImageFile(c[k]) {
      PngIsImage("col_" + NatToString(k + 1));
    }
    AllImagesKept(c);
  }

  /** The image filter keeps a list of images whole. */
  lemma {:induction false} AllImagesKept(files: seq<string>)
    requires forall k | 0 <= k < |files| :: IsImageFile(files[k])
    ensures ImageNames(files) == files
  {
    if files != [] {
      var init := files[..|files| - 1];
      assert forall k | 0 <= k < |init| :: init[k] == files[k];
      AllImagesKept(init);
      LastImageKept(files);
      assert files == init + [files[|files| - 1]];
    }
  }

  lemma LastImageKept(files: seq<string>)
    requires files != [] && IsImageFile(files[|files| - 1])
    ensures ImageNames(files) == ImageNames(files[..|files| - 1]) + [files[|files| - 1]]
  {
  }

  /** The files of a row folder all carry a number. */
  lemma CellFilesNumbered(files: seq<string>, cols: nat)
    requires multiset(files) == multiset(CellFiles(cols))
    ensures Numbered(files)
  {
    forall k | 0 <= k < |files| ensures NameNumber(files[k]).Some? {
      assert files[k] in multiset(CellFiles(cols));
      var j :| 0 <= j < cols && CellFiles(cols)[j] == files[k];
      CellFileNumber(j + 1);
    }
  }

  lemma RowFolderNamed(i: nat)
    ensures StartsWith(RowFolderName(i), "row_")
  {
    assert RowFolderName(i)[..4] == "row_";
  }

  /** Row folder i of the grid contributes its cells in column order. */
  lemma GridRowImages(path: string, g: seq<Entry>, rows: nat, cols: nat, i: nat)
    requires IsGrid(g, rows, cols) && i < rows
    ensures IsRowFolder(g[i]) && Numbered(g[i].files)
    ensures RowImages(path, g[i]) == InFolder(path + "/" + RowFolderName(i + 1), CellFiles(cols))
  {
    SortCellFiles(g[i].files, cols);
    CellFilesAreImages(cols);
    CellFilesNumbered(g[i].files, cols);
    RowFolderNamed(i + 1);
  }

  /** Collecting the grid's folders in row order gives the grid's images. */
  lemma {:induction false} CollectGrid(path: string, g: seq<Entry>, rows: nat, cols: nat)
    requires IsGrid(g, rows, cols)
    ensures CollectFrom(path, g) == Some(GridImages(path, rows, cols))
  {
    if rows > 0 {
      var init := g[..rows - 1];
      assert IsGrid(init, rows - 1, cols);
      CollectGrid(path, init, rows - 1, cols);
      GridRowImages(path, g, rows, cols, rows - 1);
    }
  }

  lemma {:induction false} GridLength(path: string, rows: nat, cols: nat)
    ensures |GridImages(path, rows, cols)| == rows * cols
  {
    if rows > 0 {
      GridLength(path, rows - 1, cols);
      assert (rows - 1) * cols + cols == rows * cols;
    }
  }

  /** Cell (r, c) lies in the last row of the grid or before it. */
  lemma FlatIndexBounds(rows: nat, cols: nat, r: nat, c: nat)
    requires r < rows && c < cols
    ensures (rows - 1) * cols + cols == rows * cols
    ensures r == rows - 1 ==> FlatIndex(r, c, cols) == (rows - 1) * cols + c
    ensures r < rows - 1 ==> FlatIndex(r, c, cols) < (rows - 1) * cols
  {
    var k: nat := rows - 1;
    MulSplit(k, 1, cols);
    if r < k {
      MulSplit(r + 1, k - r - 1, cols);
      MulSplit(r, 1, cols);
    }
  }

  /** Multiplication distributes over a sum of naturals. */
  lemma MulSplit(x: nat, y: nat, n: nat)
    ensures (x + y) * n == x * n + y * n && y * n >= 0
  {
  }

  /** Image `FlatIndex(r, c, cols)` of the grid is the cell of row r+1 and
      column c+1. */
  lemma {:induction false} GridImageAt(path: string, rows: nat, cols: nat, r: nat, c: nat)
    requires r < rows && c < cols
    ensures |GridImages(path, rows, cols)| == rows * cols && FlatIndex(r, c, cols) < rows * cols
    ensures GridImages(path, rows, cols)[FlatIndex(r, c, cols)]
         == path + "/" + RowFolderName(r + 1) + "/" + CellFile(c + 1)
  {
    GridLength(path, rows, cols);
    GridLength(path, rows - 1, cols);
    FlatIndexBounds(rows, cols, r, c);
    var before := GridImages(path, rows - 1, cols);
    var last := InFolder(path + "/" + RowFolderName(rows), CellFiles(cols));
    assert GridImages(path, rows, cols) == before + last;
    if r < rows - 1 {
      GridImageAt(path, rows - 1, cols, r, c);
    } else {
      assert last[c] == path + "/" + RowFolderName(r + 1) + "/" + CellFile(c + 1);
    }
  }

  /** The grid's folders come by ascending row number, and the number tells
      them apart. */
  lemma GridByRowNumber(g: seq<Entry>, rows: nat, cols: nat)
    requires IsGrid(g, rows, cols)
    ensures Sorting.SortedBy(g, RowFolderKey)
    ensures forall x, y | x in g && y in g && RowFolderKey(x) == RowFolderKey(y) :: x == y
  {
    forall i | 0 <= i < rows ensures RowFolderKey(g[i]) == [i + 1] {
      RowNumber(i + 1);
    }
    forall i, j | 0 <= i < j < rows ensures Sorting.LexLe(RowFolderKey(g[i]), RowFolderKey(g[j])) {
      Sorting.LexLeSingle(i + 1, j + 1);
    }
    forall x, y | x in g && y in g && RowFolderKey(x) == RowFolderKey(y) ensures x == y {
      var i :| 0 <= i < rows && g[i] == x;
      var j :| 0 <= j < rows && g[j] == y;
    }
  }

  /** Ordered by number, the row folders of a listing of the grid are the
      grid's folders in row order, and every one of them has a number. */
  lemma RowFoldersInOrder(listing: seq<Entry>, g: seq<Entry>, rows: nat, cols: nat)
    requires IsGrid(g, rows, cols) && multiset(RowFolders(listing)) == multiset(g)
    ensures Sorting.SortBy(RowFolders(listing), RowFolderKey) == g
    ensures forall k | 0 <= k < |RowFolders(listing)| :: NameNumber(RowFolders(listing)[k].name).Some?
  {
    var dirs := RowFolders(listing);
    GridByRowNumber(g, rows, cols);
    Sorting.SortedUnique(g, Sorting.SortBy(dirs, RowFolderKey), RowFolderKey);
    forall k | 0 <= k < |dirs| ensures NameNumber(dirs[k].name).Some? {
      assert dirs[k] in multiset(g);
      var i :| 0 <= i < rows && g[i] == dirs[k];
      RowNumber(i + 1);
    }
  }

  /** With the row folders ordered by number, the image `load_image` shows
      for sheet cell (r, c), at position `r * cols + c`, is the cell the
      segmentation step cut at row r+1 and column c+1, whatever order the
      file system lists the folders and their files in. */
  lemma RowOrderMatchesSheet(path: string, listing: seq<Entry>, g: seq<Entry>, rows: nat, cols: nat, r: nat, c: nat)
    requires IsGrid(g, rows, cols) && multiset(RowFolders(listing)) == multiset(g)
    requires r < rows && c < cols
    ensures CollectInRowOrder(path, listing).Some?
    ensures var images := CollectInRowOrder(path, listing).value;
      |images| == rows * cols && FlatIndex(r, c, cols) < |images|
      && images[FlatIndex(r, c, cols)] == path + "/" + RowFolderName(r + 1) + "/" + CellFile(c + 1)
  {
    RowFoldersInOrder(listing, g, rows, cols);
    CollectGrid(path, g, rows, cols);
    GridImageAt(path, rows, cols, r, c);
  }

  // ---------------------------------------------------------------------
  // Ten rows, as written

  /** The segmentation output for ten rows of one cell each. */
  function TenRows(): seq<Entry> {
    seq(10, i requires 0 <= i < 10 => Entry(RowFolderName(i + 1), true, [CellFile(1)]))
  }

  /** The same folders in the order `sorted(os.listdir(path))` gives them:
      `row_1`, `row_10`, `row_2`, ..., `row_9`. */
  function TenRowsByName(): seq<Entry> {
    var t := TenRows();
    [t[0], t[9], t[1], t[2], t[3], t[4], t[5], t[6], t[7], t[8]]
  }

  /** The names as code points: `row_` followed by the row number's
      digits. */
  lemma TenRowKeys()
    ensures forall i | 0 <= i < 9 :: FolderKey(TenRows()[i]) == [114, 111, 119, 95, 49 + i]
    ensures FolderKey(TenRows()[9]) == [114, 111, 119, 95, 49, 48]
  {
    assert NatToString(10) == [DigitChar(1), DigitChar(0)];
  }

  lemma TenRowsByNameSorted()
    ensures Sorting.SortedBy(TenRowsByName(), FolderKey)
  {
    var s := TenRowsByName();
    var row_ := [114, 111, 119, 95];
    TenRowKeys();
    forall i | 0 <= i < 9 ensures Sorting.LexLe(FolderKey(s[i]), FolderKey(s[i + 1])) {
      if i == 0 {
        assert Sorting.LexLe([114, 111, 119, 95, 49], [114, 111, 119, 95, 49, 48]);
      } else if i == 1 {
        assert Sorting.LexLe([114, 111, 119, 95, 49, 48], [114, 111, 119, 95, 50]);
      } else {
        assert FolderKey(s[i]) == row_ + [48 + i];
        assert FolderKey(s[i + 1]) == row_ + [49 + i];
        Sorting.LexLeSingle(48 + i, 49 + i);
        Sorting.LexLePrefix(row_, [48 + i], [49 + i]);
      }
    }
    Sorting.SortedByNeighbours(s, FolderKey);
  }

  /** Code points tell strings apart. */
  lemma CodePointsInjective(a: string, b: string)
    requires CodePoints(a) == CodePoints(b)
    ensures a == b
  {
    assert |a| == |CodePoints(a)|;
    forall i | 0 <= i < |a| ensures a[i] == b[i] {
      assert CodePoints(a)[i] == CodePoints(b)[i];
    }
  }

  lemma TenRowsByNamePermutes()
    ensures multiset(TenRowsByName()) == multiset(TenRows())
  {
    var t := TenRows();
    assert TenRowsByName() == t[..1] + [t[9]] + t[1..9];
    assert t == t[..1] + t[1..9] + [t[9]];
  }

  /** The folder names of the ten rows tell them apart. */
  lemma TenRowsDistinct()
    ensures forall x, y | x in TenRows() && y in TenRows() && FolderKey(x) == FolderKey(y) :: x == y
  {
    forall x, y | x in TenRows() && y in TenRows() && FolderKey(x) == FolderKey(y) ensures x == y {
      CodePointsInjective(x.name, y.name);
    }
  }

  lemma TenRowsByNameDistinct()
    ensures forall x, y | x in TenRowsByName() && y in TenRowsByName() && FolderKey(x) == FolderKey(y) :: x == y
  {
    var s := TenRowsByName();
    TenRowsByNamePermutes();
    TenRowsDistinct();
    forall x | x in s ensures x in TenRows() {
      assert x in multiset(s);
    }
  }

  /** `sorted(os.listdir(path))` lists the ten folders in name order. */
  lemma TenRowsSortByName()
    ensures Sorting.SortBy(TenRows(), FolderKey) == TenRowsByName()
  {
    TenRowsByNameSorted();
    TenRowsByNamePermutes();
    TenRowsByNameDistinct();
    Sorting.SortedUnique(TenRowsByName(), Sorting.SortBy(TenRows(), FolderKey), FolderKey);
  }

  /** The image paths of row folders of one `col_1.png` each. */
  function OneCellImages(path: string, d: seq<Entry>): (r: seq<string>)
    ensures |r| == |d|
  {
    seq(|d|, k requires 0 <= k < |d| => path + "/" + d[k].name + "/" + CellFile(1))
  }

  lemma CellFileOne()
    ensures CellFile(1) == "col_1.png"
  {
  }

  /** Row folders of one `col_1.png` each give their images in the order
      walked. */
  lemma {:induction false} CollectOneCellRows(path: string, d: seq<Entry>)
    requires forall k | 0 <= k < |d| :: IsRowFolder(d[k]) && d[k].files == [CellFile(1)]
    ensures CollectFrom(path, d) == Some(OneCellImages(path, d))
  {
    if d != [] {
      var init := d[..|d| - 1];
      var e := d[|d| - 1];
      assert forall k | 0 <= k < |init| :: init[k] == d[k];
      CollectOneCellRows(path, init);
      CellFileOne();
      RowImagesOneCell(path, e);
      OneCellImagesSnoc(path, d);
    }
  }

  lemma OneCellImagesSnoc(path: string, d: seq<Entry>)
    requires d != []
    ensures OneCellImages(path, d)
      == OneCellImages(path, d[..|d| - 1]) + [path + "/" + d[|d| - 1].name + "/" + CellFile(1)]
  {
    var init := d[..|d| - 1];
    var r := OneCellImages(path, init) + [path + "/" + d[|d| - 1].name + "/" + CellFile(1)];
    forall k | 0 <= k < |d| ensures r[k] == OneCellImages(path, d)[k] {
      if k < |init| {
        assert init[k] == d[k];
      }
    }
    assert |r| == |d|;
  }

  lemma TenRowsGrid()
    ensures IsGrid(TenRows(), 10, 1)
  {
    assert CellFiles(1) == [CellFile(1)];
  }

  lemma TenRowsByNameAreRowFolders()
    ensures forall k | 0 <= k < 10 :: IsRowFolder(TenRowsByName()[k]) && TenRowsByName()[k].files == [CellFile(1)]
  {
    forall i | 0 <= i < 10 ensures IsRowFolder(TenRows()[i]) {
      RowFolderNamed(i + 1);
    }
  }

  /** As written, on the ten-row grid the image shown for sheet cell (1, 0),
      the second row, is the cell of row 10, where the corrected collection
      (`RowOrderMatchesSheet`) shows the cell of row 2. */
  lemma NameOrderMisplacesRowTwo(path: string)
    ensures IsGrid(TenRows(), 10, 1)
    ensures CollectImagesSpec(path, TenRows()).Some?
    ensures var images := CollectImagesSpec(path, TenRows()).value;
      |images| == 10 && images[FlatIndex(1, 0, 1)] == path + "/" + RowFolderName(10) + "/" + CellFile(1)
    ensures RowFolderName(10) != RowFolderName(2)
  {
    TenRowsGrid();
    TenRowsCollect(path);
    var images := OneCellImages(path, TenRowsByName());
    SecondByNameIsRowTen();
    assert images[1] == path + "/" + TenRowsByName()[1].name + "/" + CellFile(1);
    assert FlatIndex(1, 0, 1) == 1;
    RowTenIsNotRowTwo();
  }

  /** The collection walks the ten folders in name order. */
  lemma TenRowsCollect(path: string)
    ensures CollectImagesSpec(path, TenRows()) == Some(OneCellImages(path, TenRowsByName()))
  {
    TenRowsSortByName();
    TenRowsByNameAreRowFolders();
    CollectOneCellRows(path, TenRowsByName());
  }

  lemma SecondByNameIsRowTen()
    ensures TenRowsByName()[1].name == RowFolderName(10)
  {
    assert TenRowsByName()[1] == TenRows()[9];
  }

  lemma RowTenIsNotRowTwo()
    ensures RowFolderName(10) != RowFolderName(2)
  {
    TenRowKeys();
    assert FolderKey(TenRows()[9]) != FolderKey(TenRows()[1]);
  }
}
