/** The launcher window: it chooses the folders the segmentation writes and
    the OCR reads, guards the two pipeline buttons, and sharpens the
    segmented images in place.

    Paths are built with `os.path.join` as POSIX defines it. The folder
    tree, the file dialog's answer, the overwrite prompt's answer and which
    images `cv2.imread` can decode are parameters; creating folders, the
    message boxes, the convolution itself and launching the OCR and the
    checker are left out, and a handler returns what it would start. */
module App {
  import opened Wrappers
  import opened Text
  import Segmentation

  const INPUT_ROOT: string := "input_tables"
  const OUTPUT_ROOT: string := "output"
  const MISCELLANEOUS: string := "miscellaneous"

  // ---------------------------------------------------------------------
  // Paths

  /** `os.path.join(a, b)`: an absolute `b` replaces `a`; otherwise a `/`
      is put between them unless `a` is empty or already ends with one. */
  function JoinPath(a: string, b: string): string {
    if StartsWith(b, "/") then b
    else if a == "" || EndsWith(a, "/") then a + b
    else a + "/" + b
  }

  /** `os.path.join(base, *parts)`, one part at a time from the left. */
  function PathJoin(base: string, parts: seq<string>): string
    decreases |parts|
  {
    if parts == [] then base else PathJoin(JoinPath(base, parts[0]), parts[1..])
  }

  /** A path component that adds one level: not empty, no `/`. */
  predicate Component(s: string) {
    s != "" && '/' !in s
  }

  /** Joining plain components onto a base that does not end in `/` puts
      exactly one `/` between each two of them. */
  lemma {:induction false} PathJoinPlain(base: string, parts: seq<string>)
    requires base != "" && !EndsWith(base, "/")
    requires forall i | 0 <= i < |parts| :: Component(parts[i])
    ensures PathJoin(base, parts) == Join([base] + parts, '/')
    decreases |parts|
  {
    if parts != [] {
      var p := parts[0];
      assert !StartsWith(p, "/") by {
        assert p[0] in p;
      }
      var next := base + "/" + p;
      assert !EndsWith(next, "/") by {
        assert next[|next| - 1] == p[|p| - 1] && p[|p| - 1] in p;
      }
      PathJoinPlain(next, parts[1..]);
      JoinFirstTwo(base, p, parts[1..]);
    }
  }

  /** Gluing the first piece to the second with the separator changes no
      join. */
  lemma JoinFirstTwo(a: string, b: string, rest: seq<string>)
    ensures Join([a + "/" + b] + rest, '/') == Join([a, b] + rest, '/')
  {
    if rest != [] {
      assert ([a + "/" + b] + rest)[1..] == rest;
      assert ([a, b] + rest)[1..] == [b] + rest;
      assert ([b] + rest)[1..] == rest;
    }
  }

  /** The components of a path built from plain components are those
      components. */
  lemma PathParts(base: string, parts: seq<string>)
    requires Component(base)
    requires forall i | 0 <= i < |parts| :: Component(parts[i])
    ensures Split(PathJoin(base, parts), '/') == [base] + parts
  {
    assert !EndsWith(base, "/") by {
      assert base[|base| - 1] in base;
    }
    PathJoinPlain(base, parts);
    SplitJoin([base] + parts, '/');
  }

  /** Joining one more part at the end is one more `os.path.join`. */
  lemma {:induction false} PathJoinSnoc(base: string, parts: seq<string>, last: string)
    ensures PathJoin(base, parts + [last]) == JoinPath(PathJoin(base, parts), last)
    decreases |parts|
  {
    if parts != [] {
      assert (parts + [last])[1..] == parts[1..] + [last];
      PathJoinSnoc(JoinPath(base, parts[0]), parts[1..], last);
    } else {
      assert ([] + [last])[1..] == [];
    }
  }

  /** `os.path.basename`: the text after the last `/`. */
  function Basename(path: string): string {
    Last(Split(path, '/'))
  }

  /** The label shows the file's own name, whatever folder it is in. */
  lemma BasenameOfJoin(folder: string, name: string)
    requires '/' !in name
    ensures Basename(folder + "/" + name) == name
  {
    SplitLast(folder, name, '/');
  }

  /** The month and type folders both named, or the `miscellaneous`
      fallback. */
  function Category(month: string, dataType: string): seq<string> {
    if month == "" || dataType == "" then [MISCELLANEOUS] else [month, dataType]
  }

  /** `get_output_folder`: where the cells of table `n` are written. */
  function OutputFolder(month: string, dataType: string, tableNumber: string): string {
    PathJoin(OUTPUT_ROOT, Category(month, dataType) + ["table_" + tableNumber])
  }

  /** `get_csv_output_folder`: where the OCR writes its tables. */
  function CsvOutputFolder(month: string, dataType: string): string {
    PathJoin(OUTPUT_ROOT, Category(month, dataType) + ["csv_output"])
  }

  /** `output/miscellaneous/table_<n>` when the month or the type is
      missing, `output/<month>/<type>/table_<n>` otherwise. */
  lemma OutputFolderParts(month: string, dataType: string, tableNumber: string)
    requires '/' !in month && '/' !in dataType && '/' !in tableNumber
    ensures Split(OutputFolder(month, dataType, tableNumber), '/')
      == if month == "" || dataType == "" then ["output", "miscellaneous", "table_" + tableNumber]
         else ["output", month, dataType, "table_" + tableNumber]
  {
    var parts := Category(month, dataType) + ["table_" + tableNumber];
    assert '/' !in "table_" + tableNumber;
    PathParts(OUTPUT_ROOT, parts);
  }

  /** `output/miscellaneous/csv_output` when the month or the type is
      missing, `output/<month>/<type>/csv_output` otherwise. */
  lemma CsvOutputFolderParts(month: string, dataType: string)
    requires '/' !in month && '/' !in dataType
    ensures Split(CsvOutputFolder(month, dataType), '/')
      == if month == "" || dataType == "" then ["output", "miscellaneous", "csv_output"]
         else ["output", month, dataType, "csv_output"]
  {
    PathParts(OUTPUT_ROOT, Category(month, dataType) + ["csv_output"]);
  }

  /** The table's cells and the OCR tables sit side by side in one
      category folder. */
  lemma CellsBesideTables(month: string, dataType: string, tableNumber: string)
    ensures var parent := PathJoin(OUTPUT_ROOT, Category(month, dataType));
      OutputFolder(month, dataType, tableNumber) == JoinPath(parent, "table_" + tableNumber)
      && CsvOutputFolder(month, dataType) == JoinPath(parent, "csv_output")
  {
    PathJoinSnoc(OUTPUT_ROOT, Category(month, dataType), "table_" + tableNumber);
    PathJoinSnoc(OUTPUT_ROOT, Category(month, dataType), "csv_output");
  }

  /** Lines 145-146: the folder the file dialog opens in. */
  function InitialDir(month: string, dataType: string): string {
    if month != "" && dataType != "" then PathJoin(INPUT_ROOT, [month, dataType]) else INPUT_ROOT
  }

  /** `input_tables/<month>/<type>` when both are chosen, `input_tables`
      otherwise. */
  lemma InitialDirParts(month: string, dataType: string)
    requires '/' !in month && '/' !in dataType
    ensures Split(InitialDir(month, dataType), '/')
      == if month != "" && dataType != "" then ["input_tables", month, dataType] else ["input_tables"]
  {
    if month != "" && dataType != "" {
      PathParts(INPUT_ROOT, [month, dataType]);
    } else {
      SplitNoSep(INPUT_ROOT, '/');
    }
  }

  // ---------------------------------------------------------------------
  // Sharpening

  /** What `os.walk` yields: each folder with the files in it. */
  type Walk = seq<(string, seq<string>)>

  /** The files of one folder that are rewritten: the images `imread`
      decodes (`readable`), in listing order. */
  function SharpenedIn(root: string, files: seq<string>, readable: set<string>): seq<string> {
    if files == [] then []
    else
      var f := files[|files| - 1];
      var path := JoinPath(root, f);
      SharpenedIn(root, files[..|files| - 1], readable)
      + (if IsImageFile(f) && path in readable then [path] else [])
  }

  /** `sharpen_segmented_images`: every file rewritten, walk order. */
  function Sharpened(walk: Walk, readable: set<string>): seq<string> {
    if walk == [] then []
    else
      var (root, files) := walk[|walk| - 1];
      Sharpened(walk[..|walk| - 1], readable) + SharpenedIn(root, files, readable)
  }

  /** A file of the folder is rewritten when its lower-cased name ends in
      `.png`, `.jpg` or `.jpeg` and `imread` decodes it. */
  lemma {:induction false} SharpenedInHas(root: string, files: seq<string>, readable: set<string>, j: nat)
    requires j < |files| && IsImageFile(files[j]) && JoinPath(root, files[j]) in readable
    ensures JoinPath(root, files[j]) in SharpenedIn(root, files, readable)
  {
    if j < |files| - 1 {
      var init := files[..|files| - 1];
      assert init[j] == files[j];
      SharpenedInHas(root, init, readable, j);
    }
  }

  /** Every rewritten path is such a file. */
  lemma {:induction false} SharpenedInFrom(root: string, files: seq<string>, readable: set<string>, p: string)
    returns (j: nat)
    requires p in SharpenedIn(root, files, readable)
    ensures j < |files| && IsImageFile(files[j]) && p == JoinPath(root, files[j]) && p in readable
  {
    var init := files[..|files| - 1];
    if p in SharpenedIn(root, init, readable) {
      j := SharpenedInFrom(root, init, readable, p);
      assert init[j] == files[j];
    } else {
      j := |files| - 1;
      var path := JoinPath(root, files[j]);
      assert p in (if IsImageFile(files[j]) && path in readable then [path] else []);
    }
  }

  /** Over the whole walk, every decodable image is rewritten ... */
  lemma {:induction false} SharpenedHas(walk: Walk, readable: set<string>, i: nat, j: nat)
    requires i < |walk| && j < |walk[i].1|
    requires IsImageFile(walk[i].1[j]) && JoinPath(walk[i].0, walk[i].1[j]) in readable
    ensures JoinPath(walk[i].0, walk[i].1[j]) in Sharpened(walk, readable)
  {
    var init := walk[..|walk| - 1];
    if i < |walk| - 1 {
      assert init[i] == walk[i];
      SharpenedHas(init, readable, i, j);
    } else {
      SharpenedInHas(walk[i].0, walk[i].1, readable, j);
    }
  }

  /** ... and nothing else is. */
  lemma {:induction false} SharpenedFrom(walk: Walk, readable: set<string>, p: string)
    returns (i: nat, j: nat)
    requires p in Sharpened(walk, readable)
    ensures i < |walk| && j < |walk[i].1| && p in readable
    ensures IsImageFile(walk[i].1[j]) && p == JoinPath(walk[i].0, walk[i].1[j])
  {
    var init := walk[..|walk| - 1];
    if p in Sharpened(init, readable) {
      i, j := SharpenedFrom(init, readable, p);
      assert init[i] == walk[i];
    } else {
      i := |walk| - 1;
      j := SharpenedInFrom(walk[i].0, walk[i].1, readable, p);
    }
  }

  /** The image test ignores case and looks only at the end of the name:
      a name is an image exactly when its last four characters lower to
      ".png" or ".jpg" or its last five to ".jpeg"; any name followed by
      such an ending, in any case, is one; and lowering a name does not
      change the answer. */
  lemma ImageNames(name: string, ending: string)
    ensures Lower(ending) in {".png", ".jpg", ".jpeg"} ==> IsImageFile(name + ending)
    ensures IsImageFile(name) <==>
      (|name| >= 4 && Lower(name[|name| - 4..]) in {".png", ".jpg"})
      || (|name| >= 5 && Lower(name[|name| - 5..]) == ".jpeg")
    ensures IsImageFile(Lower(name)) == IsImageFile(name)
  {
    var n := name + ending;
    assert Lower(n) == Lower(name) + Lower(ending);
    assert Lower(n)[|n| - |ending|..] == Lower(ending);
    if |name| >= 4 {
      assert Lower(name)[|name| - 4..] == Lower(name[|name| - 4..]);
    }
    if |name| >= 5 {
      assert Lower(name)[|name| - 5..] == Lower(name[|name| - 5..]);
    }
    assert Lower(Lower(name)) == Lower(name);
  }

  /** Some names the test accepts and refuses. */
  lemma ImageNameExamples()
    ensures IsImageFile("col_1.PNG") && IsImageFile("scan.Jpeg") && IsImageFile(".jpg")
    ensures !IsImageFile("col_1.png.txt") && !IsImageFile("png") && !IsImageFile("notes.gif")
  {
    assert Lower("col_1.PNG")[|"col_1.PNG"| - 4..] == ".png";
    assert Lower("scan.Jpeg")[|"scan.Jpeg"| - 5..] == ".jpeg";
    assert Lower("col_1.png.txt")[|"col_1.png.txt"| - 4..] == ".txt";
    assert Lower("col_1.png.txt")[|"col_1.png.txt"| - 5..] == "g.txt";
    assert Lower("notes.gif")[|"notes.gif"| - 4..] == ".gif";
    assert Lower("notes.gif")[|"notes.gif"| - 5..] == "s.gif";
  }

  /** Lines 65-72: the walk, the extension filter and the rewrites. */
  method SharpenSegmentedImages(walk: Walk, readable: set<string>) returns (written: seq<string>)
    ensures written == Sharpened(walk, readable)
  {
    written := [];
    for i := 0 to |walk|
      invariant written == Sharpened(walk[..i], readable)
    {
      var (root, files) := walk[i];
      assert walk[..i + 1][..i] == walk[..i];
      var inFolder := SharpenFolder(root, files, readable);
      written := written + inFolder;
    }
    assert walk[..|walk|] == walk;
  }

  /** The inner loop over one folder's files (lines 66-72). */
  method SharpenFolder(root: string, files: seq<string>, readable: set<string>) returns (written: seq<string>)
    ensures written == SharpenedIn(root, files, readable)
  {
    written := [];
    for j := 0 to |files|
      invariant written == SharpenedIn(root, files[..j], readable)
    {
      var file := files[j];
      assert files[..j + 1][..j] == files[..j];
      var imgPath := JoinPath(root, file);
      if IsImageFile(file) && imgPath in readable {
        written := written + [imgPath];
      }
    }
    assert files[..|files|] == files;
  }

  // ---------------------------------------------------------------------
  // The window

  /** The form's fields: month, type, selected image, table number and the
      label showing the image's name. */
  datatype View = View(month: string, dataType: string, tableFile: string, tableNumber: string,
                       fileLabel: string)

  /** What `run_segmentation` does. */
  datatype SegmentationRun =
    | NoImage                    // no table image selected
    | KeptExisting               // the folder has files and overwriting was declined
    | ProgramExited(image: string, outDir: string, report: Segmentation.Report)
                                 // ESC in rotate mode called `exit()`
    | Segmented(image: string, outDir: string, report: Segmentation.Report, sharpened: seq<string>)

  /** The segmentation ended the program: `exit()` on ESC in rotate mode
      raises `SystemExit`, which the window's callback does not catch. */
  predicate EndsProgram(report: Segmentation.Report) {
    report.Report? && report.outcome.Exited?
  }

  /** Lines 165-181. `existing` lists the output folder before the run,
      empty when it is missing; `overwrite` is the answer to the prompt,
      asked only when `existing` is not empty; `image` is the table image
      as `cv2.imread` reads it and `input` the operator's clicks and keys
      in the segmentation window; `after` is the folder as the segmentation
      leaves it. */
  function SegmentationSpec(v: View, existing: seq<string>, overwrite: bool,
                            image: Option<Segmentation.Frame>, input: seq<Segmentation.Command>,
                            after: Walk, readable: set<string>): SegmentationRun {
    if v.tableFile == "" then NoImage
    else if existing != [] && !overwrite then KeptExisting
    else
      var outDir := OutputFolder(v.month, v.dataType, v.tableNumber);
      var report := Segmentation.Segment(image, input);
      if EndsProgram(report) then ProgramExited(v.tableFile, outDir, report)
      else Segmented(v.tableFile, outDir, report, Sharpened(after, readable))
  }

  /** The arguments `run_ocr` passes to the OCR. */
  datatype OcrCall = OcrCall(segmentPath: string, csvOut: string, month: string, dataType: string,
                             tableNumber: string)

  /** `value or "miscellaneous"`. */
  function OrMiscellaneous(s: string): string {
    if s == "" then MISCELLANEOUS else s
  }

  /** `run_ocr`: nothing without a table number. */
  function OcrSpec(v: View): Option<OcrCall> {
    if v.tableNumber == "" then None
    else Some(OcrCall(OutputFolder(v.month, v.dataType, v.tableNumber), CsvOutputFolder(v.month, v.dataType),
                      OrMiscellaneous(v.month), OrMiscellaneous(v.dataType), v.tableNumber))
  }

  /** The segmentation runs exactly when an image is chosen and the user
      does not refuse to overwrite existing cells; a refusal is only
      possible when there are some. Sharpening follows every segmentation
      except one the operator left with ESC in rotate mode, which ends the
      program before it; the run reports the session's own outcome and
      writes. */
  lemma SegmentationGuards(v: View, existing: seq<string>, overwrite: bool,
                           image: Option<Segmentation.Frame>, input: seq<Segmentation.Command>,
                           after: Walk, readable: set<string>)
    ensures var r := SegmentationSpec(v, existing, overwrite, image, input, after, readable);
      (r.Segmented? || r.ProgramExited?) <==> v.tableFile != "" && (existing == [] || overwrite)
    ensures var r := SegmentationSpec(v, existing, overwrite, image, input, after, readable);
      (r.Segmented? || r.ProgramExited?) ==>
        r.report == Segmentation.Segment(image, input)
        && (r.ProgramExited? <==> Segmentation.Run(Segmentation.Initial, input) == Segmentation.Exited && image.Some?)
    ensures SegmentationSpec(v, [], overwrite, image, input, after, readable)
      == SegmentationSpec(v, [], !overwrite, image, input, after, readable)
  {
  }

  /** The OCR reads the folder the segmentation of the same form wrote,
      and writes beside it. */
  lemma OcrReadsSegmentedFolder(v: View, existing: seq<string>, overwrite: bool,
                                image: Option<Segmentation.Frame>, input: seq<Segmentation.Command>,
                                after: Walk, readable: set<string>)
    requires SegmentationSpec(v, existing, overwrite, image, input, after, readable).Segmented?
    requires OcrSpec(v).Some?
    ensures OcrSpec(v).value.segmentPath == SegmentationSpec(v, existing, overwrite, image, input, after, readable).outDir
    ensures var parent := PathJoin(OUTPUT_ROOT, Category(v.month, v.dataType));
      OcrSpec(v).value.segmentPath == JoinPath(parent, "table_" + v.tableNumber)
      && OcrSpec(v).value.csvOut == JoinPath(parent, "csv_output")
  {
    CellsBesideTables(v.month, v.dataType, v.tableNumber);
  }

  /** The OCR is labelled `miscellaneous` field by field, so a chosen month
      with no type reads `output/miscellaneous/...` but is labelled with
      the month. */
  lemma OcrLabels(v: View)
    requires v.tableNumber != ""
    ensures OcrSpec(v).Some?
    ensures OcrSpec(v).value.month == MISCELLANEOUS <==> v.month == "" || v.month == MISCELLANEOUS
    ensures v.month != "" && v.dataType == "" ==>
      OcrSpec(v).value.month == v.month
      && OcrSpec(v).value.segmentPath == PathJoin(OUTPUT_ROOT, [MISCELLANEOUS, "table_" + v.tableNumber])
  {
  }

  class OcrApp {
    var month: string
    var dataType: string
    var tableFile: string
    var tableNumber: string
    var fileLabel: string

    function Snapshot(): View
      reads this
    {
      View(month, dataType, tableFile, tableNumber, fileLabel)
    }

    /** Lines 96-99 and 122: empty choices, table number "1". */
    constructor()
      ensures Snapshot() == View("", "", "", "1", "No file selected")
    {
      month, dataType, tableFile, tableNumber := "", "", "", "1";
      fileLabel := "No file selected";
    }

    /** The user picking a month and a type and typing a table number into
        the widgets bound to the form's variables. */
    method Fill(newMonth: string, newType: string, newNumber: string)
      modifies this
      ensures Snapshot() == old(Snapshot()).(month := newMonth, dataType := newType, tableNumber := newNumber)
    {
      month, dataType, tableNumber := newMonth, newType, newNumber;
    }

    /** `select_table_file`: the dialog opens in `initDir`; `chosen` is its
        answer, empty when cancelled, which changes nothing. */
    method SelectTableFile(chosen: string) returns (initDir: string)
      modifies this
      ensures initDir == InitialDir(month, dataType)
      ensures Snapshot() == if chosen == "" then old(Snapshot())
                            else old(Snapshot()).(tableFile := chosen, fileLabel := Basename(chosen))
    {
      initDir := if month != "" && dataType != "" then PathJoin(INPUT_ROOT, [month, dataType]) else INPUT_ROOT;
      if chosen != "" {
        tableFile, fileLabel := chosen, Basename(chosen);
      }
    }

    /** `run_segmentation`. */
    method RunSegmentation(existing: seq<string>, overwrite: bool,
                           image: Option<Segmentation.Frame>, input: seq<Segmentation.Command>,
                           after: Walk, readable: set<string>)
      returns (run: SegmentationRun)
      ensures run == SegmentationSpec(Snapshot(), existing, overwrite, image, input, after, readable)
    {
      if tableFile == "" {
        return NoImage;
      }
      var outDir := OutputFolder(month, dataType, tableNumber);
      if existing != [] {
        if !overwrite {
          return KeptExisting;
        }
      }
      var report := Segmentation.StartSegmentation(image, input);
      if report.Report? && report.outcome.Exited? {
        return ProgramExited(tableFile, outDir, report);
      }
      var sharpened := SharpenSegmentedImages(after, readable);
      return Segmented(tableFile, outDir, report, sharpened);
    }

    /** `run_ocr`. */
    method RunOcr() returns (call: Option<OcrCall>)
      ensures call == OcrSpec(Snapshot())
    {
      if tableNumber == "" {
        return None;
      }
      var segmentPath := OutputFolder(month, dataType, tableNumber);
      var csvOut := CsvOutputFolder(month, dataType);
      var m := if month == "" then MISCELLANEOUS else month;
      var t := if dataType == "" then MISCELLANEOUS else dataType;
      return Some(OcrCall(segmentPath, csvOut, m, t, tableNumber));
    }
  }
}
