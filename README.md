# OCR table pipeline: a verified model of its core

The pipeline digitises scanned weather tables in five stages:

- **Segmentation** (`segmentation.py`). The operator clicks row lines and
  column lines over the scan and can rotate it by quarter degrees. Each cell
  of the grid is then written as `row_<i>/col_<j>.png`.
- **Launcher** (`app.py`). It picks the output folders (falling back to
  `miscellaneous`), guards the segmentation and OCR buttons, and sharpens
  the segmented images.
- **Validator** (`error_checker_gui.py`). It walks a cursor over an OCR'd
  table to the invalid cells, then to the outliers. The operator confirms,
  empties or jumps to cells.
- **Manual entry** (`manual_input_gui.py`). It shows the cell images one by
  one and fills a sheet with the typed values.
- **Reformatting script** (`clean_and_check_scripts/reformat.py`). It turns
  every month's tables into dated records and writes one master file sorted
  by date.

The project has one module per source file:

| module | file |
|---|---|
| `Segmentation` | `segmentation.dfy` |
| `App` | `app.dfy` |
| `ErrorChecker` | `error_checker.dfy` |
| `ManualInput` | `manual_input.dfy` |
| `Reformat` | `reformat.dfy` |

Shared modules model the Python string operations (`Text`: `strip`, `lower`,
`split`/`join`, `replace`, `str(n)`, `int()`, `float()`, `f"{n:02d}"`), a
stable sort by a lexicographic key (`Sorting`: `sorted`, `sort_values`), and
`Option` (`Wrappers`).

Where the source changes state in place, the model does too. The segmentation
session, the validator, the manual-entry window and the launcher window are
classes whose fields are the source's variables. Each class's methods follow
the source statement by statement. Each method is proved to produce exactly
the state that a pure specification function gives for the old state. The
properties are proved as lemmas about those functions. The loops of the
source (the key loops, the crop loop, the invalid-cell scan, the NaN search,
image collection, the reformatting loops and the sharpening walk) are `while`
and `for` loops with invariants.

Some behaviours of the code worth knowing:

- The segmentation does not clamp clicks to the image.
- A click on pixel row or column 0 is not merged with the 0 the
  segmentation adds itself, so its band has zero height or width
  (`Segmentation.BorderClickGivesEmptyBand`). The first crop of that band is
  an empty array, and `cv2.imwrite` raises on an empty image: the crop loop
  stops at that cell, the segmentation ends with the error, and the
  launcher neither sharpens the cells nor reports success. The model does
  not capture that failure (see "Left out").
- The result of `imwrite` is ignored, so no count of failed writes is kept.
- ESC in rotate mode calls `exit()`, which ends the whole program
  (`Segmentation.Exited`, `App.ProgramExited`); the launcher then never
  sharpens the cells.
- Before a CSV is loaded, the validator's buttons that need the table raise
  on a missing attribute and change nothing
  (`ErrorChecker.BeforeLoadNothingHappens`).
- When every record of the reformatting run is filtered out, the script
  raises on the date split instead of writing a master file.

## Model

| member | source | states |
|---|---|---|
| Segmentation.InsertUnique | segmentation.py:127 | adding a value to a strictly increasing list keeps it strictly increasing, with exactly the old values plus the new one |
| Segmentation.SortedSet | segmentation.py:127-128 | `sorted(set(xs))` is strictly increasing and holds exactly the values of `xs` |
| Segmentation.StrictlyIncreasingUnique | segmentation.py:127-128 | two strictly increasing lists with the same values are equal, so `sorted(set(..))` is the only such arrangement |
| Segmentation.BoundariesShape | segmentation.py:127-132 | the boundaries start at 0 and end at the image's extent, with one entry between them per distinct click |
| Segmentation.BoundariesOrdered | segmentation.py:127-132 | with clicks inside the frame the boundaries ascend; with clicks strictly inside they strictly ascend, so no cell is empty |
| Segmentation.BorderClickGivesEmptyBand | segmentation.py:127-132 | a click at 0 is not merged with the border, so the first band has zero height |
| Segmentation.CropScheduleCell | segmentation.py:138-144 | the crop loop writes (rows−1)×(cols−1) cells, and cell (i, j) at row-major position is the rectangle between boundaries i, i+1 and j, j+1, written to `row_<i+1>/col_<j+1>.png` |
| Segmentation.ScheduleMembers | segmentation.py:138-144 | every written cell is a grid cell with in-range 1-based indices, cut from the frame rotated by the final angle |
| Segmentation.BandOfPixel | segmentation.py:138-142 | with ascending boundaries every pixel row lies in exactly one band: the cells tile the frame |
| Segmentation.UndoClick | segmentation.py:39-52 | in a drawing mode a right click undoes the left click just made |
| Segmentation.LeftClicksAppend | segmentation.py:41-45 | in either drawing mode, left clicks append their y (row mode) or x (column mode) coordinates to that mode's list in click order, leaving the other list alone |
| Segmentation.RightClickOnEmpty | segmentation.py:48-52 | in a drawing mode a right click on an empty line list changes nothing |
| Segmentation.RightClicksPop | segmentation.py:48-52 | in either drawing mode, m right clicks pop that mode's m most recent lines; right clicks beyond the last line change nothing |
| Segmentation.ClicksThenUndos | segmentation.py:39-52 | in either drawing mode, N clicks then M ≤ N undos leave the first N−M coordinates, in order |
| Segmentation.RotateKeys | segmentation.py:57-75 | in rotate mode, keys other than ESC and Enter change only the angle, by #r − #l quarter degrees, whatever the order |
| Segmentation.RotateExcursion | segmentation.py:92-99 | `r`, rotation keys, Enter returns to the mode that entered rotate mode, with both line lists untouched |
| Segmentation.OnlyFinalisationWrites | segmentation.py:86-144 | a report with written cells comes only from a session that reached finalisation |
| Segmentation.CancelBeforeAdvance | segmentation.py:86-91 | on any image, ESC in the row loop ends the session with nothing written, whatever was clicked |
| Segmentation.ExampleRun | segmentation.py:39-123 | two row clicks, an advancing key, a column click and another key finalise with lines [200, 400] and [300] |
| Segmentation.ExampleBoundaries | segmentation.py:127-132 | those clicks give the boundaries [0, 200, 400, 600] and [0, 300, 800] |
| Segmentation.ExampleCells | segmentation.py:138-144 | those boundaries give six cells, row by row |
| Segmentation.Example800x600 | segmentation.py:11-146 | the whole session on an 800×600 image writes exactly those six cells |
| Segmentation.Session.constructor | segmentation.py:17-22 | the session starts in row mode with no lines and angle 0 |
| Segmentation.Session.DrawLine | segmentation.py:39-54 | the callback changes the line lists as the transition function says and nothing else |
| Segmentation.Session.WaitKey | segmentation.py:86-87 | mouse events are delivered to the callback until a key arrives; the run of the remaining input is unchanged |
| Segmentation.Session.HandleRotateMode | segmentation.py:57-75 | the rotate loop follows the transition function: ESC exits, Enter returns to the drawing mode, the lines are untouched |
| Segmentation.Session.KeyLoop | segmentation.py:86-101 | ESC cancels, `r` makes a rotate excursion, any other key advances, as the transition function says |
| Segmentation.Session.Finalise | segmentation.py:127-144 | the lines become the boundaries and exactly the crop schedule is written, in loop order |
| Segmentation.Session.MakeBoundaries | segmentation.py:127-132 | one direction's boundary list is built as the boundary lemmas above describe: the distinct lines in ascending order, framed by 0 and the image's extent |
| Segmentation.Session.WriteRow | segmentation.py:141-144 | one row band writes exactly its crops, column by column, and changes nothing else in the session |
| Segmentation.Session.Start | segmentation.py:77-146 | the session's outcome is the transition function's run of the input, and it writes the grid's cells only when finalised |
| Segmentation.StartSegmentation | segmentation.py:11-16 | the run's report is the specified one: nothing for an image that does not load, otherwise the session's outcome and the cells it writes |
| App.PathJoinPlain | app.py:26-29 | `os.path.join` of plain components puts exactly one `/` between neighbours |
| App.PathParts | app.py:26-29 | splitting a joined path at `/` gives back its components |
| App.PathJoinSnoc | app.py:26-29 | joining one more component is one more two-argument join |
| App.BasenameOfJoin | app.py:155 | the label shows the chosen file's own name |
| App.OutputFolderParts | app.py:26-31 | the cell folder is `output/miscellaneous/table_<n>` when month or type is empty, `output/<month>/<type>/table_<n>` otherwise |
| App.CsvOutputFolderParts | app.py:40-45 | the CSV folder is `output/miscellaneous/csv_output` when month or type is empty, `output/<month>/<type>/csv_output` otherwise |
| App.CellsBesideTables | app.py:19-45 | the cell folder and the CSV folder share one parent folder |
| App.InitialDirParts | app.py:145-146 | the dialog opens in `input_tables/<month>/<type>` when both are set, and in `input_tables` otherwise |
| App.SharpenedInHas | app.py:66-72 | every decodable file of a folder whose lower-cased name ends in .png/.jpg/.jpeg is rewritten |
| App.SharpenedInFrom | app.py:66-72 | every rewritten path is such a file of the folder |
| App.SharpenedHas | app.py:65-72 | over the whole walk, every decodable image file is rewritten |
| App.SharpenedFrom | app.py:65-72 | over the whole walk, nothing but decodable image files is rewritten |
| App.ImageNames | app.py:67 | for every name: it is an image exactly when its last four characters lower to ".png" or ".jpg" or its last five to ".jpeg"; any name followed by such an ending in any case is one; lowering the name does not change the answer |
| App.ImageNameExamples | app.py:67 | "col_1.PNG", "scan.Jpeg" and ".jpg" pass; "col_1.png.txt", "png" and "notes.gif" do not |
| App.SharpenSegmentedImages | app.py:65-72 | the nested walk loop rewrites exactly the specified files, in walk order |
| App.SharpenFolder | app.py:66-72 | the inner loop rewrites exactly the folder's decodable images, in listing order |
| App.SegmentationGuards | app.py:165-180 | segmentation starts exactly when an image is chosen and overwriting existing cells was not refused; the prompt answer matters only when there are cells; the run reports the session's own outcome, and the program ends before sharpening exactly when the session ends with ESC in rotate mode |
| App.OcrReadsSegmentedFolder | app.py:194-195 | the OCR reads the folder the segmentation of the same form wrote, and writes its tables beside it |
| App.OcrLabels | app.py:197-202 | with a table number the OCR runs; its month label is `miscellaneous` exactly when the month is empty or is that word; a month without a type keeps its label but the OCR reads `output/miscellaneous/table_<n>` |
| App.OcrApp.constructor | app.py:96-99 | empty month, type and file, table number "1" |
| App.OcrApp.Fill | app.py:96-99 | choosing month, type and number sets exactly those fields |
| App.OcrApp.SelectTableFile | app.py:145-155 | the dialog opens in the initial folder; a chosen file is stored with its name as the label, and a cancelled dialog changes nothing |
| App.OcrApp.RunSegmentation | app.py:165-181 | the handler runs the segmentation session and does exactly what the specification function gives: no image, kept existing cells, the program ended from rotate mode, or segmented and sharpened |
| App.OcrApp.RunOcr | app.py:190-202 | no call without a table number; otherwise the folders and labels of the specification |
| ErrorChecker.MarkersInvalid | error_checker_gui.py:226-229 | a blank cell or an "x" in either case is invalid, whatever the flags |
| ErrorChecker.NanValidIffIgnored | error_checker_gui.py:230-240 | "nan" in any case is valid exactly when the ignore-NaN box is ticked |
| ErrorChecker.YearValidIffInRange | error_checker_gui.py:233-235 | a year in the first column is valid exactly when 1850 ≤ y ≤ 2025 |
| ErrorChecker.ReadingValidIffInRange | error_checker_gui.py:236-238 | an integer reading is valid exactly when −50 ≤ n ≤ 99 |
| ErrorChecker.CleanTable | error_checker_gui.py:197 | the clean-up keeps the number of rows and the length of each row |
| ErrorChecker.CleanTableShape | error_checker_gui.py:197 | the clean-up keeps a rectangular table rectangular |
| ErrorChecker.CleanTableSpec | error_checker_gui.py:197 | after clean-up no cell reads "x" in either case, and cleaning again changes nothing |
| ErrorChecker.NormaliseSpec | error_checker_gui.py:309 | a stored cell never holds a marker, storing its text again gives the same cell, and blank is stored exactly for markers and empty text |
| ErrorChecker.Texts | error_checker_gui.py:215-216 | a row shows the `str()` of each of its cells, in order |
| ErrorChecker.RowLineParts | error_checker_gui.py:211-220 | a display line starts with the arrow exactly on the cursor row, its number reads back as r+1, and its tab-separated fields are the cell texts |
| ErrorChecker.ConcatLines | error_checker_gui.py:222 | newline-terminated lines split back into those lines |
| ErrorChecker.DisplayLines | error_checker_gui.py:208-222 | the display has exactly one line per table row, in order, with the arrow on the cursor row only |
| ErrorChecker.NextCellAdvances | error_checker_gui.py:129-137 | once a table is loaded, the row-major position goes up by exactly one; the reached cell is shown, and past the last row only the end message appears |
| ErrorChecker.BeforeLoadNothingHappens | error_checker_gui.py:121-137 | before a load, Next Cell, Confirm, Empty, Enter and Save Now change nothing, and Go to Cell only shows its error |
| ErrorChecker.TypedPosition | error_checker_gui.py:318-323 | a position accepted from the search boxes is inside the table |
| ErrorChecker.GotoReachesTypedCell | error_checker_gui.py:318-326 | typing a cell's 1-based position moves the cursor there and shows that cell |
| ErrorChecker.TypedPositionExact | error_checker_gui.py:320-323 | the boxes name a cell exactly when both read as integers within 1..rows and 1..columns, and then the cell one less in each |
| ErrorChecker.GotoStaysInTable | error_checker_gui.py:318-328 | after go-to the cursor is in the table or unchanged and the table is untouched; a box that is not an integer, or a row or column out of range, changes only the message; when it raised no message, a second go-to changes nothing |
| ErrorChecker.Marks | error_checker_gui.py:262-271 | the scan's test has one entry per cell |
| ErrorChecker.FirstMarked | error_checker_gui.py:262-274 | a cell the scan stops at is inside the table |
| ErrorChecker.FirstMarkedIsFirst | error_checker_gui.py:262-274 | the scan stops at the first flagged cell it reaches in row-major order; when it finds none, no reachable cell is flagged |
| ErrorChecker.LoadNextOutcome | error_checker_gui.py:258-284 | outside step mode the walk ends on a flagged cell it shows, or switches once to the outlier phase and finally saves with the cursor past the end; it never changes a cell |
| ErrorChecker.PhaseTwoSkipsYears | error_checker_gui.py:269 | the outlier phase never stops in the year column |
| ErrorChecker.StoreAndStep | error_checker_gui.py:309-310 | the shared edit step stores the value in the cursor cell, leaves every other cell and the table's shape as they were, and moves the cursor one column right |
| ErrorChecker.ConfirmWritesOneCell | error_checker_gui.py:307-311 | confirming writes the normalised entry text into exactly the cursor cell and nothing else |
| ErrorChecker.ClearWritesBlank | error_checker_gui.py:313-316 | emptying writes a blank into exactly the cursor cell |
| ErrorChecker.OutOfRangeEditsNothing | error_checker_gui.py:307-316 | with the cursor outside the table, confirming and emptying change nothing |
| ErrorChecker.EnterEditsOnlyOutsideStepMode | error_checker_gui.py:121-125 | Enter never edits in step mode, and always edits the cursor cell otherwise |
| ErrorChecker.TableFolderOfCsvName | error_checker_gui.py:199 | for `<month>_<type>_<n>.csv` the image folder is `table_<n>` |
| ErrorChecker.LoadCsvStartsAtFirstInvalid | error_checker_gui.py:186-206 | after loading, the cursor is on the first invalid cell in row-major order, or no cell is invalid and the outlier phase has begun |
| ErrorChecker.FindFlagged | error_checker_gui.py:262-274 | the nested scan loops find exactly the first flagged cell, or end where the specification says |
| ErrorChecker.ScanRow | error_checker_gui.py:263-272 | the inner loop stops at the first flagged column of its row from the starting column; when there is none, the scan goes on from the next row's first column |
| ErrorChecker.Checker.constructor | error_checker_gui.py:16-29 | nothing loaded, no outliers, first phase, both boxes unticked, empty entry and search boxes |
| ErrorChecker.Checker.LoadCell | error_checker_gui.py:286-294 | the entry shows the cell and the search boxes its 1-based position |
| ErrorChecker.Checker.NextCell | error_checker_gui.py:129-137 | the method produces exactly the specified next-cell state, which changes nothing before a load, and keeps the validator well formed |
| ErrorChecker.Checker.GotoCell | error_checker_gui.py:318-328 | the method produces exactly the specified go-to state |
| ErrorChecker.Checker.Scan | error_checker_gui.py:262-274 | the scan loops produce exactly the specified scan state, and report a find exactly when a flagged cell lies ahead of the cursor |
| ErrorChecker.Checker.SaveCsv | error_checker_gui.py:330-333 | once a table is loaded, the current table is saved and nothing else changes; before a load nothing changes |
| ErrorChecker.Checker.StartPass | error_checker_gui.py:276-280 | a new pass starts at the first cell with the current table's outliers |
| ErrorChecker.Checker.LoadNextInvalidCell | error_checker_gui.py:258-284 | the method produces exactly the specified walk, including the recursive phase switch |
| ErrorChecker.Checker.ConfirmCell | error_checker_gui.py:307-311 | the method produces exactly the specified confirm state |
| ErrorChecker.Checker.ClearCell | error_checker_gui.py:313-316 | the method produces exactly the specified empty state |
| ErrorChecker.Checker.HandleEnterKey | error_checker_gui.py:121-125 | Enter steps in step mode and confirms otherwise, and before a load changes nothing |
| ErrorChecker.Checker.LoadCsv | error_checker_gui.py:186-206 | the method produces exactly the specified load state, after which the validator counts as loaded |
| ManualInput.NormaliseSpec | manual_input_gui.py:97-102 | a stored value is never blank and has no `/`; blank input is "NaN"; without typed line breaks the input comes back by turning line breaks into `/` |
| ManualInput.SlashKeyInside | manual_input_gui.py:127-130 | between two pieces of text, the `/` key stores the same value as a typed `/` |
| ManualInput.SlashKeyAtEnd | manual_input_gui.py:127-130 | at the end of the text the `/` key's line break is stripped, while a typed `/` would have become a line break |
| ManualInput.AdvanceStepsOneImage | manual_input_gui.py:108-111 | the cursor moves to the very next image index and stays inside the width |
| ManualInput.SaveName | manual_input_gui.py:135 | a chosen non-empty file name is used as is |
| ManualInput.LoadImageOutcome | manual_input_gui.py:78-86 | loading finishes (writing the sheet once) exactly past the last row or the last image, and otherwise shows the image at the flat index |
| ManualInput.SaveAndNextStores | manual_input_gui.py:97-113 | the normalised value lands in exactly the cursor cell, the entry clears, the cursor moves one image on, and the tool finishes exactly when rows or images run out |
| ManualInput.ChooseFileSpec | manual_input_gui.py:156-158 | the chosen name is the typed name, or else the picked one, kept as it is when it ends in .csv and with exactly ".csv" appended otherwise; choosing it again keeps it |
| ManualInput.FillNa | manual_input_gui.py:164-165 | the filled sheet has the file's shape |
| ManualInput.BlankSheet | manual_input_gui.py:178 | a new sheet is `rows` rows of `cols` "NaN" values |
| ManualInput.NaNMarks | manual_input_gui.py:172-174 | there is one mark per cell of the sheet |
| ManualInput.ConfirmNewFile | manual_input_gui.py:177-179 | a new file gets a blank sheet of the current size and the cursor at (0, 0) |
| ManualInput.ConfirmResumes | manual_input_gui.py:162-176 | resuming takes the file's size, and puts the cursor on the first "NaN" cell in row-major order, or leaves it when there is none |
| ManualInput.FindBlank | manual_input_gui.py:172-176 | the nested loops find exactly the first "NaN" cell |
| ManualInput.NameNumberOfCellFile | manual_input_gui.py:49 | the sort key of `col_<j>.png` is j |
| ManualInput.CollectFails | manual_input_gui.py:49 | one unnumbered file in a row folder makes the whole collection fail |
| ManualInput.AppendImages | manual_input_gui.py:49-51 | the inner loop appends exactly the folder's image files, in order |
| ManualInput.CollectImages | manual_input_gui.py:44-52 | the loops collect exactly the specified images: folders in name order, files by number |
| ManualInput.ImageNamesCount | manual_input_gui.py:50 | a name is kept exactly when it is an image file, as often as it occurs |
| ManualInput.RowImagesOrdered | manual_input_gui.py:49-51 | within a row folder the images come by ascending number, and they are exactly its image files |
| ManualInput.ImageNamesSorted | manual_input_gui.py:49-50 | filtering a sorted list keeps it sorted |
| ManualInput.ManualEntry.constructor | manual_input_gui.py:32-37 | a 22×33 sheet size, the cursor at the top, no sheet and no file |
| ManualInput.ManualEntry.SaveCsv | manual_input_gui.py:132-137 | the sheet is written under the chosen name |
| ManualInput.ManualEntry.Finish | manual_input_gui.py:115-121 | the sheet is written and the finish is recorded; the handlers stay callable, since a `quit()` before the main loop starts does not end it |
| ManualInput.ManualEntry.LoadImage | manual_input_gui.py:78-95 | the method produces exactly the specified load state |
| ManualInput.ManualEntry.Store | manual_input_gui.py:104-111 | the value is written at the cursor, which then advances |
| ManualInput.ManualEntry.SaveAndNext | manual_input_gui.py:97-113 | the method produces exactly the specified save-and-next state |
| ManualInput.ManualEntry.HandleSlashKey | manual_input_gui.py:127-130 | the key appends a line break to the entry and changes nothing else |
| ManualInput.ManualEntry.Adopt | manual_input_gui.py:165-167 | the file becomes the sheet, with its row and column counts |
| ManualInput.ManualEntry.MoveTo | manual_input_gui.py:175 | only the cursor moves |
| ManualInput.ManualEntry.Confirm | manual_input_gui.py:155-181 | the method produces exactly the specified confirm state |
| ManualInput.RowFolders | manual_input_gui.py:48 | only row folders are kept |
| ManualInput.RowOrderSorted | manual_input_gui.py:46-48 | the corrected collection walks the row folders by ascending number |
| ManualInput.SortCellFiles | manual_input_gui.py:49 | a row folder holding `col_1.png` to `col_<cols>.png`, listed in any order, is walked in column order |
| ManualInput.CollectGrid | manual_input_gui.py:44-52 | the row folders of a grid, walked in row order, give the grid's images row by row |
| ManualInput.GridImageAt | manual_input_gui.py:82 | image `r * cols + c` of the grid is the cell of row r+1 and column c+1 |
| ManualInput.TenRowsSortByName | manual_input_gui.py:46 | `sorted(os.listdir(path))` lists ten row folders as `row_1`, `row_10`, `row_2`, ..., `row_9` |
| ManualInput.NameOrderMisplacesRowTwo | manual_input_gui.py:46 | as written, on a grid of ten rows the image shown for the second sheet row is the cell of row 10 |
| ManualInput.RowOrderMatchesSheet | manual_input_gui.py:46-51 | with the row folders ordered by number, the image shown for sheet cell (r, c) is the cell of row r+1 and column c+1, for any grid and any listing order |
| Reformat.MonthNumbers | clean_and_check_scripts/reformat.py:10-14 | twelve distinct month names, the i-th mapped to the number i+1 written with two digits |
| Reformat.DayColumn | clean_and_check_scripts/reformat.py:22 | a melted day column has one record per row |
| Reformat.MeltFromShape | clean_and_check_scripts/reformat.py:19-26 | melting the kept day columns gives rows × columns records, each with a kept day and its own row's year and reading |
| Reformat.MeltFromAt | clean_and_check_scripts/reformat.py:22 | the record of a row and day sits after the earlier days' full columns, at its row's place in its column |
| Reformat.MeltFromCovers | clean_and_check_scripts/reformat.py:19-26 | every row and kept day column is melted |
| Reformat.LoadAndMeltShape | clean_and_check_scripts/reformat.py:16-28 | `load_and_melt` gives rows × kept days records, each day 1 to 31 and taken from its own row, and every row and kept day appears |
| Reformat.KeptYearIffInRange | clean_and_check_scripts/reformat.py:57-66 | a year written as `str(y)` survives both filters exactly when 1800 ≤ y ≤ 2025 |
| Reformat.KeepDated | clean_and_check_scripts/reformat.py:57-70 | the year filters never add records |
| Reformat.KeptRecords | clean_and_check_scripts/reformat.py:57-66 | a record is kept exactly when its year reads as a number between 1800 and 2025, and carries that year |
| Reformat.KeptRecordsAppend | clean_and_check_scripts/reformat.py:57-66 | filtering a concatenation filters each part in turn, so the kept records stay in order |
| Reformat.Dated | clean_and_check_scripts/reformat.py:70-72 | dating gives one record per kept record |
| Reformat.KeepDatedRecords | clean_and_check_scripts/reformat.py:57-72 | one file's records are exactly the year filter followed by dating each kept record, in order |
| Reformat.DateRoundTrip | clean_and_check_scripts/reformat.py:70-97 | a date the script writes splits back into its day, month and year, and rebuilding gives the same text |
| Reformat.KeepDatedWellDated | clean_and_check_scripts/reformat.py:57-70 | every kept record carries a well-formed date |
| Reformat.ProcessFileWellDated | clean_and_check_scripts/reformat.py:53-72 | every record of a processed file carries a well-formed date |
| Reformat.Rebuilt | clean_and_check_scripts/reformat.py:97 | rebuilding dates keeps the number of records |
| Reformat.WellDatedRebuilds | clean_and_check_scripts/reformat.py:91-97 | a written date splits, and rebuilds to itself |
| Reformat.SortAndRebuildKeepsDates | clean_and_check_scripts/reformat.py:91-97 | with written dates, sorting succeeds and yields every record once, in chronological order, dates unchanged |
| Reformat.RebuiltUnchanged | clean_and_check_scripts/reformat.py:97 | rebuilding written dates changes nothing |
| Reformat.OutputCsv | clean_and_check_scripts/reformat.py:100-103 | the file has the header `date,max,min,precipitation` and one line per record, NaN as an empty field |
| Reformat.Glob | clean_and_check_scripts/reformat.py:47 | the glob returns only files of the folder |
| Reformat.ConcatWellDated | clean_and_check_scripts/reformat.py:75 | concatenating well-dated frames gives a well-dated frame |
| Reformat.TypeFrameWellDated | clean_and_check_scripts/reformat.py:52-75 | one type's concatenated files are well dated |
| Reformat.MonthDataWellDated | clean_and_check_scripts/reformat.py:42-79 | a month's merged frame is well dated when the merge keeps dates |
| Reformat.AllDataWellDated | clean_and_check_scripts/reformat.py:31-82 | every month frame in `all_data` is well dated |
| Reformat.RecordsWellDated | clean_and_check_scripts/reformat.py:81-86 | every record of the concatenated final table carries a well-formed date |
| Reformat.RunWritesChronologically | clean_and_check_scripts/reformat.py:31-106 | the date split fails only when no record is left, and a written master file holds every record of every month once, in chronological order |
| Reformat.RunStep | clean_and_check_scripts/reformat.py:34-82 | each month adds its frame, when it has one, and its types to the columns |
| Reformat.Run | clean_and_check_scripts/reformat.py:31-106 | the script's loops produce exactly the specified outcome, including the failed split when every record was filtered out |
| Reformat.MonthLoop | clean_and_check_scripts/reformat.py:42-79 | the type loop produces the month's merged frame and the types found |
| Reformat.FileLoop | clean_and_check_scripts/reformat.py:53-72 | the file loop processes each file in glob order |
| Text.Trim | error_checker_gui.py:227 | `strip()` leaves no space at either end |
| Text.TrimUnpadded | manual_input_gui.py:98 | text with no space at either end is its own `strip()` |
| Text.TrimIdempotent | error_checker_gui.py:227 | `strip()` twice is `strip()` once |
| Text.LowerMarkers | error_checker_gui.py:228-230 | `lower() == "x"` holds exactly for "x" and "X", and the "nan" test is letter by letter |
| Text.ReplaceCharRemoves | manual_input_gui.py:102 | `replace("/", "\n")` leaves no `/` and keeps every other character |
| Text.JoinSplit | error_checker_gui.py:199 | joining the pieces of a split gives back the string |
| Text.SplitJoin | error_checker_gui.py:215-220 | splitting a join of separator-free pieces gives back the pieces |
| Text.SplitLast | error_checker_gui.py:199 | the last piece of a split is the text after the last separator |
| Text.RemoveSuffix | error_checker_gui.py:199 | `replace('.csv', '')` on `<n>.csv` gives `<n>` |
| Text.NatRoundTrip | error_checker_gui.py:320-321 | `int(str(n)) == n` |
| Text.IntRoundTrip | clean_and_check_scripts/reformat.py:91 | `int(str(i)) == i` |
| Text.ParseIntNeedsDigit | error_checker_gui.py:234 | only text with a digit reads as an integer |
| Text.Pad2RoundTrip | clean_and_check_scripts/reformat.py:70 | `f"{n:02d}"` for 0 ≤ n < 100 is two digits that read back as n |
| Text.DecimalOfInt | error_checker_gui.py:237 | `float(str(i)) == i` |
| Sorting.SortBy | clean_and_check_scripts/reformat.py:94 | the result is sorted by the key and is a permutation of the input |
| Sorting.InsertWithKey | clean_and_check_scripts/reformat.py:94 | an inserted element goes ahead of every element with the same key |
| Sorting.SortByStable | clean_and_check_scripts/reformat.py:94 | the sort is stable: the elements with any one key come out in the order they went in |

## Left out

- Pixels and windows. Out of scope: image decoding beyond success or
  failure, the rotation itself, drawing, `imshow`, the Tk widgets and the
  fixed 300×300 resize. A cell is its rectangle of the frame rotated by the
  angle, and the angle is kept in quarter degrees rather than as a float.
- Segmentation.StartSegmentation: a successful `imwrite` is assumed.
  `makedirs` is not modelled. This includes an empty crop, on which
  `cv2.imwrite` raises in the source, so the report claims every cell of
  the schedule even when a band has zero height or width.
- Segmentation.Session.Finalise: it writes the whole crop schedule, crops
  of zero height or width included. In the source the first such crop (a
  band made by a click on pixel row or column 0) makes `cv2.imwrite`
  raise; the loop stops there and later cells are not written.
- Segmentation.Session.WriteRow: a band of zero height raises at its first
  crop in the source; the method writes all of its crops.
- App.OcrApp.RunSegmentation: when the crop loop raises on an empty crop,
  the source's handler ends before `sharpen_segmented_images` and the
  success message. The model (`App.SegmentationSpec`) returns `Segmented`
  with the cells sharpened.
- Segmentation.Session.WaitKey: when the input runs out, the model stops
  where the source would block.
- The credential scan at the top of `segmentation.py`. It only sets an
  environment variable.
- ErrorChecker: `find_outliers` computes a floating-point mean and standard
  deviation. Its result is a parameter `detect`.
- ErrorChecker.IsInvalid: `float()` is modelled as a sign, digits, an
  optional fraction and an optional exponent. `inf`, `nan` as a number,
  underscores and non-ASCII digits are left out.
- ErrorChecker.IsInvalid: a decimal is read as an exact rational, not
  rounded to a double. `"99.0000000000000001"` rounds to 99.0 in the
  source and is valid there, but the model finds it above 99 and invalid.
- ErrorChecker.IsInvalid: the year column is read with `int()`, modelled
  as an optional sign and ASCII digits. Python also accepts digit-group
  underscores and non-ASCII digits, so "1_900" is a valid year in the
  source, while the model finds it invalid.
- ErrorChecker.TypedPosition: `int()` here accepts only an optional sign
  and ASCII digits. Python also accepts digit-group underscores, so "1_0" in
  the search box goes to row 10 in the source, while the model rejects it.
- ErrorChecker: `save_csv` writes to the file named by the last `load_csv`
  call, even one that failed on a missing folder after an earlier
  success. The model records the table saved, not the path.
- Text.Lower: ASCII letters only. `strip()` knows only ASCII whitespace.
- ErrorChecker: the click-to-cell hit test `on_single_click_text` is left
  out. It depends on the widget's character positions.
- ErrorChecker: `get_months`, `update_csv_menu` and `refresh_guide` are left
  out. They only list folders for the drop-downs.
- ErrorChecker: the message boxes are recorded as notices.
- ErrorChecker: `pd.read_csv` reading, and `to_csv` writing, are left out.
  The loaded table is a parameter and saved tables are recorded.
- ManualInput: the command-line check, the prompt window and its modal wait
  are left out. So is the text log beside the entry (`text_display`).
- ManualInput.ManualEntry.Confirm: in the source, the resume path returns
  before `prompt.destroy()`. Closing the prompt is not modelled, so the
  model does not show this.
- ManualInput.ManualEntry.Finish: a `quit()` while the main loop runs ends
  it. The model does not stop the handlers from being called after that.
- ManualInput.ManualEntry.LoadImage: an image `imread` cannot decode shows a
  message in the source; the model shows the path.
- ManualInput: the `sys.exit` when the argument count is wrong is left out.
- ManualInput.ManualEntry.constructor: the collected image list is a parameter. `collect_images` is modelled on its own (`CollectImages`), and the class does not call it.
- Reformat: the outer join `merge(..., on='date', how='outer')` is a
  parameter `merge`. The lemmas assume only that it keeps well-formed dates.
- Reformat: readings are kept as the text they were read as. pandas' number
  parsing of the reading columns, and its float printing in `to_csv`, are
  left out.
- Reformat: `sort_values` is modelled as a stable sort.
- Reformat: reading an empty file is left out.
- Reformat.YearOf: the year is read as an exact rational before
  truncation, not rounded to a double. `"2025.9999999999999999"` becomes
  2026 in the source and is dropped, while the model keeps it as 2025.
- Reformat.YearOf: a year field "inf", "Infinity" or "-inf", in any case,
  is read by pandas as an infinity. It passes `notna`, and then `astype(int)`
  raises, so the source writes nothing. The model reads no number there,
  drops the record and writes the master file.
- Reformat.RunSpec: a type whose every record was filtered out gets a float
  `date` column, and pandas refuses to merge it on `date` with another
  type's text dates. The `merge` parameter does not model that failure.
- App: `sharpen_image` is not modelled. It is the `filter2D` convolution.
  Also left out: `os.makedirs`, the message boxes, the file dialog and
  launching the checker with `subprocess`. The dialog's answer, the
  overwrite answer, the folder listings and which images decode are
  parameters.
- App.OcrApp.RunSegmentation: it takes the folder as the segmentation
  leaves it as a parameter, rather than deriving it from the session's
  writes.
- `ocr_processor.py`, `calc_avg.py`, `calc_avg_temp_error.py` and `test.py`
  are not part of this model.

## Findings

| source | as written | input that shows it | evidently intended | confidence | as-written member | corrected member |
|---|---|---|---|---|---|---|
| manual_input_gui.py:46 | `collect_images` orders the row folders by name, so `row_10` comes before `row_2`. The flat image list then no longer matches the cursor arithmetic `row_idx * cols + col_idx` of `load_image`. | a grid of ten rows of one cell each: the second row of the sheet is shown the cell of `row_10` | the row folders walked by row number, as the files within a row already are | not executed | ManualInput.NameOrderMisplacesRowTwo | ManualInput.RowOrderMatchesSheet |
