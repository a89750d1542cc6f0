/** The interactive grid segmentation engine (`start_segmentation`).

    The operator's input is one stream of commands: mouse events, which
    OpenCV hands to the `draw_line` callback while `waitKey` is blocked, and
    key presses, which `waitKey` returns. The first half of this module is the
    engine as a transition function over a `State` (the specification); the
    `Session` class is the engine as the source writes it, with the line
    lists, the mode box and the angle box as fields, and its methods are
    proved to follow the transition function.

    The rotation angle is kept as a whole number of quarter-degree steps, and
    the source image as its width and height only: the rotated frame a cell
    is cut from is identified by the angle, and a cell by its rectangle. */
module Segmentation {
  import opened Wrappers
  import opened Text

  // ---------------------------------------------------------------------
  // Commands and state

  /** Key codes that the key loops compare against. */
  const ESC := 27
  const ENTER := 13
  const KEY_L := 108  // ord('l')
  const KEY_R := 114  // ord('r')

  /** The loaded image: `img.shape[1]` and `img.shape[0]`. */
  datatype Frame = Frame(width: nat, height: nat)

  /** `drawing_mode[0]`. */
  datatype Mode = Row | Col | Rotate

  /** Which of the two key loops is running: the row loop or the column loop. */
  datatype Stage = RowStage | ColStage

  function StageMode(stage: Stage): Mode {
    if stage == RowStage then Row else Col
  }

  datatype MouseEvent = LeftDown(x: int, y: int) | RightDown(x: int, y: int) | OtherMouse(x: int, y: int)

  datatype Command = Mouse(ev: MouseEvent) | Key(code: int)

  /** `row_lines` and `col_lines`, in click order. */
  datatype Lines = Lines(rows: seq<int>, cols: seq<int>)

  /** Everything the engine keeps between two commands. `angle` counts
      quarter-degree steps: the source's angle is `angle / 4` degrees. */
  datatype State = State(stage: Stage, mode: Mode, lines: Lines, angle: int)

  const Initial := State(RowStage, Row, Lines([], []), 0)

  /** How a command stream ends: still waiting for a key, cancelled from a
      key loop (`return`), terminated from rotate mode (`exit()`), or
      finalised with the state the grid is built from. */
  datatype Outcome = Waiting(s: State) | Cancelled | Exited | Finalised(s: State)

  datatype StepResult = Next(s: State) | Stop(o: Outcome)

  // ---------------------------------------------------------------------
  // The transition function

  /** `draw_line`: what one mouse event does to the line lists in a mode. */
  function Draw(mode: Mode, lines: Lines, ev: MouseEvent): Lines {
    if mode == Rotate then lines
    else match ev
      case LeftDown(x, y) =>
        if mode == Row then lines.(rows := lines.rows + [y]) else lines.(cols := lines.cols + [x])
      case RightDown(_, _) =>
        if mode == Row && lines.rows != [] then lines.(rows := lines.rows[..|lines.rows| - 1])
        else if mode == Col && lines.cols != [] then lines.(cols := lines.cols[..|lines.cols| - 1])
        else lines
      case OtherMouse(_, _) => lines
  }

  /** A key press: `handle_rotate_mode` in rotate mode, the running key loop
      otherwise. */
  function KeyStep(s: State, k: int): StepResult {
    if s.mode == Rotate then
      if k == ESC then Stop(Exited)
      else if k == ENTER then Next(s.(mode := StageMode(s.stage)))
      else if k == KEY_L then Next(s.(angle := s.angle - 1))
      else if k == KEY_R then Next(s.(angle := s.angle + 1))
      else Next(s)
    else if k == ESC then Stop(Cancelled)
    else if k == KEY_R then Next(s.(mode := Rotate))
    else if s.stage == RowStage then Next(s.(stage := ColStage, mode := Col))
    else Stop(Finalised(s))
  }

  function Step(s: State, c: Command): StepResult {
    match c
    case Mouse(ev) => Next(s.(lines := Draw(s.mode, s.lines, ev)))
    case Key(k) => KeyStep(s, k)
  }

  /** The engine run on a command stream from state `s`. */
  function Run(s: State, cmds: seq<Command>): Outcome
    decreases |cmds|
  {
    if cmds == [] then Waiting(s)
    else match Step(s, cmds[0])
      case Next(s') => Run(s', cmds[1..])
      case Stop(o) => o
  }

  // ---------------------------------------------------------------------
  // Finalisation: boundaries and cells

  ghost predicate StrictlyIncreasing(s: seq<int>) {
    forall i, j | 0 <= i < j < |s| :: s[i] < s[j]
  }

  ghost predicate NonDecreasing(s: seq<int>) {
    forall i, j | 0 <= i < j < |s| :: s[i] <= s[j]
  }

  /** Adds `x` to a strictly increasing sequence, keeping it one. */
  function InsertUnique(x: int, s: seq<int>): (r: seq<int>)
    requires StrictlyIncreasing(s)
    ensures StrictlyIncreasing(r)
    ensures forall v :: v in r <==> v == x || v in s
  {
    if s == [] then [x]
    else if x < s[0] then [x] + s
    else if x == s[0] then s
    else
      IncreasingTail(s);
      var t := InsertUnique(x, s[1..]);
      assert s == [s[0]] + s[1..];
      IncreasingCons(s[0], t);
      [s[0]] + t
  }

  lemma IncreasingTail(s: seq<int>)
    requires s != [] && StrictlyIncreasing(s)
    ensures StrictlyIncreasing(s[1..]) && forall v | v in s[1..] :: s[0] < v
  {
    var t := s[1..];
    forall i, j | 0 <= i < j < |t| ensures t[i] < t[j] {
      assert t[i] == s[i + 1] && t[j] == s[j + 1];
    }
  }

  lemma IncreasingCons(y: int, t: seq<int>)
    requires StrictlyIncreasing(t) && forall v | v in t :: y < v
    ensures StrictlyIncreasing([y] + t)
  {
    var s := [y] + t;
    forall i, j | 0 <= i < j < |s| ensures s[i] < s[j] {
      assert s[j] == t[j - 1] && s[j] in t;
      if i > 0 {
        assert s[i] == t[i - 1];
      }
    }
  }

  /** `sorted(set(xs))`. */
  function SortedSet(xs: seq<int>): (r: seq<int>)
    ensures StrictlyIncreasing(r)
    ensures forall v :: v in r <==> v in xs
  {
    if xs == [] then []
    else
      assert xs == xs[..|xs| - 1] + [xs[|xs| - 1]];
      InsertUnique(xs[|xs| - 1], SortedSet(xs[..|xs| - 1]))
  }

  lemma FirstIsMember(s: seq<int>)
    requires s != []
    ensures s[0] in s
  {
  }

  /** A strictly increasing sequence is determined by its elements, so
      `SortedSet` is the only strictly increasing arrangement of the clicks. */
  lemma {:induction false} StrictlyIncreasingUnique(a: seq<int>, b: seq<int>)
    requires StrictlyIncreasing(a) && StrictlyIncreasing(b)
    requires forall v :: v in a <==> v in b
    ensures a == b
  {
    if a == [] {
      if b != [] {
        FirstIsMember(b);
        assert false;
      }
    } else {
      assert a[0] in a && a[0] in b;
      assert b != [] && b[0] in a;
      assert a[0] == b[0];
      forall v ensures v in a[1..] <==> v in b[1..] {
        if v in a[1..] {
          var k :| 0 < k < |a| && a[k] == v;
          assert v in b && v != b[0];
        }
        if v in b[1..] {
          var k :| 0 < k < |b| && b[k] == v;
          assert v in a && v != a[0];
        }
      }
      StrictlyIncreasingUnique(a[1..], b[1..]);
      assert a == [a[0]] + a[1..] && b == [b[0]] + b[1..];
    }
  }

  /** The finalised boundaries of one axis: the distinct clicks in ascending
      order with 0 in front and the frame's extent behind. */
  function Boundaries(clicks: seq<int>, extent: nat): seq<int> {
    [0] + SortedSet(clicks) + [extent]
  }

  /** The shape of the boundary list: border, ascending distinct clicks,
      border. */
  lemma BoundariesShape(clicks: seq<int>, extent: nat)
    ensures var b := Boundaries(clicks, extent);
      && |b| == |SortedSet(clicks)| + 2 && b[0] == 0 && b[|b| - 1] == extent
      && StrictlyIncreasing(b[1..|b| - 1])
      && (forall v :: v in b[1..|b| - 1] <==> v in clicks)
  {
    var b := Boundaries(clicks, extent);
    assert b[1..|b| - 1] == SortedSet(clicks);
  }

  /** With every click strictly inside the frame, the boundaries are strictly
      increasing, so no cell is empty; with clicks on or inside the border
      they are still ascending. */
  lemma FramedAscending(lo: int, m: seq<int>, hi: int)
    requires StrictlyIncreasing(m) && lo <= hi
    requires forall k | 0 <= k < |m| :: lo <= m[k] <= hi
    ensures NonDecreasing([lo] + m + [hi])
  {
    var b := [lo] + m + [hi];
    forall i, j | 0 <= i < j < |b| ensures b[i] <= b[j] {
      if 0 < i {
        assert b[i] == m[i - 1];
      }
      if j < |b| - 1 {
        assert b[j] == m[j - 1];
      }
    }
  }

  lemma FramedStrictlyAscending(lo: int, m: seq<int>, hi: int)
    requires StrictlyIncreasing(m) && lo < hi
    requires forall k | 0 <= k < |m| :: lo < m[k] < hi
    ensures StrictlyIncreasing([lo] + m + [hi])
  {
    var b := [lo] + m + [hi];
    forall i, j | 0 <= i < j < |b| ensures b[i] < b[j] {
      if 0 < i {
        assert b[i] == m[i - 1];
      }
      if j < |b| - 1 {
        assert b[j] == m[j - 1];
      }
    }
  }

  /** With every click on or inside the frame the boundaries ascend; with
      every click strictly inside they strictly ascend, so no cell is empty. */
  lemma BoundariesOrdered(clicks: seq<int>, extent: nat)
    requires forall i | 0 <= i < |clicks| :: 0 <= clicks[i] <= extent
    ensures NonDecreasing(Boundaries(clicks, extent))
    ensures (forall i | 0 <= i < |clicks| :: 0 < clicks[i] < extent) && extent > 0
      ==> StrictlyIncreasing(Boundaries(clicks, extent))
  {
    var m := SortedSet(clicks);
    assert forall k | 0 <= k < |m| :: m[k] in clicks;
    FramedAscending(0, m, extent);
    if (forall i | 0 <= i < |clicks| :: 0 < clicks[i] < extent) && extent > 0 {
      FramedStrictlyAscending(0, m, extent);
    }
  }

  /** A click on the border is not merged with the implicit border line:
      the first band has zero height, so its crops are empty images, on
      which `cv2.imwrite` raises in the source. */
  lemma BorderClickGivesEmptyBand(clicks: seq<int>, extent: nat)
    requires 0 in clicks
    requires forall i | 0 <= i < |clicks| :: 0 <= clicks[i]
    ensures var b := Boundaries(clicks, extent); |b| >= 3 && b[0] == b[1] == 0
  {
    var m := SortedSet(clicks);
    assert 0 in m;
    assert m[0] in clicks;
  }

  /** `rotated_img[top:bottom, left:right]`. */
  datatype Rect = Rect(top: int, bottom: int, left: int, right: int)

  /** One `cv2.imwrite` of the crop loop: the crop `rect` of the frame rotated
      by `angle` quarter degrees, written to `row_<row>/col_<col>.png`. */
  datatype CellWrite = CellWrite(row: nat, col: nat, angle: int, rect: Rect)

  /** The relative path a cell is written to. */
  function CellPath(w: CellWrite): string {
    "row_" + NatToString(w.row) + "/col_" + NatToString(w.col) + ".png"
  }

  /** The writes of row band `i` (0-based), left to right. */
  function RowWrites(rb: seq<int>, cb: seq<int>, angle: int, i: nat): seq<CellWrite>
    requires i + 1 < |rb| && |cb| >= 1
  {
    seq(|cb| - 1, j requires 0 <= j < |cb| - 1 =>
      CellWrite(i + 1, j + 1, angle, Rect(rb[i], rb[i + 1], cb[j], cb[j + 1])))
  }

  /** The writes of the first `n` row bands, in loop order. */
  function Schedule(rb: seq<int>, cb: seq<int>, angle: int, n: nat): seq<CellWrite>
    requires n < |rb| && |cb| >= 1
  {
    if n == 0 then [] else Schedule(rb, cb, angle, n - 1) + RowWrites(rb, cb, angle, n - 1)
  }

  /** The writes of the whole crop loop. */
  function CropSchedule(rb: seq<int>, cb: seq<int>, angle: int): seq<CellWrite>
    requires |rb| >= 1 && |cb| >= 1
  {
    Schedule(rb, cb, angle, |rb| - 1)
  }

  lemma {:induction false} ScheduleAt(rb: seq<int>, cb: seq<int>, angle: int, n: nat, i: nat, j: nat)
    requires n < |rb| && |cb| >= 1
    requires i < n && j < |cb| - 1
    ensures |Schedule(rb, cb, angle, n)| == n * (|cb| - 1)
    ensures i * (|cb| - 1) + j < n * (|cb| - 1)
    ensures Schedule(rb, cb, angle, n)[i * (|cb| - 1) + j]
         == CellWrite(i + 1, j + 1, angle, Rect(rb[i], rb[i + 1], cb[j], cb[j + 1]))
  {
    var w := |cb| - 1;
    ScheduleLength(rb, cb, angle, n - 1);
    assert |Schedule(rb, cb, angle, n)| == n * w by {
      assert (n - 1) * w + w == n * w;
    }
    if i < n - 1 {
      ScheduleAt(rb, cb, angle, n - 1, i, j);
    } else {
      assert i * w + j == (n - 1) * w + j;
    }
    assert i * w + j < n * w by {
      assert i * w <= (n - 1) * w;
      assert (n - 1) * w + w == n * w;
    }
  }

  lemma {:induction false} ScheduleLength(rb: seq<int>, cb: seq<int>, angle: int, n: nat)
    requires n < |rb| && |cb| >= 1
    ensures |Schedule(rb, cb, angle, n)| == n * (|cb| - 1)
  {
    if n > 0 {
      ScheduleLength(rb, cb, angle, n - 1);
      assert (n - 1) * (|cb| - 1) + (|cb| - 1) == n * (|cb| - 1);
    }
  }

  /** The crop loop writes (rows − 1) × (columns − 1) cells, and the one at
      row-major position i·(columns − 1) + j is the rectangle between
      boundaries i, i+1 and j, j+1, written to `row_<i+1>/col_<j+1>.png`. */
  lemma CropScheduleCell(rb: seq<int>, cb: seq<int>, angle: int, i: nat, j: nat)
    requires i < |rb| - 1 && j < |cb| - 1
    ensures |CropSchedule(rb, cb, angle)| == (|rb| - 1) * (|cb| - 1)
    ensures i * (|cb| - 1) + j < |CropSchedule(rb, cb, angle)|
    ensures CropSchedule(rb, cb, angle)[i * (|cb| - 1) + j]
         == CellWrite(i + 1, j + 1, angle, Rect(rb[i], rb[i + 1], cb[j], cb[j + 1]))
  {
    ScheduleAt(rb, cb, angle, |rb| - 1, i, j);
  }

  /** Every written cell is one of the grid's cells. */
  lemma {:induction false} ScheduleMembers(rb: seq<int>, cb: seq<int>, angle: int, n: nat, w: CellWrite)
    requires n < |rb| && |cb| >= 1
    requires w in Schedule(rb, cb, angle, n)
    ensures 1 <= w.row <= n && 1 <= w.col < |cb| && w.angle == angle
    ensures w.rect == Rect(rb[w.row - 1], rb[w.row], cb[w.col - 1], cb[w.col])
  {
    if w !in Schedule(rb, cb, angle, n - 1) {
      var row := RowWrites(rb, cb, angle, n - 1);
      assert w in row;
      var j :| 0 <= j < |row| && row[j] == w;
    } else {
      ScheduleMembers(rb, cb, angle, n - 1, w);
    }
  }

  /** When the boundaries ascend, every pixel of the frame lies in exactly
      one row band: the cells tile the frame. */
  lemma BandOfPixel(b: seq<int>, y: int) returns (i: nat)
    requires |b| >= 2 && NonDecreasing(b)
    requires b[0] <= y < b[|b| - 1]
    ensures i + 1 < |b| && b[i] <= y < b[i + 1]
    ensures forall k | 0 <= k < |b| - 1 && b[k] <= y < b[k + 1] :: k == i
  {
    i := 0;
    while b[i + 1] <= y
      invariant 0 <= i < |b| - 1 && b[i] <= y
      decreases |b| - i
    {
      i := i + 1;
    }
  }

  /** The writes a finalised state produces on a frame. */
  function GridWrites(f: Frame, s: State): seq<CellWrite> {
    CropSchedule(Boundaries(s.lines.rows, f.height), Boundaries(s.lines.cols, f.width), s.angle)
  }

  /** What a whole session leaves behind: nothing when the image does not
      load; otherwise how the command stream ended and the cells written. */
  datatype Report = NotLoaded | Report(outcome: Outcome, files: seq<CellWrite>)

  function Segment(image: Option<Frame>, input: seq<Command>): Report {
    match image
    case None => NotLoaded
    case Some(f) =>
      var o := Run(Initial, input);
      Report(o, if o.Finalised? then GridWrites(f, o.s) else [])
  }

  // ---------------------------------------------------------------------
  // Properties of the transition function

  /** A right click undoes the left click just made in a drawing mode. */
  lemma UndoClick(mode: Mode, lines: Lines, x: int, y: int, x': int, y': int)
    requires mode != Rotate
    ensures Draw(mode, Draw(mode, lines, LeftDown(x, y)), RightDown(x', y')) == lines
  {
    var l := Draw(mode, lines, LeftDown(x, y));
    if mode == Row {
      assert l.rows[..|l.rows| - 1] == lines.rows;
    } else {
      assert l.cols[..|l.cols| - 1] == lines.cols;
    }
  }

  /** Left clicks at the points `ps`, in order. */
  function LeftClicks(ps: seq<(int, int)>): seq<Command> {
    seq(|ps|, i requires 0 <= i < |ps| => Mouse(LeftDown(ps[i].0, ps[i].1)))
  }

  /** Right clicks at the points `ps`, in order. */
  function RightClicks(ps: seq<(int, int)>): seq<Command> {
    seq(|ps|, i requires 0 <= i < |ps| => Mouse(RightDown(ps[i].0, ps[i].1)))
  }

  /** The coordinate a click records in a drawing mode: y for a row line,
      x for a column line. */
  function Coords(mode: Mode, ps: seq<(int, int)>): (zs: seq<int>)
    ensures |zs| == |ps|
  {
    seq(|ps|, i requires 0 <= i < |ps| => if mode == Row then ps[i].1 else ps[i].0)
  }

  /** The line list a drawing mode edits. */
  function Current(mode: Mode, lines: Lines): seq<int> {
    if mode == Row then lines.rows else lines.cols
  }

  /** `lines` with the list of drawing mode `mode` replaced by `zs`. */
  function WithCurrent(mode: Mode, lines: Lines, zs: seq<int>): Lines {
    if mode == Row then lines.(rows := zs) else lines.(cols := zs)
  }

  /** In either drawing mode, left clicks append their coordinates to that
      mode's list in click order, and leave the other list alone. */
  lemma {:induction false} LeftClicksAppend(s: State, ps: seq<(int, int)>, rest: seq<Command>)
    requires s.mode == Row || s.mode == Col
    decreases |ps|
    ensures Run(s, LeftClicks(ps) + rest)
         == Run(s.(lines := WithCurrent(s.mode, s.lines, Current(s.mode, s.lines) + Coords(s.mode, ps))), rest)
  {
    var cur := Current(s.mode, s.lines);
    if ps == [] {
      assert LeftClicks(ps) + rest == rest;
      assert cur + Coords(s.mode, ps) == cur;
    } else {
      var cmds := LeftClicks(ps) + rest;
      var z := Coords(s.mode, ps)[0];
      var s' := s.(lines := WithCurrent(s.mode, s.lines, cur + [z]));
      assert cmds[0] == Mouse(LeftDown(ps[0].0, ps[0].1));
      assert Step(s, cmds[0]) == Next(s');
      assert cmds[1..] == LeftClicks(ps[1..]) + rest;
      LeftClicksAppend(s', ps[1..], rest);
      assert Coords(s.mode, ps) == [z] + Coords(s.mode, ps[1..]);
      assert cur + [z] + Coords(s.mode, ps[1..]) == cur + Coords(s.mode, ps);
    }
  }

  /** A right click on an empty line list changes nothing: the guard of
      lines 49-52 skips the pop. */
  lemma RightClickOnEmpty(mode: Mode, lines: Lines, x: int, y: int)
    requires mode == Row || mode == Col
    requires Current(mode, lines) == []
    ensures Draw(mode, lines, RightDown(x, y)) == lines
  {
  }

  /** In either drawing mode, m right clicks remove that mode's m most
      recent lines; once the list is empty, further right clicks change
      nothing. */
  lemma {:induction false} RightClicksPop(s: State, ps: seq<(int, int)>, rest: seq<Command>)
    requires s.mode == Row || s.mode == Col
    decreases |ps|
    ensures var cur := Current(s.mode, s.lines);
      var left := if |ps| <= |cur| then |cur| - |ps| else 0;
      Run(s, RightClicks(ps) + rest)
         == Run(s.(lines := WithCurrent(s.mode, s.lines, cur[..left])), rest)
  {
    var cur := Current(s.mode, s.lines);
    if ps == [] {
      assert RightClicks(ps) + rest == rest;
      assert cur[..|cur|] == cur;
      assert WithCurrent(s.mode, s.lines, cur) == s.lines;
    } else {
      var cmds := RightClicks(ps) + rest;
      assert cmds[0] == Mouse(RightDown(ps[0].0, ps[0].1));
      assert cmds[1..] == RightClicks(ps[1..]) + rest;
      if cur == [] {
        RightClickOnEmpty(s.mode, s.lines, ps[0].0, ps[0].1);
        assert Step(s, cmds[0]) == Next(s);
        RightClicksPop(s, ps[1..], rest);
        assert WithCurrent(s.mode, s.lines, cur[..0]) == s.lines;
      } else {
        var s' := s.(lines := WithCurrent(s.mode, s.lines, cur[..|cur| - 1]));
        assert Step(s, cmds[0]) == Next(s');
        RightClicksPop(s', ps[1..], rest);
        if |ps| <= |cur| {
          assert cur[..|cur| - 1][..|cur| - 1 - |ps[1..]|] == cur[..|cur| - |ps|];
        } else {
          assert cur[..|cur| - 1][..0] == cur[..0];
        }
      }
    }
  }

  /** In either drawing mode, N clicks followed by M ≤ N undos leave the
      first N − M clicked coordinates, in click order. */
  lemma ClicksThenUndos(s: State, ps: seq<(int, int)>, undos: seq<(int, int)>)
    requires (s.mode == Row || s.mode == Col) && |undos| <= |ps|
    ensures var zs := Coords(s.mode, ps);
      Run(s, LeftClicks(ps) + RightClicks(undos))
         == Waiting(s.(lines := WithCurrent(s.mode, s.lines, Current(s.mode, s.lines) + zs[..|zs| - |undos|])))
  {
    var cur := Current(s.mode, s.lines);
    var zs := Coords(s.mode, ps);
    var t := s.(lines := WithCurrent(s.mode, s.lines, cur + zs));
    LeftClicksAppend(s, ps, RightClicks(undos));
    assert Current(t.mode, t.lines) == cur + zs;
    RightClicksPop(t, undos, []);
    assert RightClicks(undos) + [] == RightClicks(undos);
    assert (cur + zs)[..|cur + zs| - |undos|] == cur + zs[..|zs| - |undos|];
  }

  /** Rotation keys net out: in rotate mode, a stretch of commands without
      ESC or Enter changes only the angle, by the number of `r` presses minus
      the number of `l` presses, whatever their order. */
  lemma {:induction false} RotateKeys(s: State, cmds: seq<Command>, rest: seq<Command>)
    requires s.mode == Rotate
    requires forall i | 0 <= i < |cmds| :: cmds[i] != Key(ESC) && cmds[i] != Key(ENTER)
    decreases |cmds|
    ensures Run(s, cmds + rest)
         == Run(s.(angle := s.angle + multiset(cmds)[Key(KEY_R)] - multiset(cmds)[Key(KEY_L)]), rest)
  {
    if cmds == [] {
      assert cmds + rest == rest;
    } else {
      var c, tail := cmds[0], cmds[1..];
      assert (cmds + rest)[0] == c && (cmds + rest)[1..] == tail + rest;
      assert cmds == [c] + tail;
      assert multiset(cmds) == multiset{c} + multiset(tail);
      var turns := multiset(tail)[Key(KEY_R)] as int - multiset(tail)[Key(KEY_L)] as int;
      match c
      case Mouse(ev) =>
        assert Step(s, c) == Next(s);
        RotateKeys(s, tail, rest);
        assert multiset(cmds)[Key(KEY_R)] as int - multiset(cmds)[Key(KEY_L)] as int == turns;
      case Key(k) =>
        var s' := if k == KEY_L then s.(angle := s.angle - 1)
                  else if k == KEY_R then s.(angle := s.angle + 1) else s;
        assert Step(s, c) == Next(s');
        assert Run(s, cmds + rest) == Run(s', tail + rest);
        RotateKeys(s', tail, rest);
        assert s'.angle + turns == s.angle + multiset(cmds)[Key(KEY_R)] - multiset(cmds)[Key(KEY_L)];
    }
  }

  /** A rotate excursion from a drawing mode (`r`, rotation keys, Enter)
      returns to the mode it left, with both line lists untouched and only the
      angle changed. */
  lemma RotateExcursion(s: State, cmds: seq<Command>, rest: seq<Command>)
    requires s.mode == StageMode(s.stage)
    requires forall i | 0 <= i < |cmds| :: cmds[i] != Key(ESC) && cmds[i] != Key(ENTER)
    ensures Run(s, [Key(KEY_R)] + cmds + [Key(ENTER)] + rest)
         == Run(s.(angle := s.angle + multiset(cmds)[Key(KEY_R)] - multiset(cmds)[Key(KEY_L)]), rest)
  {
    var all := [Key(KEY_R)] + cmds + [Key(ENTER)] + rest;
    var r := s.(mode := Rotate);
    assert all[0] == Key(KEY_R) && all[1..] == cmds + ([Key(ENTER)] + rest);
    RotateKeys(r, cmds, [Key(ENTER)] + rest);
    var t := r.(angle := r.angle + multiset(cmds)[Key(KEY_R)] - multiset(cmds)[Key(KEY_L)]);
    assert ([Key(ENTER)] + rest)[1..] == rest;
    assert Run(t, [Key(ENTER)] + rest) == Run(t.(mode := StageMode(s.stage)), rest);
  }

  /** Cancellation writes nothing: unless the stream reaches finalisation, no
      cell file is produced. */
  lemma OnlyFinalisationWrites(image: Option<Frame>, input: seq<Command>)
    ensures Segment(image, input).Report? && Segment(image, input).files != []
      ==> Run(Initial, input).Finalised?
  {
  }

  const ExampleInput := [Mouse(LeftDown(10, 200)), Mouse(LeftDown(10, 400)), Key(32),
                          Mouse(LeftDown(300, 10)), Key(32)]

  lemma ExampleRun()
    ensures Run(Initial, ExampleInput) == Finalised(State(ColStage, Col, Lines([200, 400], [300]), 0))
  {
    var input := ExampleInput;
    var s2 := State(RowStage, Row, Lines([200, 400], []), 0);
    var s3 := State(ColStage, Col, Lines([200, 400], []), 0);
    var s4 := State(ColStage, Col, Lines([200, 400], [300]), 0);
    assert Run(s3, input[3..]) == Finalised(s4) by {
      assert input[3..][1..] == [Key(32)];
    }
    assert Run(s2, input[2..]) == Run(s3, input[3..]) by {
      assert input[2..][1..] == input[3..];
    }
    assert Run(Initial, input) == Run(s2, input[2..]) by {
      assert input[1..][1..] == input[2..];
    }
  }

  lemma ExampleBoundaries()
    ensures Boundaries([200, 400], 600) == [0, 200, 400, 600]
    ensures Boundaries([300], 800) == [0, 300, 800]
  {
    assert SortedSet([200]) == [200] by { assert [200][..0] == []; }
    assert SortedSet([200, 400]) == [200, 400] by { assert [200, 400][..1] == [200]; }
    assert SortedSet([300]) == [300] by { assert [300][..0] == []; }
  }

  lemma ExampleCells()
    ensures CropSchedule([0, 200, 400, 600], [0, 300, 800], 0)
         == [CellWrite(1, 1, 0, Rect(0, 200, 0, 300)), CellWrite(1, 2, 0, Rect(0, 200, 300, 800)),
             CellWrite(2, 1, 0, Rect(200, 400, 0, 300)), CellWrite(2, 2, 0, Rect(200, 400, 300, 800)),
             CellWrite(3, 1, 0, Rect(400, 600, 0, 300)), CellWrite(3, 2, 0, Rect(400, 600, 300, 800))]
  {
    var rb, cb := [0, 200, 400, 600], [0, 300, 800];
    assert RowWrites(rb, cb, 0, 0) == [CellWrite(1, 1, 0, Rect(0, 200, 0, 300)), CellWrite(1, 2, 0, Rect(0, 200, 300, 800))];
    assert RowWrites(rb, cb, 0, 1) == [CellWrite(2, 1, 0, Rect(200, 400, 0, 300)), CellWrite(2, 2, 0, Rect(200, 400, 300, 800))];
    assert RowWrites(rb, cb, 0, 2) == [CellWrite(3, 1, 0, Rect(400, 600, 0, 300)), CellWrite(3, 2, 0, Rect(400, 600, 300, 800))];
    assert Schedule(rb, cb, 0, 1) == RowWrites(rb, cb, 0, 0);
  }

  /** The worked example of an 800×600 image with rows clicked at 200 and
      400, a column at 300, and two advancing keys: six cells, row by row. */
  lemma Example800x600()
    ensures Segment(Some(Frame(800, 600)), ExampleInput)
         == Report(Finalised(State(ColStage, Col, Lines([200, 400], [300]), 0)),
                   [CellWrite(1, 1, 0, Rect(0, 200, 0, 300)), CellWrite(1, 2, 0, Rect(0, 200, 300, 800)),
                    CellWrite(2, 1, 0, Rect(200, 400, 0, 300)), CellWrite(2, 2, 0, Rect(200, 400, 300, 800)),
                    CellWrite(3, 1, 0, Rect(400, 600, 0, 300)), CellWrite(3, 2, 0, Rect(400, 600, 300, 800))])
  {
    ExampleRun();
    ExampleBoundaries();
    ExampleCells();
  }

  /** Cancelling with ESC before the first advancing key ends the session
      with nothing written, on any image and whatever rows were clicked. */
  lemma CancelBeforeAdvance(f: Frame, ps: seq<(int, int)>)
    ensures Segment(Some(f), LeftClicks(ps) + [Key(ESC)]) == Report(Cancelled, [])
  {
    LeftClicksAppend(Initial, ps, [Key(ESC)]);
  }

  // ---------------------------------------------------------------------
  // The session as the source runs it

  /** How one of the two key loops (lines 86-101 and 108-123) ends: by an
      advancing key, or with an outcome for the whole session. */
  datatype LoopExit = Advanced | Ended(outcome: Outcome)

  /** What the rest of the stream does after an advancing key in a key loop. */
  function AfterAdvance(s: State, rest: seq<Command>): Outcome {
    if s.stage == RowStage then Run(s.(stage := ColStage, mode := Col), rest) else Finalised(s)
  }

  class Session {
    const frame: Frame
    var rowLines: seq<int>
    var colLines: seq<int>
    var drawingMode: Mode
    /** `rotation_angle[0]`, in quarter-degree steps. */
    var rotation: int
    /** Operator input not yet delivered. */
    var events: seq<Command>
    /** The `cv2.imwrite` calls made so far, in order. */
    var written: seq<CellWrite>

    /** The transition function's view of the session while key loop `stage`
        runs. */
    function Abs(stage: Stage): State
      reads this
    {
      State(stage, drawingMode, Lines(rowLines, colLines), rotation)
    }

    constructor (frame: Frame, input: seq<Command>)
      ensures this.frame == frame && events == input && written == []
      ensures Abs(RowStage) == Initial
    {
      this.frame := frame;
      rowLines, colLines := [], [];
      drawingMode := Row;
      rotation := 0;
      events := input;
      written := [];
    }

    /** `draw_line`: the mouse callback. */
    method DrawLine(ev: MouseEvent)
      modifies this
      ensures Lines(rowLines, colLines) == Draw(drawingMode, old(Lines(rowLines, colLines)), ev)
      ensures drawingMode == old(drawingMode) && rotation == old(rotation)
      ensures events == old(events) && written == old(written)
    {
      if drawingMode == Row || drawingMode == Col {
        match ev {
          case LeftDown(x, y) =>
            if drawingMode == Row {
              rowLines := rowLines + [y];
            } else if drawingMode == Col {
              colLines := colLines + [x];
            }
          case RightDown(_, _) =>
            if drawingMode == Row && rowLines != [] {
              rowLines := rowLines[..|rowLines| - 1];
            } else if drawingMode == Col && colLines != [] {
              colLines := colLines[..|colLines| - 1];
            }
          case OtherMouse(_, _) =>
        }
      }
    }

    /** `cv2.waitKey(0)`: delivers mouse events to `draw_line` until a key
        arrives, and returns it; `None` when the input runs out (the source
        would block). */
    method WaitKey(ghost stage: Stage) returns (key: Option<int>)
      modifies this
      ensures drawingMode == old(drawingMode) && rotation == old(rotation) && written == old(written)
      ensures drawingMode == Rotate ==> rowLines == old(rowLines) && colLines == old(colLines)
      ensures key.None? ==> events == [] && Run(old(Abs(stage)), old(events)) == Waiting(Abs(stage))
      ensures key.Some? ==> |events| < old(|events|)
      ensures key.Some? ==> Run(old(Abs(stage)), old(events)) == Run(Abs(stage), [Key(key.value)] + events)
    {
      while events != [] && events[0].Mouse?
        invariant drawingMode == old(drawingMode) && rotation == old(rotation) && written == old(written)
        invariant drawingMode == Rotate ==> rowLines == old(rowLines) && colLines == old(colLines)
        invariant |events| <= old(|events|)
        invariant Run(old(Abs(stage)), old(events)) == Run(Abs(stage), events)
        decreases |events|
      {
        var ev := events[0].ev;
        events := events[1..];
        DrawLine(ev);
      }
      if events == [] {
        key := None;
      } else {
        key := Some(events[0].code);
        assert events == [Key(key.value)] + events[1..];
        events := events[1..];
      }
    }

    /** `handle_rotate_mode`: `l` and `r` turn by a quarter degree, Enter
        returns, ESC terminates the program. */
    method HandleRotateMode(ghost stage: Stage) returns (exited: bool, blocked: bool)
      requires drawingMode == Rotate
      modifies this
      ensures drawingMode == Rotate && written == old(written)
      ensures rowLines == old(rowLines) && colLines == old(colLines)
      ensures |events| <= old(|events|)
      ensures exited ==> !blocked && Run(old(Abs(stage)), old(events)) == Exited
      ensures blocked ==> !exited && Run(old(Abs(stage)), old(events)) == Waiting(Abs(stage))
      ensures !exited && !blocked ==>
        Run(old(Abs(stage)), old(events)) == Run(Abs(stage).(mode := StageMode(stage)), events)
    {
      exited, blocked := false, false;
      while true
        invariant drawingMode == Rotate && written == old(written)
        invariant rowLines == old(rowLines) && colLines == old(colLines)
        invariant |events| <= old(|events|)
        invariant Run(old(Abs(stage)), old(events)) == Run(Abs(stage), events)
        decreases |events|
      {
        var key := WaitKey(stage);
        if key.None? {
          blocked := true;
          return;
        }
        var k := key.value;
        if k == ESC {
          exited := true;
          return;
        } else if k == ENTER {
          return;
        } else if k == KEY_L {
          rotation := rotation - 1;
        } else if k == KEY_R {
          rotation := rotation + 1;
        }
      }
    }

    /** One key loop (the row loop at lines 86-101, the column loop at
        108-123): ESC cancels, `r` enters rotate mode and comes back, any
        other key advances. */
    method KeyLoop(stage: Stage) returns (exit: LoopExit)
      requires drawingMode == StageMode(stage)
      modifies this
      ensures written == old(written)
      ensures exit.Advanced? ==> drawingMode == StageMode(stage)
      ensures exit.Advanced? ==> Run(old(Abs(stage)), old(events)) == AfterAdvance(Abs(stage), events)
      ensures exit.Ended? ==> Run(old(Abs(stage)), old(events)) == exit.outcome
      ensures exit.Ended? ==> !exit.outcome.Finalised?
    {
      while true
        invariant drawingMode == StageMode(stage) && written == old(written)
        invariant Run(old(Abs(stage)), old(events)) == Run(Abs(stage), events)
        decreases |events|
      {
        var key := WaitKey(stage);
        if key.None? {
          return Ended(Waiting(Abs(stage)));
        }
        var k := key.value;
        if k == ESC {
          return Ended(Cancelled);
        } else if k == KEY_R {
          drawingMode := Rotate;
          var exited, blocked := HandleRotateMode(stage);
          if exited {
            return Ended(Exited);
          }
          if blocked {
            return Ended(Waiting(Abs(stage)));
          }
          drawingMode := StageMode(stage);
        } else {
          return Advanced;
        }
      }
    }

    /** Lines 127-144: normalise both line lists into boundaries, then write
        one crop per cell, row band by row band. */
    method Finalise()
      modifies this
      ensures rowLines == Boundaries(old(rowLines), frame.height)
      ensures colLines == Boundaries(old(colLines), frame.width)
      ensures written == old(written) + CropSchedule(rowLines, colLines, rotation)
      ensures drawingMode == old(drawingMode) && rotation == old(rotation) && events == old(events)
    {
      var rb := MakeBoundaries(rowLines, frame.height);
      var cb := MakeBoundaries(colLines, frame.width);
      rowLines, colLines := rb, cb;

      var i := 0;
      while i < |rb| - 1
        invariant 0 <= i <= |rb| - 1
        invariant rowLines == rb && colLines == cb
        invariant drawingMode == old(drawingMode) && rotation == old(rotation) && events == old(events)
        invariant written == old(written) + Schedule(rb, cb, rotation, i)
      {
        WriteRow(rb, cb, i);
        i := i + 1;
      }
    }

    /** Lines 127-132 for one direction: `sorted(set(lines))`, then 0
        inserted in front and the image's extent appended. */
    static method MakeBoundaries(lines: seq<int>, extent: nat) returns (b: seq<int>)
      ensures b == Boundaries(lines, extent)
    {
      b := SortedSet(lines);
      b := [0] + b;
      b := b + [extent];
    }

    /** Lines 141-144: the crops of row band `i`, column by column. */
    method WriteRow(rb: seq<int>, cb: seq<int>, i: nat)
      requires i + 1 < |rb| && |cb| >= 1
      modifies this
      ensures written == old(written) + RowWrites(rb, cb, rotation, i)
      ensures rowLines == old(rowLines) && colLines == old(colLines)
      ensures drawingMode == old(drawingMode) && rotation == old(rotation) && events == old(events)
    {
      var j := 0;
      while j < |cb| - 1
        invariant 0 <= j <= |cb| - 1
        invariant rowLines == old(rowLines) && colLines == old(colLines)
        invariant drawingMode == old(drawingMode) && rotation == old(rotation) && events == old(events)
        invariant written == old(written) + RowWrites(rb, cb, rotation, i)[..j]
      {
        var crop := Rect(rb[i], rb[i + 1], cb[j], cb[j + 1]);
        written := written + [CellWrite(i + 1, j + 1, rotation, crop)];
        j := j + 1;
      }
      assert RowWrites(rb, cb, rotation, i)[..j] == RowWrites(rb, cb, rotation, i);
    }

    /** Lines 77-146 of `start_segmentation`, after the image has loaded. */
    method Start() returns (outcome: Outcome)
      requires Abs(RowStage) == Initial
      modifies this
      ensures outcome == Run(Initial, old(events))
      ensures written == old(written) + (if outcome.Finalised? then GridWrites(frame, outcome.s) else [])
    {
      drawingMode := Row;
      var exit := KeyLoop(RowStage);
      if exit.Ended? {
        return exit.outcome;
      }
      drawingMode := Col;
      exit := KeyLoop(ColStage);
      if exit.Ended? {
        return exit.outcome;
      }
      outcome := Finalised(Abs(ColStage));
      Finalise();
    }
  }

  /** `start_segmentation`: an image that does not load ends the call with
      nothing written; otherwise a session runs on the operator's input. */
  method StartSegmentation(image: Option<Frame>, input: seq<Command>) returns (report: Report)
    ensures report == Segment(image, input)
  {
    if image.None? {
      return NotLoaded;
    }
    var session := new Session(image.value, input);
    var outcome := session.Start();
    report := Report(outcome, session.written);
  }
}
