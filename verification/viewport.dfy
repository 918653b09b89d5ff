/** The viewport arithmetic of `draw_bf` (main.c:185-189, 208-235, 262-270):
    how wide the program window is, which slice of the program it shows and
    how many bytes are cut off on each side, and which slice of the tape the
    cell row shows. */
module Viewport {

  const MIN_WIDTH: int := 48
  const MIN_HEIGHT: int := 12
  /** Columns one tape cell takes on screen, `[xxx] ` (main.c:188). */
  const CELL_WIDTH: int := 6
  /** Blank columns left of the program window (main.c:189). */
  const PADDING_SIDE: int := 16

  function Min(a: int, b: int): int {
    if a <= b then a else b
  }

  /** Columns the program wants before rounding: the terminal width less the
      padding on both sides, but no more than the program needs. */
  function Room(cols: int, len: nat): int {
    Min(cols - 2 * PADDING_SIDE, len)
  }

  /** `avail` after main.c:208-210: `Room`, raised to `MIN_WIDTH`. */
  function Avail(cols: int, len: nat): (a: int)
    ensures a >= MIN_WIDTH
  {
    if Room(cols, len) < MIN_WIDTH then MIN_WIDTH else Room(cols, len)
  }

  /** `true_avail` (main.c:211-215): the number of program bytes the window
      shows, which is also the width the output box is drawn at. It is one
      less than a multiple of the cell width. */
  function WindowWidth(cols: int, len: nat): (w: nat)
    requires cols >= MIN_WIDTH
    ensures (w + 1) % CELL_WIDTH == 0 && w >= MIN_WIDTH - 1
    ensures Room(cols, len) >= MIN_WIDTH ==> Room(cols, len) - CELL_WIDTH <= w < Room(cols, len)
    ensures Room(cols, len) < MIN_WIDTH ==> w == MIN_WIDTH - 1
  {
    var avail := Avail(cols, len);
    var possibleCells := avail / CELL_WIDTH;
    var missing := avail - possibleCells * CELL_WIDTH;
    avail - missing - 1
  }

  /** `possible_cells` (main.c:211): how many tape cells the cell row shows.
      The row spans exactly one column more than the program window. */
  function CellCount(cols: int, len: nat): (c: nat)
    requires cols >= MIN_WIDTH
    ensures c * CELL_WIDTH == WindowWidth(cols, len) + 1
    ensures c >= MIN_WIDTH / CELL_WIDTH
  {
    Avail(cols, len) / CELL_WIDTH
  }

  /** A slice `[first, first + count)` of a sequence. */
  datatype Window = Window(first: nat, count: nat)

  /** The program window of main.c:222-233 for a window `w` bytes wide. Near
      the start it is anchored at 0, near the end at the last byte, and in
      between `ip` sits `w / 2` bytes from its left edge. It shows at most
      `len - first` bytes, so a program shorter than the window is shown
      whole and never read past its end. */
  function ProgramWindow(len: nat, ip: nat, w: nat): (win: Window)
    requires ip < len && w >= 1
    ensures win.first + win.count <= len
    ensures win.first <= ip < win.first + win.count
    ensures win.count == Min(w, len)
    ensures ip < w / 2 ==> win.first == 0
    ensures w / 2 <= ip && ip + w / 2 >= len ==> win.first + win.count == len
    ensures w / 2 <= ip && ip + w / 2 < len ==> ip - win.first == w / 2
  {
    var half := w / 2;
    var first :=
      if ip < half then 0
      else if ip + half >= len then (if len >= w then len - w else 0)
      else ip - half;
    Window(first, Min(w, len - first))
  }

  /** Program bytes cut off on the left, counted in the `+N` label of
      main.c:238-242. */
  function HiddenBefore(win: Window): nat {
    win.first
  }

  /** Program bytes cut off on the right, counted in the `+N` label of
      main.c:255-257 (no label when 0). */
  function HiddenAfter(len: nat, win: Window): nat
    requires win.first + win.count <= len
  {
    len - win.first - win.count
  }

  /** A program of 100 bytes in a window 20 wide: the window is centred on
      byte 50, anchored at the start for byte 5 and at the end for byte 95. */
  lemma ProgramWindowExamples()
    ensures ProgramWindow(100, 50, 20) == Window(40, 20)
    ensures ProgramWindow(100, 5, 20) == Window(0, 20)
    ensures ProgramWindow(100, 95, 20) == Window(80, 20)
  {
  }

  /** The tape window of main.c:262-270 over a tape of `tapeLen` cells:
      `dp` sits `cells / 2` cells from the left edge unless that would start
      before cell 0. The window is cut short at the end of the tape instead of
      reading past it. */
  function TapeWindow(tapeLen: nat, dp: nat, cells: nat): (win: Window)
    requires dp < tapeLen && cells >= 1
    ensures win.first <= dp < win.first + win.count <= tapeLen
    ensures win.first + cells <= tapeLen ==> win.count == cells
    ensures win.first + cells > tapeLen ==> win.first + win.count == tapeLen
    ensures dp < cells / 2 ==> win.first == 0
    ensures dp >= cells / 2 ==> dp - win.first == cells / 2
  {
    var first := if dp < cells / 2 then 0 else dp - cells / 2;
    Window(first, Min(cells, tapeLen - first))
  }
}
