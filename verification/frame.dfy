/** One frame of the visual mode: what `draw_bf` (main.c:199-322) computes
    before it turns it into escape sequences. The terminal size is a
    parameter; the drawing itself is left to the terminal. */
module Frame {
  import opened Symbols
  import opened Interpreter
  import opened Viewport
  import opened OutputBox

  /** The output log after the frame for the instruction at `m.ip` is drawn
      (main.c:289-290): a `.` about to run has its byte logged already. */
  function LogAppend(log: seq<byte>, prog: seq<byte>, m: Machine): (log': seq<byte>)
    requires m.ip < |prog| && m.dp < |m.tape|
    ensures log <= log' && |log'| <= |log| + 1
  {
    if prog[m.ip] == DOT then log + [m.tape[m.dp]] else log
  }

  /** The log kept by the drawing and the output written by the step that
      follows it agree: a log that held the output before the step holds it
      after the step, so every frame shows exactly the bytes the program has
      written, the one about to be written included. */
  lemma LogTracksOutput(prog: seq<byte>, m: Machine)
    requires m.ip < |prog| && m.dp < |m.tape|
    ensures LogAppend(m.output, prog, m) == Step(prog, m).next.output
  {
  }

  /** Where the visual loop has got to: the run so far and the log. */
  datatype Session = Session(result: StepResult, log: seq<byte>)

  /** The visual loop of main.c:473-477, given at most `fuel` steps: draw the
      frame, which logs the byte of a `.` about to run, then take the step.
      Like `Run`, it stops on the first failing step. The key wait between
      steps is taken to read a stream of its own, so it leaves the program's
      input alone, and the terminal is taken to stay large enough to draw. */
  function VisualRun(prog: seq<byte>, m: Machine, log: seq<byte>, fuel: nat): (s: Session)
    requires m.dp < |m.tape|
    ensures log <= s.log
    decreases fuel
  {
    if m.ip >= |prog| then Session(StepResult(EndOfProgram, m), log)
    else if fuel == 0 then Session(StepResult(Continue, m), log)
    else
      var log' := LogAppend(log, prog, m);
      var r := Step(prog, m);
      if r.status == Continue then VisualRun(prog, r.next, log', fuel - 1) else Session(r, log')
  }

  /** One turn of the visual loop: log, then step, then carry on with the
      rest of the fuel unless the step failed. */
  lemma VisualRunStep(prog: seq<byte>, m: Machine, log: seq<byte>, fuel: nat, rest: nat)
    requires m.dp < |m.tape| && m.ip < |prog| && fuel == rest + 1
    ensures var r := Step(prog, m);
      VisualRun(prog, m, log, fuel) ==
        if r.status == Continue then VisualRun(prog, r.next, LogAppend(log, prog, m), rest)
        else Session(r, LogAppend(log, prog, m))
  {
  }

  /** Drawing changes nothing about the execution: with key presses read
      apart from the program's input, the visual loop ends in the same state
      and status as the batch loop, and a log started from the output so far
      ends up equal to the output. */
  lemma {:induction false} VisualRunMatchesRun(prog: seq<byte>, m: Machine, log: seq<byte>, fuel: nat)
    requires m.dp < |m.tape|
    ensures VisualRun(prog, m, log, fuel).result == Run(prog, m, fuel)
    ensures log == m.output ==> VisualRun(prog, m, log, fuel).log == Run(prog, m, fuel).next.output
    decreases fuel
  {
    if m.ip < |prog| && fuel > 0 {
      var rest := fuel - 1;
      LogTracksOutput(prog, m);
      RunStep(prog, m, fuel, rest);
      VisualRunStep(prog, m, log, fuel, rest);
      var r := Step(prog, m);
      if r.status == Continue {
        VisualRunMatchesRun(prog, r.next, LogAppend(log, prog, m), rest);
      } else {
        assert r.next.output == m.output;
        assert prog[m.ip] != DOT;
      }
    }
  }

  /** Everything one frame shows, by index rather than by glyph position:
      the window width, the program window with the bytes it shows and the
      counts cut off on each side, the tape window with its cells and their
      glyphs, the log, and the lines of the output box. */
  datatype View = View(
    width: nat,
    program: Window,
    programText: seq<byte>,
    hiddenBefore: nat,
    hiddenAfter: nat,
    tape: Window,
    cells: seq<byte>,
    cellGlyphs: seq<char>,
    log: seq<byte>,
    box: seq<seq<char>>)

  /** A frame is refused on a terminal smaller than `MIN_WIDTH` by
      `MIN_HEIGHT` (main.c:203-206, where the program exits). */
  datatype Frame = TooSmall | Drawn(view: View)

  /** `draw_bf` for a terminal of `cols` by `rows`, with the instruction at
      `m.ip` about to run and `log` the bytes logged so far. `draw_bf` is
      only called while `ip` is inside the program (main.c:474). */
  method DrawFrame(cols: int, rows: int, prog: seq<byte>, m: Machine, log: seq<byte>) returns (f: Frame)
    requires m.ip < |prog| && m.dp < |m.tape|
    ensures f.TooSmall? <==> cols < MIN_WIDTH || rows < MIN_HEIGHT
    ensures f.Drawn? ==>
      var v := f.view;
      && v.width == WindowWidth(cols, |prog|)
      && v.width + 1 == CellCount(cols, |prog|) * CELL_WIDTH
      && v.program == ProgramWindow(|prog|, m.ip, v.width)
      && v.program.first <= m.ip < v.program.first + v.program.count <= |prog|
      && v.programText == prog[v.program.first..v.program.first + v.program.count]
      && |v.programText| == Min(v.width, |prog|)
      && v.hiddenBefore == v.program.first
      && v.hiddenAfter == |prog| - (v.program.first + v.program.count)
      && v.hiddenBefore + |v.programText| + v.hiddenAfter == |prog|
      && v.tape == TapeWindow(|m.tape|, m.dp, CellCount(cols, |prog|))
      && v.tape.first <= m.dp < v.tape.first + v.tape.count <= |m.tape|
      && v.cells == m.tape[v.tape.first..v.tape.first + v.tape.count]
      && |v.cellGlyphs| == |v.cells|
      && v.log == LogAppend(log, prog, m)
      && v.box == WrapSpec(v.log, v.width - 3)
      && (forall i :: 0 <= i < |v.box| ==> |v.box[i]| <= v.width - 3)
      && Concat(v.box) == Visible(v.log)
  {
    if cols < MIN_WIDTH || rows < MIN_HEIGHT {
      return TooSmall;
    }
    var width := WindowWidth(cols, |prog|);
    var program := ProgramWindow(|prog|, m.ip, width);
    var programText := prog[program.first..program.first + program.count];
    var tape := TapeWindow(|m.tape|, m.dp, CellCount(cols, |prog|));
    var cells := m.tape[tape.first..tape.first + tape.count];
    var log' := LogAppend(log, prog, m);
    var boxInner := width - 2;
    var box := WrapOutput(log', boxInner);
    assert boxInner - 1 == width - 3;
    f := Drawn(View(width, program, programText, HiddenBefore(program), HiddenAfter(|prog|, program),
                    tape, cells, Render(cells), log', box));
  }
}
