# bfi: a Brainfuck interpreter with a terminal visualiser, modelled in Dafny

The interpreter runs a program of bytes over a tape of 30000 unsigned
8-bit cells, one instruction per call of `execute_step`. It has two modes.
In batch mode, `main` calls the step until the instruction pointer leaves the
program. In visual mode, every step is preceded by a full redraw by
`draw_bf`. That redraw shows:

- a window onto the program, with the bytes cut off on either side counted;
- a window onto the tape;
- a box with every byte written so far, wrapped at the box width.

This project models both halves as pure functions over immutable data and
proves what they promise.

- `Symbols` (symbols.dfy): bytes as a `newtype` over `int`, the eight
  instruction symbols, and `+`/`-` on a `u8` cell with the wrap-around written
  out (`% 256`).
- `Brackets` (brackets.dfy): the loop resolver. It holds the forward and
  backward nesting-counter scans as `execute_step` runs them, except that the
  backward scan gives up where the source would step below index 0 (see the
  choices below and Findings). Next to
  them is a counter-free reference definition of a matching pair of brackets,
  using `Depth`, the number of `[` minus the number of `]` in a slice. It
  proves that each scan finds exactly the matching bracket, that the two
  scans are inverse to each other, and that neither fails on a
  well-bracketed program.
- `Interpreter` (interpreter.dfy): the machine state (`ip`, `dp`, tape, the
  input still unread, the output written) and `Step`, one call of
  `execute_step`. It also holds `Run`, the batch loop given a step budget
  (`fuel`), because Brainfuck programs need not halt.
- `Scenarios` (scenarios.dfy): runs of small programs from the start state,
  and the number of steps the loop `[-]` takes for any cell value.
- `Viewport` (viewport.dfy): the window width, the program window with its
  truncation counts, and the tape window.
- `OutputBox` (outputbox.dfy): the printable test and the wrapping of the
  output log into box lines. `WrapSpec` is a reference definition without the
  column counter: cut the log at its newlines, draw each segment, cut each
  drawn segment into pieces of the line width. `WrapOutput` is the
  column-counting loop of `draw_bf`, proved equal to it.
- `Frame` (frame.dfy): the output log kept by the drawing, one whole frame
  as indices and lines (`DrawFrame`), and the visual loop, proved to run the
  program as the batch loop does when the key presses between steps come
  from a stream of their own (in the source they come from standard input,
  which `,` also reads; see Left out).
- `AsWritten` (aswritten.dfy): the places where main.c does something other
  than what it evidently means, each as written, with a witness input (see
  Findings).

Choices where the source leaves behaviour undefined or unchecked:

- `>` on the last cell has no bound check in the source (main.c:358-360). In
  the model, `Step` reports the status `TapeOverflow` and leaves the state
  alone.
- `,` at end of input assigns `getc`'s `-1` to a `u8` (main.c:378-380), which
  stores 255. The model stores `EOF_BYTE` = 255, following the code. It does
  not use another sentinel such as 0.
- The backward scan has two ways to give up:
  - it reports an error when it reaches index 0 with a nonzero nesting count
    (main.c:406);
  - when it reaches index 0 with nesting 0 and `buf[0]` is not `[`, the
    unsigned `ip` is decremented below 0.

  The model treats both as an unmatched `]`: `ScanBackward` returns `None`
  and `Step` reports `UnmatchedClose` with `ip` at 0, as the error path of
  the source leaves it. A `[` at index 0 reached with nesting 0 is a match,
  as in the code. This differs from a reading where reaching index 0 always
  fails.
- An unmatched `[` leaves `ip` at the program length (main.c:386-389), and
  `Step` does the same.
- `main` drops the value `execute_step` returns (main.c:475, 480). `Run` and
  `VisualRun` stop on the first failing step instead. The source ends an
  unmatched `[` with exit status 0, although an error exit is evidently meant
  (see Findings). The loop as written is kept as `AsWritten.BatchAsWritten`.
  There an unmatched `]` restarts the program from `ip` 0.
- The output box tests printability on a plain `char` (main.c:304, 311). Bytes
  128-255 are negative there and fail the test 32..126 just as they do
  unsigned, so `Glyph` works on the unsigned byte.
- The program window and the tape window are cut at the end of the program
  and of the tape. The output log is an unbounded sequence. The source does
  none of these three (see Findings).

## Model

| member | source | states |
|---|---|---|
| Symbols.Inc | main.c:366-368 | `+` adds one to the cell; 255 wraps round to 0 |
| Symbols.Dec | main.c:370-372 | `-` subtracts one from the cell; 0 wraps round to 255 |
| Symbols.IncDecInverse | main.c:366-372 | `+` and `-` undo each other on every cell value |
| Brackets.ScanForward | main.c:384-397 | the forward scan stops only on a `]` at or after its start, or runs off the end and finds nothing |
| Brackets.ScanBackward | main.c:403-416 | the backward scan stops only on a `[` before its start, or finds nothing |
| Brackets.ScanForwardSpec | main.c:384-397 | the forward scan stops at the first `]` where the nesting counted from its start drops below zero, and finds nothing exactly when the nesting never drops below zero |
| Brackets.ScanBackwardSpec | main.c:403-416 | the backward scan stops at the nearest `[` where the nesting counted back from its start rises above zero, and finds nothing exactly when no such `[` exists |
| Brackets.MatchSymmetric | main.c:382-417 | a `]` is the match of a `[` read forward exactly when that `[` is the match of the `]` read backward |
| Brackets.ForwardScanFindsMatch | main.c:382-398 | the scan from just after a `[` returns index k exactly when the `]` at k matches that `[`, and nothing exactly when it has no match |
| Brackets.BackwardScanFindsMatch | main.c:400-417 | the scan from just before a `]` returns index i exactly when the `[` at i matches that `]`, and nothing exactly when it has no match |
| Brackets.ScansAreInverse | main.c:382-417 | the forward scan from the `[` at i stops at the `]` at k if and only if the backward scan from that `]` stops at i |
| Brackets.WellBracketedScansSucceed | main.c:382-417 | in a well-bracketed program every `[` finds a `]` going forward and every `]` finds a `[` going back |
| Interpreter.Init | main.c:461-464 | execution starts with both pointers at 0 and 30000 zero cells |
| Interpreter.Step | main.c:351-422 | one step: with `ip` past the end it changes nothing; it keeps the tape length, `dp` in range and `ip` within the program; failures leave the tape and `dp` alone, an unmatched `[` sets `ip` to the length and an unmatched `]` sets it to 0; it writes at most one byte and consumes at most the first input byte |
| Interpreter.StepMovesPointer | main.c:358-364 | `<` moves `dp` down by one and stays at 0 on cell 0; `>` moves it up by one, or fails on the last cell; neither touches the tape or the I/O |
| Interpreter.StepChangesCell | main.c:366-372 | `+` and `-` change only the current cell, by plus or minus one modulo 256, and advance `ip` by one |
| Interpreter.StepInputOutput | main.c:374-380 | `.` appends the current cell to the output; `,` stores the next input byte and consumes it, or stores 255 at end of input |
| Interpreter.StepFallsThrough | main.c:351-422 | a comment byte, `[` on a nonzero cell and `]` on a zero cell advance `ip` by exactly one and change nothing else |
| Interpreter.StepOpenJumps | main.c:382-398 | `[` on a zero cell continues just past its matching `]`, or fails with `ip` at the program length when it has none |
| Interpreter.StepCloseJumps | main.c:400-420 | `]` on a nonzero cell continues at the first body instruction after its matching `[`, or fails with `ip` at 0 when it has none |
| Interpreter.EmptyLoopIsSkipped | main.c:382-398 | `[]` on a zero cell is passed over in one step |
| Interpreter.WellBracketedStepFindsMatch | main.c:382-417 | a step of a well-bracketed program never reports an unmatched bracket |
| Interpreter.Run | main.c:479-481 | the batch loop keeps the tape length and `dp` in range, never moves `ip` past the end, ends with `ip` exactly at the end when the program finishes, and only ever adds to the output |
| Interpreter.RunConsumesInput | main.c:378-380 | a run only takes input from the front: what is left is a suffix of what there was |
| Interpreter.RunMoreFuel | main.c:479-481 | once a run has stopped, a larger step budget gives the same result |
| Interpreter.RunSplit | main.c:479-481 | a run of a+b steps is a run of a steps followed by a run of b steps from where it stopped |
| Interpreter.WellBracketedRunFindsMatches | main.c:479-481 | a run of a well-bracketed program never stops on an unmatched bracket |
| Scenarios.IncrementTwiceAndPrint | main.c:366-376 | `++.` writes the single byte 2 and ends at `ip` 3 |
| Scenarios.EchoOneByte | main.c:374-380 | `,.` writes back its one input byte and consumes it |
| Scenarios.LeftMovesStopAtZero | main.c:362-364 | `<<<` from cell 0 stays on cell 0 |
| Scenarios.DecrementWraps | main.c:370-372 | `-` on a fresh cell leaves 255 |
| Scenarios.UnmatchedOpenIsReported | main.c:382-389 | `[+` stops on the unmatched `[` with `ip` at the program length |
| Scenarios.UnreachedUnmatchedOpenIsNotReported | main.c:382-383 | `+[` ends normally: an unmatched `[` met on a nonzero cell is never scanned |
| Scenarios.ClearLoopBody | main.c:400-420 | inside `[-]` entered on a cell holding n, the body runs n times in 2n steps and leaves the cell at 0 and `ip` past the loop |
| Scenarios.ClearLoopRunsCellTimes | main.c:382-420 | `[-]` entered on a cell holding n > 0 takes exactly 2n+1 steps and only clears that cell |
| Scenarios.CountUpAndClear | main.c:366-420 | `+++[-]` counts the first cell up to 3 and back to 0 in ten steps |
| Viewport.Avail | main.c:208-210 | the width available for the program is never below 48 |
| Viewport.WindowWidth | main.c:208-215 | the window width is one less than a multiple of 6, at least 47, and within 6 below the room the terminal and program leave, or 47 when that room is under 48 |
| Viewport.CellCount | main.c:211 | the cell row is exactly one column wider than the program window, and shows at least 8 cells |
| Viewport.ProgramWindow | main.c:222-233 | the program window lies inside the program, contains `ip`, shows min(width, length) bytes, starts at 0 near the start, ends at the last byte near the end, and otherwise has `ip` half a window from its left edge |
| Viewport.ProgramWindowExamples | main.c:222-233 | a 100-byte program in a 20-byte window is shown from 40, 0 and 80 for `ip` 50, 5 and 95 |
| Viewport.TapeWindow | main.c:262-270 | the tape window contains `dp`, lies inside the tape, shows the full cell count when the tape allows and otherwise runs exactly to the last cell, and has `dp` half the cell count from its left edge unless it starts at cell 0 |
| OutputBox.Glyph | main.c:311-315 | a byte from 32 to 126 is drawn as itself, any other as `.` |
| OutputBox.SplitLinesRoundTrip | main.c:305-309 | cutting the log at its newlines and dropping them loses nothing: joining the pieces with newlines gives the log back |
| OutputBox.WrapEmpty | main.c:300-318 | an empty log fills the box with one empty line |
| OutputBox.WrapAppend | main.c:303-317 | one more byte: a newline adds an empty line even after a full line; any other byte joins the last line while it is shorter than the width and starts a new line otherwise |
| OutputBox.WrapLinesFit | main.c:300-318 | no box line is longer than the line width, so the padding after each line is never negative |
| OutputBox.WrapKeepsText | main.c:300-318 | the box lines laid end to end are the glyphs of every logged byte except newlines, in order |
| OutputBox.WrapByte | main.c:303-317 | one pass of the drawing loop keeps the lines drawn so far equal to the wrapping of the log read so far |
| OutputBox.WrapOutput | main.c:300-318 | the column-counting loop draws exactly the reference wrapping at `box_inner_width - 1`, every line fits, and all non-newline bytes are shown in order |
| Frame.LogAppend | main.c:289-290 | drawing only ever extends the log, by at most one byte |
| Frame.LogTracksOutput | main.c:289-290 | the log after drawing equals the output after the step that follows it |
| Frame.VisualRun | main.c:473-477 | the visual loop only ever extends the log |
| Frame.VisualRunMatchesRun | main.c:473-477 | with key presses taken from a stream separate from the program's input, the visual loop ends in the same state and status as the batch loop, and its log ends equal to the output |
| Frame.DrawFrame | main.c:199-322 | a frame is refused exactly on a terminal under 48 by 12; otherwise the width is `true_avail`, the program window is the centred window of `ProgramWindow` (so it contains `ip` and shows min(width, length) bytes), the left count is the window start and the right count the bytes after it, the tape window is the one of `TapeWindow` (so it contains `dp` within the tape), the cell row is one column wider than the program window, the box lines are exactly the reference wrapping of the log at `true_avail - 3`, the byte about to be written included, so no line is longer and all visible bytes appear in order |
| AsWritten.ProgramWindowAsWritten | main.c:222-233 | the window as written starts where the corrected one does but always spans the full width |
| AsWritten.ProgramWindowAsWrittenAgrees | main.c:222-247 | the window as written equals the corrected one exactly when the program is at least as long as the window, and otherwise reaches past its end |
| AsWritten.HiddenAfterLabelAgrees | main.c:233-257 | `trunc_right_count` as written and the corrected right count print the same `+N` label, or none: equal when the program fills the window, and not positive (no label) against 0 when it is shorter |
| AsWritten.ProgramWindowOverReads | main.c:208-247 | a 10-byte program on an 80-column terminal gets a 47-byte window, reading 37 bytes past the buffer |
| AsWritten.TapeWindowAsWritten | main.c:262-270 | the tape window as written always spans the full cell count |
| AsWritten.TapeWindowAsWrittenAgrees | main.c:262-270 | the tape window as written equals the corrected one exactly when it ends inside the tape |
| AsWritten.TapeWindowOverReads | main.c:262-270 | with `dp` on the last cell and 8 cells shown, the row reads 3 cells past the tape |
| AsWritten.ScanBackwardAsWritten | main.c:400-417 | the backward scan as written stops only on a `[` before its start |
| AsWritten.ScanBackwardAsWrittenAgrees | main.c:400-417 | the corrected scan finds the same `[` as the scan as written, and nothing both where the source reports the error and where it steps below index 0 |
| AsWritten.ScanBackwardStepsBelowZero | main.c:403-416 | on `+]`, and on `]` alone, the scan as written steps below index 0, while the corrected run reports the unmatched `]` |
| AsWritten.LogAppendAsWritten | main.c:289-290 | the append as written fails only once 250 bytes are logged |
| AsWritten.LogAppendAsWrittenAgrees | main.c:289-290 | the fixed buffer and the growable log agree until the buffer is full, and overflow exactly on a `.` once it is |
| AsWritten.LogOverflows | main.c:289-290 | the 251st `.` drawn writes past the buffer |
| AsWritten.BatchAsWritten | main.c:479-484 | the loop as written never ends on an unmatched bracket |
| AsWritten.BatchAsWrittenAgrees | main.c:479-484 | the loop as written agrees with `Run` unless a bracket is unmatched; after an unmatched `[` it stops in the same state but as if the program had ended normally |
| AsWritten.UnmatchedOpenEndsQuietly | main.c:479-484 | `[+` stops the run on the unmatched `[`, while the loop as written ends as if the program had finished |

## Left out

- Raw mode, the terminal-size query and its Win32 and termios variants
  (main.c:21-154): operating-system calls. `DrawFrame` takes the columns and
  rows as parameters.
- The SIGINT handler and the `atexit` cursor restore (main.c:174-183, 470):
  signals and process exit.
- Escape sequences, colours, cursor moves, box-drawing characters, the
  `%03u` cell values, the `%-4d` index labels and the widths of the `+N`
  labels (main.c:156-171, 238-259, 272-284, 294-322): the model gives the
  indices, counts and lines a frame shows, not the characters that draw it.
- Command-line parsing and loading the program file (main.c:425-459): I/O
  glue. The program is a byte sequence.
- The key wait between visual steps (main.c:476) and the auto-play constants
  and flag (main.c:191-194, 472): blocking input and unused stubs. The key
  wait is taken to read a stream of its own, not the program's input.
- Real standard input and output (main.c:375, 379): replaced by the `input`
  and `output` sequences of the machine state.
- The exit on a too small terminal (main.c:203-206) is the `TooSmall` frame
  of `DrawFrame`. `VisualRun` does not draw, so it never stops on it: a
  terminal shrunk below 48 by 12 in the middle of a visual run ends the
  process there, which the model does not follow.
- Integer widths of `size_t` and `int`: positions and lengths are unbounded
  naturals. Programs are assumed short enough for the `int` casts of
  main.c:226-235 to be exact.
- Interpreter.Run: a run is bounded by `fuel`; a program that does not halt
  shows up as status `Continue` for every budget.
- Frame.VisualRunMatchesRun: assumes the key presses of main.c:476 come from
  a stream separate from the program's input. In the source, `getc(stdin)`
  there reads the same standard input as `,` (main.c:379), so each key wait
  consumes one input byte: `,,` on input `AB` stores `A` then `B` in batch
  mode, but `A` then 255 in visual mode. It also leaves out the mid-run
  exit of `draw_bf` on a too small terminal (main.c:203-206).
- Frame.DrawFrame: states that the cell glyph row has one glyph per cell, not
  which glyph. `Render` builds it with `Glyph`, whose contract gives the glyph
  of each byte.

## Findings

| source | as written | input that shows it | evidently intended | confidence | as-written member | corrected member |
|---|---|---|---|---|---|---|
| main.c:222-247 | the program row always prints `true_avail` bytes from the window start, and `avail` is raised to 48 even for a shorter program | a 10-byte program on an 80-column terminal: the window is 47 wide, so bytes 10 to 46 of a 10-byte buffer are read (`AsWritten.ProgramWindowOverReads`) | show only the program's own bytes | not executed | AsWritten.ProgramWindowAsWritten | Viewport.ProgramWindow |
| main.c:262-270 | the tape row prints `possible_cells` cells from `first_cell` with no check against the end of the tape | `dp` = 29999 with 8 cells on screen: cells 30000 to 30002 are read (`AsWritten.TapeWindowOverReads`) | stop the row at the last cell | not executed | AsWritten.TapeWindowAsWritten | Viewport.TapeWindow |
| main.c:403-416 | a backward scan that reaches index 0 with nesting 0 on a byte other than `[` decrements the unsigned `ip` below 0 and goes on reading | program `+]`, or `]` alone, on a nonzero cell (`AsWritten.ScanBackwardStepsBelowZero`) | report the unmatched `]` | not executed | AsWritten.ScanBackwardAsWritten | Brackets.ScanBackward |
| main.c:289-290 | each `.` drawn is stored at `drawn_output_pos++` in a 250-byte array with no bound check | the 251st `.` of a visual run (`AsWritten.LogOverflows`) | keep every written byte | not executed | AsWritten.LogAppendAsWritten | Frame.LogAppend |
| main.c:479-484 | the batch loop drops the status `execute_step` returns, so an unmatched `[`, which leaves `ip` at the end, ends the loop and `main` returns 0 | program `[+` (`AsWritten.UnmatchedOpenEndsQuietly`) | stop on the error and exit with a failure status | not executed | AsWritten.BatchAsWritten | Interpreter.Run |
