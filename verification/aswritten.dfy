/** The places where main.c does something other than what it evidently
    means, each as written, next to the corrected definition the rest of the
    model uses, with an input that tells the two apart. */
module AsWritten {
  import opened Symbols
  import opened Optional
  import opened Brackets
  import opened Interpreter
  import opened Viewport
  import opened Frame

  /** The program window of main.c:222-233 as written: the drawing loop of
      main.c:247 always reads `w` bytes from `first`, however short the
      program is. */
  function ProgramWindowAsWritten(len: nat, ip: nat, w: nat): (win: Window)
    requires ip < len && w >= 1
    ensures win.count == w
    ensures win.first == ProgramWindow(len, ip, w).first
  {
    var half := w / 2;
    var first :=
      if ip < half then 0
      else if ip + half >= len then (if len >= w then len - w else 0)
      else ip - half;
    Window(first, w)
  }

  /** `trunc_right_count` as written (main.c:233), negative when the window
      runs past the end of the program. */
  function HiddenAfterAsWritten(len: nat, win: Window): int {
    len - (win.first + win.count)
  }

  /** The window as written is the corrected one exactly when the program is
      at least as long as the window; otherwise it reaches past the last
      byte. */
  lemma ProgramWindowAsWrittenAgrees(len: nat, ip: nat, w: nat)
    requires ip < len && w >= 1
    ensures ProgramWindowAsWritten(len, ip, w) == ProgramWindow(len, ip, w) <==> len >= w
    ensures len < w ==> ProgramWindowAsWritten(len, ip, w).first + w > len
  {
  }

  /** The `+N` label right of the program row (main.c:255-257) is printed
      only for a positive `trunc_right_count`. The count as written and the
      corrected count print the same label, or none, for every program,
      `ip` and width: they are equal on a program at least as long as the
      window, and on a shorter one the count as written is not positive
      while the corrected count is 0. */
  lemma HiddenAfterLabelAgrees(len: nat, ip: nat, w: nat)
    requires ip < len && w >= 1
    ensures var asWritten := HiddenAfterAsWritten(len, ProgramWindowAsWritten(len, ip, w));
      var corrected := HiddenAfter(len, ProgramWindow(len, ip, w));
      && (len >= w ==> asWritten == corrected)
      && (len < w ==> asWritten <= 0 && corrected == 0)
      && (asWritten > 0 <==> corrected > 0)
      && (asWritten > 0 ==> asWritten == corrected)
  {
    ProgramWindowAsWrittenAgrees(len, ip, w);
  }

  /** A 10-byte program on an 80-column terminal: the window is 47 wide, so
      the loop reads bytes 10 to 46 of a 10-byte buffer. */
  lemma ProgramWindowOverReads()
    ensures WindowWidth(80, 10) == 47
    ensures var win := ProgramWindowAsWritten(10, 0, 47);
      win.first + win.count == 47 && HiddenAfterAsWritten(10, win) == -37
    ensures ProgramWindow(10, 0, 47) == Window(0, 10)
  {
  }

  /** The tape window of main.c:262-270 as written: `possible_cells` cells
      from `first_cell`, with no check against the end of the tape. */
  function TapeWindowAsWritten(dp: nat, cells: nat): (win: Window)
    ensures win.count == cells
    ensures dp >= cells / 2 ==> dp - win.first == cells / 2
  {
    var first := if dp < cells / 2 then 0 else dp - cells / 2;
    Window(first, cells)
  }

  /** The tape window as written is the corrected one exactly when it ends
      inside the tape. */
  lemma TapeWindowAsWrittenAgrees(tapeLen: nat, dp: nat, cells: nat)
    requires dp < tapeLen && cells >= 1
    ensures var win := TapeWindowAsWritten(dp, cells);
      win == TapeWindow(tapeLen, dp, cells) <==> win.first + win.count <= tapeLen
  {
  }

  /** With the data pointer on the last cell and 8 cells on screen, the row
      reads cells 30000 to 30002 of a 30000-cell tape. */
  lemma TapeWindowOverReads()
    ensures var win := TapeWindowAsWritten(TAPE_SIZE - 1, 8);
      win.first + win.count == TAPE_SIZE + 3
    ensures TapeWindow(TAPE_SIZE, TAPE_SIZE - 1, 8) == Window(TAPE_SIZE - 5, 5)
  {
  }

  /** How the backward scan of main.c:403-416 ends as written: at a `[`, at
      the error of main.c:406, or by decrementing the unsigned `ip` below 0,
      after which it reads outside the program. */
  datatype BackScan = Matched(index: nat) | Unmatched | SteppedBelowZero

  /** The backward scan as written. `ip` is the value of `*ip` at the top of
      the loop body, before its decrement. */
  function ScanBackwardAsWritten(prog: seq<byte>, ip: nat, nested: nat): (r: BackScan)
    requires ip <= |prog|
    ensures r.Matched? ==> r.index < ip && prog[r.index] == OPEN
  {
    if ip == 0 then SteppedBelowZero
    else
      var j := ip - 1;
      if j == 0 && nested != 0 then Unmatched
      else if prog[j] == CLOSE then ScanBackwardAsWritten(prog, j, nested + 1)
      else if prog[j] == OPEN then
        if nested == 0 then Matched(j) else ScanBackwardAsWritten(prog, j, nested - 1)
      else ScanBackwardAsWritten(prog, j, nested)
  }

  /** The corrected scan finds the same `[` as the scan as written, and
      reports no match both where the source reports the error and where it
      steps below index 0. */
  lemma {:induction false} ScanBackwardAsWrittenAgrees(prog: seq<byte>, ip: nat, nested: nat)
    requires ip <= |prog|
    ensures forall k: nat :: ScanBackward(prog, ip, nested) == Some(k) <==> ScanBackwardAsWritten(prog, ip, nested) == Matched(k)
    ensures ScanBackward(prog, ip, nested).None? <==> !ScanBackwardAsWritten(prog, ip, nested).Matched?
    decreases ip
  {
    if ip > 0 && !(ip == 1 && nested != 0) {
      var j := ip - 1;
      if prog[j] == CLOSE {
        ScanBackwardAsWrittenAgrees(prog, j, nested + 1);
      } else if prog[j] == OPEN && nested != 0 {
        ScanBackwardAsWrittenAgrees(prog, j, nested - 1);
      } else if prog[j] != OPEN {
        ScanBackwardAsWrittenAgrees(prog, j, nested);
      }
    }
  }

  /** `+]`: the `]` meets a nonzero cell and scans back past the `+` at index
      0 with nothing open, so the source steps below index 0; the corrected
      step reports the unmatched `]`. A `]` at index 0 does the same. */
  lemma ScanBackwardStepsBelowZero()
    ensures ScanBackwardAsWritten([PLUS, CLOSE], 1, 0) == SteppedBelowZero
    ensures ScanBackwardAsWritten([CLOSE], 0, 0) == SteppedBelowZero
    ensures Run([PLUS, CLOSE], Init([]), 2).status == UnmatchedClose
  {
  }

  /** Capacity of `drawn_output` (main.c:196). */
  const LOG_CAPACITY: nat := 250

  /** The log append of main.c:289-290 as written, on a buffer of
      `LOG_CAPACITY` bytes with no bound check; None is a write past its
      end. */
  function LogAppendAsWritten(log: seq<byte>, prog: seq<byte>, m: Machine): (r: Option<seq<byte>>)
    requires m.ip < |prog| && m.dp < |m.tape|
    ensures r.None? ==> |log| >= LOG_CAPACITY
  {
    if prog[m.ip] != DOT then Some(log)
    else if |log| < LOG_CAPACITY then Some(log + [m.tape[m.dp]])
    else None
  }

  /** Within the capacity, the fixed buffer and the growable log agree; the
      buffer overflows exactly on a `.` once it is full. */
  lemma LogAppendAsWrittenAgrees(log: seq<byte>, prog: seq<byte>, m: Machine)
    requires m.ip < |prog| && m.dp < |m.tape|
    ensures LogAppendAsWritten(log, prog, m).Some? ==> LogAppendAsWritten(log, prog, m).value == LogAppend(log, prog, m)
    ensures LogAppendAsWritten(log, prog, m).None? <==> prog[m.ip] == DOT && |log| >= LOG_CAPACITY
  {
  }

  /** The 251st `.` drawn writes past the buffer. */
  lemma LogOverflows()
    ensures LogAppendAsWritten(seq(LOG_CAPACITY, _ => 0), [DOT], Init([])).None?
    ensures |LogAppend(seq(LOG_CAPACITY, _ => 0), [DOT], Init([]))| == LOG_CAPACITY + 1
  {
  }

  /** The batch loop of main.c:479-481 as written: the value `execute_step`
      returns is dropped, so the loop only ends when `ip` reaches the end.
      A `>` past the last cell is outside the model and stops the loop. */
  function BatchAsWritten(prog: seq<byte>, m: Machine, fuel: nat): (r: StepResult)
    requires m.dp < |m.tape|
    ensures r.status != UnmatchedOpen && r.status != UnmatchedClose
    decreases fuel
  {
    if m.ip >= |prog| then StepResult(EndOfProgram, m)
    else if fuel == 0 then StepResult(Continue, m)
    else
      var s := Step(prog, m);
      if s.status == TapeOverflow then s else BatchAsWritten(prog, s.next, fuel - 1)
  }

  /** The loop as written agrees with `Run` on every run that does not meet
      an unmatched bracket; an unmatched `[` leaves `ip` at the end, so the
      loop as written stops in the same state as `Run` but as if the program
      had ended normally. */
  lemma {:induction false} BatchAsWrittenAgrees(prog: seq<byte>, m: Machine, fuel: nat)
    requires m.dp < |m.tape|
    ensures Run(prog, m, fuel).status !in {UnmatchedOpen, UnmatchedClose} ==>
              BatchAsWritten(prog, m, fuel) == Run(prog, m, fuel)
    ensures Run(prog, m, fuel).status == UnmatchedOpen ==>
              BatchAsWritten(prog, m, fuel + 1) == StepResult(EndOfProgram, Run(prog, m, fuel).next)
    decreases fuel
  {
    if m.ip < |prog| && fuel > 0 {
      var rest := fuel - 1;
      RunStep(prog, m, fuel, rest);
      var s := Step(prog, m);
      if s.status == Continue {
        BatchAsWrittenAgrees(prog, s.next, rest);
        assert BatchAsWritten(prog, m, fuel + 1) == BatchAsWritten(prog, s.next, fuel);
      } else if s.status == UnmatchedOpen {
        assert BatchAsWritten(prog, m, fuel + 1) == BatchAsWritten(prog, s.next, fuel);
      }
    }
  }

  /** `[+` from the start: the run stops on the unmatched `[`, and the loop
      as written ends as if the program had finished, so `main` exits with
      status 0 (main.c:484). */
  lemma UnmatchedOpenEndsQuietly()
    ensures Run([OPEN, PLUS], Init([]), 1).status == UnmatchedOpen
    ensures BatchAsWritten([OPEN, PLUS], Init([]), 2).status == EndOfProgram
  {
  }
}
