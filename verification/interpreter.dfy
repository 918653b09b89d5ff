/** The step executor `execute_step` (main.c:351-422) and the batch loop of
    `main` (main.c:461-464, 479-481), as pure functions over an immutable
    machine state. Standard input and standard output become the `input` and
    `output` byte sequences of the state. */
module Interpreter {
  import opened Symbols
  import opened Optional
  import opened Brackets

  /** Number of tape cells (main.c:461). */
  const TAPE_SIZE: nat := 30000

  /** Everything one step reads or writes besides the program: the
      instruction pointer, the data pointer, the tape, the bytes standard
      input has still to deliver and the bytes written to standard output. */
  datatype Machine = Machine(ip: nat, dp: nat, tape: seq<byte>, input: seq<byte>, output: seq<byte>)

  /** What a step (or a run) ended with. `TapeOverflow` is the result of a `>`
      on the last cell, which the source leaves unchecked. */
  datatype Status = Continue | EndOfProgram | UnmatchedOpen | UnmatchedClose | TapeOverflow

  datatype StepResult = StepResult(status: Status, next: Machine)

  /** The state `main` starts from: both pointers at 0 and every cell 0. */
  function Init(input: seq<byte>): (m: Machine)
    ensures m.ip == 0 && m.dp == 0 && m.input == input && m.output == []
    ensures |m.tape| == TAPE_SIZE && forall i :: 0 <= i < |m.tape| ==> m.tape[i] == 0
  {
    Machine(0, 0, seq(TAPE_SIZE, _ => 0), input, [])
  }

  /** `s` is what is left of `t` after dropping some bytes from its front. */
  predicate IsSuffix(s: seq<byte>, t: seq<byte>) {
    |s| <= |t| && s == t[|t| - |s|..]
  }

  /** A conditional jump is taken: `[` on a zero cell or `]` on a nonzero one. */
  predicate Jumps(op: byte, cell: byte) {
    (op == OPEN && cell == 0) || (op == CLOSE && cell != 0)
  }

  /** One call of `execute_step`. */
  function Step(prog: seq<byte>, m: Machine): (r: StepResult)
    requires m.dp < |m.tape|
    ensures |r.next.tape| == |m.tape| && r.next.dp < |r.next.tape|
    ensures r.status == EndOfProgram <==> m.ip >= |prog|
    ensures r.status == EndOfProgram ==> r.next == m
    ensures r.status != Continue ==> r.next.dp == m.dp && r.next.tape == m.tape
    ensures m.ip <= |prog| ==> r.next.ip <= |prog|
    ensures r.status == UnmatchedOpen ==> r.next.ip == |prog|
    ensures r.status == UnmatchedClose ==> r.next.ip == 0
    ensures m.output <= r.next.output && |r.next.output| <= |m.output| + 1
    ensures r.next.input == m.input || (|m.input| > 0 && r.next.input == m.input[1..])
  {
    if m.ip >= |prog| then StepResult(EndOfProgram, m)
    else
      var op := prog[m.ip];
      var cell := m.tape[m.dp];
      var advanced := m.(ip := m.ip + 1);
      if op == RIGHT then
        if m.dp + 1 < |m.tape| then StepResult(Continue, advanced.(dp := m.dp + 1))
        else StepResult(TapeOverflow, m)
      else if op == LEFT then
        StepResult(Continue, advanced.(dp := if m.dp > 0 then m.dp - 1 else 0))
      else if op == PLUS then
        StepResult(Continue, advanced.(tape := m.tape[m.dp := Inc(cell)]))
      else if op == MINUS then
        StepResult(Continue, advanced.(tape := m.tape[m.dp := Dec(cell)]))
      else if op == DOT then
        StepResult(Continue, advanced.(output := m.output + [cell]))
      else if op == COMMA then
        if |m.input| > 0 then
          StepResult(Continue, advanced.(tape := m.tape[m.dp := m.input[0]], input := m.input[1..]))
        else
          StepResult(Continue, advanced.(tape := m.tape[m.dp := EOF_BYTE]))
      else if op == OPEN && cell == 0 then
        match ScanForward(prog, m.ip + 1, 0)
        case Some(k) => StepResult(Continue, m.(ip := k + 1))
        case None => StepResult(UnmatchedOpen, m.(ip := |prog|))
      else if op == CLOSE && cell != 0 then
        match ScanBackward(prog, m.ip, 0)
        case Some(k) => StepResult(Continue, m.(ip := k + 1))
        case None => StepResult(UnmatchedClose, m.(ip := 0))
      else StepResult(Continue, advanced)
  }

  /** `>` moves right by one cell and `<` moves left by one, staying on cell 0
      when already there; neither touches the tape or the I/O streams. */
  lemma StepMovesPointer(prog: seq<byte>, m: Machine)
    requires m.dp < |m.tape| && m.ip < |prog|
    requires prog[m.ip] == RIGHT || prog[m.ip] == LEFT
    ensures var r := Step(prog, m);
      && r.next.tape == m.tape && r.next.input == m.input && r.next.output == m.output
      && (prog[m.ip] == LEFT ==> r.status == Continue && r.next.ip == m.ip + 1 &&
                                 (m.dp == 0 ==> r.next.dp == 0) &&
                                 (m.dp > 0 ==> r.next.dp + 1 == m.dp))
      && (prog[m.ip] == RIGHT && m.dp + 1 < |m.tape| ==>
            r.status == Continue && r.next.ip == m.ip + 1 && r.next.dp == m.dp + 1)
      && (prog[m.ip] == RIGHT && m.dp + 1 == |m.tape| ==> r == StepResult(TapeOverflow, m))
  {
  }

  /** `+` and `-` change the current cell by one modulo 256 and nothing else
      on the tape. */
  lemma StepChangesCell(prog: seq<byte>, m: Machine)
    requires m.dp < |m.tape| && m.ip < |prog|
    requires prog[m.ip] == PLUS || prog[m.ip] == MINUS
    ensures var r := Step(prog, m);
      && r.status == Continue
      && r.next.ip == m.ip + 1 && r.next.dp == m.dp
      && r.next.input == m.input && r.next.output == m.output
      && |r.next.tape| == |m.tape|
      && (forall i :: 0 <= i < |m.tape| && i != m.dp ==> r.next.tape[i] == m.tape[i])
      && (prog[m.ip] == PLUS ==> (r.next.tape[m.dp] as int - m.tape[m.dp] as int) % 256 == 1)
      && (prog[m.ip] == MINUS ==> (m.tape[m.dp] as int - r.next.tape[m.dp] as int) % 256 == 1)
  {
  }

  /** `.` appends the current cell to the output; `,` stores the next input
      byte in the current cell and consumes it, or stores 255 when the input
      is exhausted. */
  lemma StepInputOutput(prog: seq<byte>, m: Machine)
    requires m.dp < |m.tape| && m.ip < |prog|
    requires prog[m.ip] == DOT || prog[m.ip] == COMMA
    ensures var r := Step(prog, m);
      && r.status == Continue && r.next.ip == m.ip + 1 && r.next.dp == m.dp
      && (prog[m.ip] == DOT ==>
            r.next.output == m.output + [m.tape[m.dp]] && r.next.tape == m.tape && r.next.input == m.input)
      && (prog[m.ip] == COMMA ==> r.next.output == m.output)
      && (prog[m.ip] == COMMA && |m.input| > 0 ==>
            r.next.tape == m.tape[m.dp := m.input[0]] && m.input == [m.input[0]] + r.next.input)
      && (prog[m.ip] == COMMA && |m.input| == 0 ==>
            r.next.tape == m.tape[m.dp := EOF_BYTE] && r.next.input == [])
  {
  }

  /** Any byte that is not one of the six non-jump instructions and does not
      trigger a jump (a comment byte, `[` on a nonzero cell, `]` on a zero
      cell) only moves on to the next byte. */
  lemma StepFallsThrough(prog: seq<byte>, m: Machine)
    requires m.dp < |m.tape| && m.ip < |prog|
    requires prog[m.ip] !in {RIGHT, LEFT, PLUS, MINUS, DOT, COMMA}
    requires !Jumps(prog[m.ip], m.tape[m.dp])
    ensures Step(prog, m) == StepResult(Continue, m.(ip := m.ip + 1))
  {
  }

  /** `[` on a zero cell resumes just past its matching `]`; with no matching
      `]` the step fails with the instruction pointer at the program's end. */
  lemma StepOpenJumps(prog: seq<byte>, m: Machine)
    requires m.dp < |m.tape| && m.ip < |prog|
    requires prog[m.ip] == OPEN && m.tape[m.dp] == 0
    ensures forall k: nat :: IsMatchFromOpen(prog, m.ip, k) ==>
              Step(prog, m) == StepResult(Continue, m.(ip := k + 1))
    ensures (forall k: nat :: !IsMatchFromOpen(prog, m.ip, k)) ==>
              Step(prog, m) == StepResult(UnmatchedOpen, m.(ip := |prog|))
  {
    ForwardScanFindsMatch(prog, m.ip);
  }

  /** `]` on a nonzero cell resumes just past its matching `[`, at the first
      byte of the loop body; with no matching `[` the step fails with the
      instruction pointer at 0. */
  lemma StepCloseJumps(prog: seq<byte>, m: Machine)
    requires m.dp < |m.tape| && m.ip < |prog|
    requires prog[m.ip] == CLOSE && m.tape[m.dp] != 0
    ensures forall i: nat :: IsMatchFromClose(prog, m.ip, i) ==>
              Step(prog, m) == StepResult(Continue, m.(ip := i + 1))
    ensures (forall i: nat :: !IsMatchFromClose(prog, m.ip, i)) ==>
              Step(prog, m) == StepResult(UnmatchedClose, m.(ip := 0))
  {
    BackwardScanFindsMatch(prog, m.ip);
  }

  /** A loop `[]` with nothing inside, reached on a zero cell, is passed over
      in one step that leaves the tape alone. */
  lemma EmptyLoopIsSkipped(prog: seq<byte>, m: Machine)
    requires m.dp < |m.tape| && m.ip + 1 < |prog|
    requires prog[m.ip] == OPEN && prog[m.ip + 1] == CLOSE && m.tape[m.dp] == 0
    ensures Step(prog, m) == StepResult(Continue, m.(ip := m.ip + 2))
  {
  }

  /** A step of a well-bracketed program never reports an unmatched bracket. */
  lemma WellBracketedStepFindsMatch(prog: seq<byte>, m: Machine)
    requires m.dp < |m.tape| && WellBracketed(prog)
    ensures Step(prog, m).status != UnmatchedOpen
    ensures Step(prog, m).status != UnmatchedClose
  {
    if m.ip < |prog| {
      WellBracketedScansSucceed(prog, m.ip);
    }
  }

  /** The batch loop `while (ip < len) execute_step(...)` of main.c:479-481,
      given at most `fuel` steps. It stops at the end of the program, on the
      first failing step, or with status `Continue` when the fuel runs out. */
  function Run(prog: seq<byte>, m: Machine, fuel: nat): (r: StepResult)
    requires m.dp < |m.tape|
    ensures |r.next.tape| == |m.tape| && r.next.dp < |r.next.tape|
    ensures r.status == EndOfProgram ==> r.next.ip >= |prog|
    ensures r.status == EndOfProgram && m.ip <= |prog| ==> r.next.ip == |prog|
    ensures r.status == Continue ==> r.next.ip < |prog|
    ensures m.ip <= |prog| ==> r.next.ip <= |prog|
    ensures r.status == UnmatchedOpen ==> r.next.ip == |prog|
    ensures r.status == UnmatchedClose ==> r.next.ip == 0
    ensures m.output <= r.next.output
    decreases fuel
  {
    if m.ip >= |prog| then StepResult(EndOfProgram, m)
    else if fuel == 0 then StepResult(Continue, m)
    else
      var s := Step(prog, m);
      if s.status == Continue then Run(prog, s.next, fuel - 1) else s
  }

  /** A run only ever consumes input from the front: what is left is a
      suffix of what was there. */
  lemma {:induction false} RunConsumesInput(prog: seq<byte>, m: Machine, fuel: nat)
    requires m.dp < |m.tape|
    ensures IsSuffix(Run(prog, m, fuel).next.input, m.input)
    decreases fuel
  {
    if m.ip < |prog| && fuel > 0 {
      var s := Step(prog, m);
      if s.status == Continue {
        RunConsumesInput(prog, s.next, fuel - 1);
        var rest := Run(prog, s.next, fuel - 1).next.input;
        assert Run(prog, m, fuel).next.input == rest;
        if s.next.input != m.input {
          assert s.next.input == m.input[1..];
          assert rest == m.input[1..][|m.input| - 1 - |rest|..];
        }
      }
    }
  }

  /** Fuel only bounds the run: once a run has stopped, more fuel gives the
      same result. */
  lemma {:induction false} RunMoreFuel(prog: seq<byte>, m: Machine, fuel: nat, more: nat)
    requires m.dp < |m.tape|
    requires Run(prog, m, fuel).status != Continue && fuel <= more
    ensures Run(prog, m, more) == Run(prog, m, fuel)
    decreases fuel
  {
    if m.ip < |prog| {
      var rest := fuel - 1;
      RunStep(prog, m, fuel, rest);
      RunStep(prog, m, more, more - 1);
      var s := Step(prog, m);
      if s.status == Continue {
        RunMoreFuel(prog, s.next, rest, more - 1);
      }
    }
  }

  /** One turn of the batch loop: a run with fuel left from inside the
      program is the step followed by the rest of the run. */
  lemma RunStep(prog: seq<byte>, m: Machine, fuel: nat, rest: nat)
    requires m.dp < |m.tape| && m.ip < |prog| && fuel == rest + 1
    ensures var s := Step(prog, m);
      Run(prog, m, fuel) == if s.status == Continue then Run(prog, s.next, rest) else s
  {
  }

  /** Running for `a + b` steps is running for `a` steps and then, if the
      program is still going, for `b` more. */
  lemma {:induction false} RunSplit(prog: seq<byte>, m: Machine, a: nat, b: nat)
    requires m.dp < |m.tape|
    ensures var first := Run(prog, m, a);
      Run(prog, m, a + b) == if first.status == Continue then Run(prog, first.next, b) else first
    decreases a
  {
    if m.ip < |prog| && a > 0 {
      var rest := a - 1;
      RunStep(prog, m, a, rest);
      RunStep(prog, m, a + b, rest + b);
      var s := Step(prog, m);
      if s.status == Continue {
        RunSplit(prog, s.next, rest, b);
      }
    }
  }

  /** A run of a well-bracketed program never stops on an unmatched bracket. */
  lemma {:induction false} WellBracketedRunFindsMatches(prog: seq<byte>, m: Machine, fuel: nat)
    requires m.dp < |m.tape| && WellBracketed(prog)
    ensures Run(prog, m, fuel).status != UnmatchedOpen
    ensures Run(prog, m, fuel).status != UnmatchedClose
    decreases fuel
  {
    if m.ip < |prog| && fuel > 0 {
      WellBracketedStepFindsMatch(prog, m);
      var s := Step(prog, m);
      if s.status == Continue {
        WellBracketedRunFindsMatches(prog, s.next, fuel - 1);
      }
    }
  }
}
