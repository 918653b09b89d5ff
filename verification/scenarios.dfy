/** Small programs run from the start state of `main`, and the loop `[-]`
    that empties a cell, as consequences of the step executor. */
module Scenarios {
  import opened Symbols
  import opened Optional
  import opened Brackets
  import opened Interpreter

  /** `++.` writes one byte, 2, and stops with the instruction pointer at 3. */
  lemma IncrementTwiceAndPrint()
    ensures var r := Run([PLUS, PLUS, DOT], Init([]), 3);
      r.status == EndOfProgram && r.next.ip == 3 && r.next.output == [2]
  {
  }

  /** `,.` echoes its one input byte, 65. */
  lemma EchoOneByte()
    ensures var r := Run([COMMA, DOT], Init([65]), 2);
      r.status == EndOfProgram && r.next.output == [65] && r.next.input == []
  {
  }

  /** `<<<` from cell 0 stays on cell 0. */
  lemma LeftMovesStopAtZero()
    ensures var r := Run([LEFT, LEFT, LEFT], Init([]), 3);
      r.status == EndOfProgram && r.next.dp == 0
  {
  }

  /** `-` on a fresh cell wraps it around to 255. */
  lemma DecrementWraps()
    ensures var r := Run([MINUS], Init([]), 1);
      r.status == EndOfProgram && r.next.tape[0] == 255
  {
  }

  /** `[+` on a zero cell has no `]` to jump to: the run stops with an
      unmatched `[`, the instruction pointer at the end of the program. */
  lemma UnmatchedOpenIsReported()
    ensures var r := Run([OPEN, PLUS], Init([]), 1);
      r.status == UnmatchedOpen && r.next.ip == 2
  {
  }

  /** `+[` never scans for the missing `]`: the cell is nonzero, so `[` falls
      through and the program ends normally. Brackets are only checked on the
      path actually taken. */
  lemma UnreachedUnmatchedOpenIsNotReported()
    ensures var r := Run([PLUS, OPEN], Init([]), 2);
      r.status == EndOfProgram && r.next.ip == 2
  {
  }

  /** The body of a loop `[-]` that starts at `p`, entered on a cell holding
      `n`: it runs `n` times, two steps each, and leaves the cell at 0 and the
      instruction pointer just past the loop. */
  lemma {:induction false} ClearLoopBody(prog: seq<byte>, m: Machine, p: nat, n: nat)
    requires p + 2 < |prog| && prog[p] == OPEN && prog[p + 1] == MINUS && prog[p + 2] == CLOSE
    requires m.dp < |m.tape| && m.ip == p + 1 && m.tape[m.dp] as int == n && n > 0
    ensures var r := Run(prog, m, 2 * n);
      && r.next == m.(ip := p + 3, tape := m.tape[m.dp := 0])
      && r.status == (if p + 3 == |prog| then EndOfProgram else Continue)
    decreases n
  {
    var m1 := m.(ip := p + 2, tape := m.tape[m.dp := Dec(m.tape[m.dp])]);
    assert Step(prog, m) == StepResult(Continue, m1);
    RunStep(prog, m, 2 * n, 2 * n - 1);
    if n == 1 {
      var m2 := m1.(ip := p + 3);
      assert Step(prog, m1) == StepResult(Continue, m2);
      RunStep(prog, m1, 1, 0);
    } else {
      assert ScanBackward(prog, p + 2, 0) == Some(p);
      var m2 := m1.(ip := p + 1);
      assert Step(prog, m1) == StepResult(Continue, m2);
      RunStep(prog, m1, 2 * n - 1, 2 * (n - 1));
      ClearLoopBody(prog, m2, p, n - 1);
      assert m2.tape[m.dp := 0] == m.tape[m.dp := 0];
    }
  }

  /** A loop `[-]` entered on a cell holding `n > 0` takes exactly `2n + 1`
      steps: one for the `[` and two for each of the `n` passes through the
      body. */
  lemma ClearLoopRunsCellTimes(prog: seq<byte>, m: Machine, p: nat, n: nat)
    requires p + 2 < |prog| && prog[p] == OPEN && prog[p + 1] == MINUS && prog[p + 2] == CLOSE
    requires m.dp < |m.tape| && m.ip == p && m.tape[m.dp] as int == n && n > 0
    ensures var r := Run(prog, m, 2 * n + 1);
      && r.next == m.(ip := p + 3, tape := m.tape[m.dp := 0])
      && r.status == (if p + 3 == |prog| then EndOfProgram else Continue)
  {
    var m1 := m.(ip := p + 1);
    assert Step(prog, m) == StepResult(Continue, m1);
    assert Run(prog, m, 2 * n + 1) == Run(prog, m1, 2 * n);
    ClearLoopBody(prog, m1, p, n);
  }

  /** `+++[-]` counts the first cell up to 3 and back down to 0 in ten steps. */
  lemma CountUpAndClear()
    ensures var r := Run([PLUS, PLUS, PLUS, OPEN, MINUS, CLOSE], Init([]), 10);
      r.status == EndOfProgram && r.next.ip == 6 && r.next.tape[0] == 0
  {
    var prog := [PLUS, PLUS, PLUS, OPEN, MINUS, CLOSE];
    var m0 := Init([]);
    var m1 := m0.(ip := 1, tape := m0.tape[0 := 1]);
    var m2 := m1.(ip := 2, tape := m1.tape[0 := 2]);
    var m3 := m2.(ip := 3, tape := m2.tape[0 := 3]);
    assert Step(prog, m0) == StepResult(Continue, m1);
    assert Step(prog, m1) == StepResult(Continue, m2);
    assert Step(prog, m2) == StepResult(Continue, m3);
    assert Run(prog, m2, 1) == Run(prog, m3, 0);
    assert Run(prog, m1, 2) == Run(prog, m2, 1);
    assert Run(prog, m0, 3) == StepResult(Continue, m3);
    RunSplit(prog, m0, 3, 7);
    ClearLoopRunsCellTimes(prog, m3, 3, 3);
  }
}
