/**
 * Whole runs of small programs, computed from the model: the behaviours a
 * user of the interpreter would check first.
 */
module Examples {
  import opened Brackets
  import opened Interpreter

  /** "++." on a tape of at least one cell writes the single byte 2. */
  lemma PlusPlusDotWritesTwo(memorySize: nat, input: seq<nat>)
    requires memorySize >= 1
    ensures var r := Execute("++.", memorySize, input, 3);
      r.Halted? && r.Output() == [2]
  {
  }

  /** ",." echoes its one input character exactly once. */
  lemma EchoOneCharacter(memorySize: nat)
    requires memorySize >= 1
    ensures var r := Execute(",.", memorySize, [65], 2);
      r.Halted? && r.Output() == [65] && r.final.input == []
  {
  }

  /** The resolver pairs the brackets of "+[-]" at 1 and 3. */
  lemma IncrementThenClearBrackets()
    ensures Resolve("+[-]") == Resolved(JumpTable(map[1 := 3], map[3 := 1]))
  {
    var p := "+[-]";
    assert Scan(p, 2) == Scanning([1], map[], map[]);
    assert Scan(p, 4) == Scanning([], map[1 := 3], map[3 := 1]);
  }

  /** The run of "+[-]" with any table that sends its '[' to 3 and its ']' to 1. */
  lemma IncrementThenClearRun(p: string, t: JumpTable, memorySize: nat, input: seq<nat>)
    requires p == "+[-]" && memorySize >= 1
    requires JumpTargets(p, t) && t.openToClose[1] == 3 && t.closeToOpen[3] == 1
    ensures Run(p, t, memorySize, Initial(memorySize, input), 4)
      == Halted(Initial(memorySize, input).(ip := 4))
  {
    var s0 := Initial(memorySize, input);
    var s1 := s0.(mem := s0.mem[0 := 1], ip := 1);
    var s2 := s1.(ip := 2);
    var s3 := s1.(mem := s0.mem, ip := 3);
    var s4 := s3.(ip := 4);
    RunAdvances(p, t, memorySize, s0, 4, s1);
    RunAdvances(p, t, memorySize, s1, 3, s2);
    RunAdvances(p, t, memorySize, s2, 2, s3);
    RunAdvances(p, t, memorySize, s3, 1, s4);
  }

  /** "+[-]" sets the cell to 1, clears it in one pass of the loop and writes nothing. */
  lemma IncrementThenClear(memorySize: nat, input: seq<nat>)
    requires memorySize >= 1
    ensures var r := Execute("+[-]", memorySize, input, 4);
      r.Halted? && r.final.mem[0] == 0 && r.final.ip == 4 && r.Output() == []
  {
    var t := JumpTable(map[1 := 3], map[3 := 1]);
    IncrementThenClearBrackets();
    ExecuteStartsLoop("+[-]", memorySize, input, 4, t);
    IncrementThenClearRun("+[-]", t, memorySize, input);
  }

  /** The resolver pairs the brackets of "++[-]" at 2 and 4. */
  lemma CountDownBrackets()
    ensures Resolve("++[-]") == Resolved(JumpTable(map[2 := 4], map[4 := 2]))
  {
    var p := "++[-]";
    assert Scan(p, 3) == Scanning([2], map[], map[]);
    assert Scan(p, 5) == Scanning([], map[2 := 4], map[4 := 2]);
  }

  /** "++" of "++[-]" sets the cell to 2. */
  lemma CountDownSetup(p: string, t: JumpTable, size: nat, s: State, fuel: nat)
    requires p == "++[-]" && Valid(p, t, size, s) && fuel >= 2
    requires s.ip == 0 && s.mp == 0 < size && s.mem[0] == 0
    ensures Run(p, t, size, s, fuel) == Run(p, t, size, s.(mem := s.mem[0 := 2], ip := 2), fuel - 2)
  {
    IncrementsAccumulate(p, t, size, s, fuel, 2);
    assert Advance(s, 2, 2) == s.(mem := s.mem[0 := 2], ip := 2);
  }

  /** The first pass of "++[-]" up to its ']': the '[' falls through and the cell goes down to 1. */
  lemma CountDownFirstPass(p: string, t: JumpTable, size: nat, s: State, fuel: nat)
    requires p == "++[-]" && Valid(p, t, size, s) && t.openToClose[2] == 4 && fuel >= 2
    requires s.ip == 2 && s.mp == 0 < size && s.mem[0] == 2
    ensures Run(p, t, size, s, fuel) == Run(p, t, size, s.(mem := s.mem[0 := 1], ip := 4), fuel - 2)
  {
    var s3 := s.(ip := 3);
    RunAdvances(p, t, size, s, fuel, s3);
    RunAdvances(p, t, size, s3, fuel - 1, s.(mem := s.mem[0 := 1], ip := 4));
  }

  /**
   * The ']' on a nonzero cell jumps back to the '-'; in the second pass the
   * ']' on a zero cell falls through and the run ends.
   */
  lemma CountDownSecondPass(p: string, t: JumpTable, size: nat, s: State, fuel: nat)
    requires p == "++[-]" && Valid(p, t, size, s) && t.closeToOpen[4] == 2 && fuel >= 3
    requires s.ip == 4 && s.mp == 0 < size && s.mem[0] == 1
    ensures Run(p, t, size, s, fuel) == Halted(s.(mem := s.mem[0 := 0], ip := 5))
  {
    var s3 := s.(ip := 3);
    var s4 := s.(mem := s.mem[0 := 0], ip := 4);
    RunAdvances(p, t, size, s, fuel, s3);
    RunAdvances(p, t, size, s3, fuel - 1, s4);
    RunAdvances(p, t, size, s4, fuel - 2, s4.(ip := 5));
  }

  /** The run of "++[-]" from a zero cell with any table that pairs its brackets at 2 and 4. */
  lemma CountDownRun(p: string, t: JumpTable, size: nat, s: State, fuel: nat)
    requires p == "++[-]" && Valid(p, t, size, s) && t.openToClose[2] == 4 && t.closeToOpen[4] == 2
    requires s.ip == 0 && s.mp == 0 < size && s.mem[0] == 0 && fuel >= 7
    ensures Run(p, t, size, s, fuel) == Halted(s.(ip := 5))
  {
    var s2 := s.(mem := s.mem[0 := 2], ip := 2);
    var s4 := s.(mem := s.mem[0 := 1], ip := 4);
    CountDownSetup(p, t, size, s, fuel);
    CountDownFirstPass(p, t, size, s2, fuel - 2);
    assert s2.mem[0 := 1] == s4.mem;
    CountDownSecondPass(p, t, size, s4, fuel - 4);
    assert s4.mem[0 := 0] == s.mem;
  }

  /** "++[-]" runs its loop body twice, jumping back once, and leaves the cell at 0. */
  lemma CountDown(memorySize: nat, input: seq<nat>)
    requires memorySize >= 1
    ensures var r := Execute("++[-]", memorySize, input, 7);
      r.Halted? && r.final.mem[0] == 0 && r.final.ip == 5 && r.Output() == []
  {
    var t := JumpTable(map[2 := 4], map[4 := 2]);
    CountDownBrackets();
    ExecuteStartsLoop("++[-]", memorySize, input, 7, t);
    CountDownRun("++[-]", t, memorySize, Initial(memorySize, input), 7);
  }
}
