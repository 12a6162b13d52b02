/**
 * The Brainfuck execution loop (interpret in bf.py).
 *
 * The machine owns a zero-initialised tape of byte cells, a memory pointer
 * mp and an instruction pointer ip. Each step dispatches on the character at
 * ip, and the loop runs while ip is inside the program. The input stream is
 * a sequence of character codes consumed from the front and the output
 * stream a sequence of bytes appended to at the back.
 *
 * Step is the single-step semantics, Run iterates it for at most a given
 * number of steps (the fuel) and Execute is the whole call; the method
 * Interpret is the loop over a mutable tape, proved equal to Execute.
 */
module Interpreter {
  import opened Brackets

  /** The value of one tape cell. */
  type Byte = x: int | 0 <= x < 256

  /** The ways a run can abort. */
  datatype Fault =
    | NegativeMemorySize            // the tape cannot be allocated with a negative size
    | BadBrackets(error: BracketError) // the jump table could not be built
    | OutOfMemory                   // '>' with the pointer already at memory_size
    | PointerUnderflow              // '<' with the pointer at cell 0
    | CellOutOfRange                // a cell access with the pointer at memory_size
    | NotAByte                      // ',' read a character whose code does not fit a cell

  /** The faults a running program can raise, as opposed to those raised before the first step. */
  predicate IsRunTimeFault(f: Fault) {
    f.OutOfMemory? || f.PointerUnderflow? || f.CellOutOfRange? || f.NotAByte?
  }

  /** The machine between two steps. */
  datatype State = State(mem: seq<Byte>, mp: nat, ip: nat, input: seq<nat>, output: seq<Byte>)

  datatype Option<T> = None | Some(value: T)

  datatype StepResult = Next(next: State) | Raised(fault: Fault)

  /** How a run ends: past the last instruction, on a fault, or with its step budget spent. */
  datatype Outcome =
    | Halted(final: State)
    | Failed(fault: Fault, written: seq<Byte>)
    | OutOfFuel(current: State)
  {
    /** Everything written to the output stream during the run. */
    function Output(): seq<Byte> {
      match this
      case Halted(s) => s.output
      case Failed(_, written) => written
      case OutOfFuel(s) => s.output
    }
  }

  /**
   * What the loop needs of the jump table: every bracket has an entry, a
   * '[' jumps forward inside the program and a ']' jumps backward. Every
   * table built by the resolver has this shape (JumpTableTargets).
   */
  ghost predicate JumpTargets(p: string, t: JumpTable) {
    && (forall i: nat :: i < |p| && p[i] == '[' ==> i in t.openToClose && i < t.openToClose[i] < |p|)
    && (forall i: nat :: i < |p| && p[i] == ']' ==> i in t.closeToOpen && t.closeToOpen[i] < i)
  }

  /** A resolved table sends every bracket forward or backward to a position inside the program. */
  lemma JumpTableTargets(p: string, t: JumpTable)
    requires IsJumpTable(p, t)
    ensures JumpTargets(p, t)
  {
    forall i: nat | i < |p| && p[i] == ']'
      ensures t.closeToOpen[i] < i
    {
      assert Matches(p, t.closeToOpen[i], t.openToClose[t.closeToOpen[i]]);
    }
  }

  /** The eight characters the loop dispatches on; every other one is a no-op. */
  predicate IsCommand(c: char) {
    c == '>' || c == '<' || c == '+' || c == '-' || c == '.' || c == ',' || c == '[' || c == ']'
  }

  /** The state invariant of the loop: the pointers stay within their ranges. */
  ghost predicate Valid(p: string, t: JumpTable, size: nat, s: State) {
    && JumpTargets(p, t)
    && |s.mem| == size
    && s.mp <= size
    && s.ip <= |p|
  }

  /** The tape and pointers before the first instruction. */
  function Initial(size: nat, input: seq<nat>): (r: State)
    ensures |r.mem| == size && forall k :: 0 <= k < size ==> r.mem[k] == 0
    ensures r.mp == 0 && r.ip == 0 && r.input == input && r.output == []
  {
    State(seq(size, _ => 0 as Byte), 0, 0, input, [])
  }

  /** One iteration of the loop body, including the final advance of ip. */
  function Step(p: string, t: JumpTable, size: nat, s: State): (r: StepResult)
    requires Valid(p, t, size, s) && s.ip < |p|
    ensures r.Next? ==> Valid(p, t, size, r.next)
    ensures r.Next? ==> s.output <= r.next.output && |r.next.output| <= |s.output| + 1
    ensures r.Raised? ==> IsRunTimeFault(r.fault)
    ensures !IsCommand(p[s.ip]) ==> r == Next(s.(ip := s.ip + 1))
  {
    var op := p[s.ip];
    if op == '>' then
      if s.mp == size then Raised(OutOfMemory) else Next(s.(mp := s.mp + 1, ip := s.ip + 1))
    else if op == '<' then
      if s.mp == 0 then Raised(PointerUnderflow) else Next(s.(mp := s.mp - 1, ip := s.ip + 1))
    else if op == '+' then
      if s.mp == size then Raised(CellOutOfRange)
      else Next(s.(mem := s.mem[s.mp := (s.mem[s.mp] as int + 1) % 256], ip := s.ip + 1))
    else if op == '-' then
      if s.mp == size then Raised(CellOutOfRange)
      else Next(s.(mem := s.mem[s.mp := (s.mem[s.mp] as int - 1) % 256], ip := s.ip + 1))
    else if op == '.' then
      if s.mp == size then Raised(CellOutOfRange)
      else Next(s.(output := s.output + [s.mem[s.mp]], ip := s.ip + 1))
    else if op == ',' then
      if |s.input| == 0 then Next(s.(ip := s.ip + 1))
      else if s.mp == size then Raised(CellOutOfRange)
      else if s.input[0] >= 256 then Raised(NotAByte)
      else Next(s.(mem := s.mem[s.mp := s.input[0]], input := s.input[1..], ip := s.ip + 1))
    else if op == '[' then
      if s.mp == size then Raised(CellOutOfRange)
      else if s.mem[s.mp] == 0 then Next(s.(ip := t.openToClose[s.ip] + 1))
      else Next(s.(ip := s.ip + 1))
    else if op == ']' then
      if s.mp == size then Raised(CellOutOfRange)
      else if s.mem[s.mp] != 0 then Next(s.(ip := t.closeToOpen[s.ip] + 1))
      else Next(s.(ip := s.ip + 1))
    else
      Next(s.(ip := s.ip + 1))
  }

  /** The loop, run for at most fuel iterations. */
  function Run(p: string, t: JumpTable, size: nat, s: State, fuel: nat): (r: Outcome)
    requires Valid(p, t, size, s)
    ensures r.Halted? ==> Valid(p, t, size, r.final) && r.final.ip == |p|
    ensures r.OutOfFuel? ==> Valid(p, t, size, r.current) && r.current.ip < |p|
    ensures r.Failed? ==> IsRunTimeFault(r.fault)
    ensures s.output <= r.Output()
    decreases fuel
  {
    if !(s.ip < |p|) then Halted(s)
    else if fuel == 0 then OutOfFuel(s)
    else
      match Step(p, t, size, s)
      case Raised(f) => Failed(f, s.output)
      case Next(s') => Run(p, t, size, s', fuel - 1)
  }

  /** The whole call: allocate the tape, resolve the brackets, run the loop. */
  function Execute(p: string, memorySize: int, input: seq<nat>, fuel: nat): (r: Outcome)
    ensures memorySize < 0 <==> r == Failed(NegativeMemorySize, [])
    ensures r.Halted? ==>
      r.final.ip == |p| && |r.final.mem| == memorySize && r.final.mp <= memorySize
  {
    if memorySize < 0 then Failed(NegativeMemorySize, [])
    else
      match Resolve(p)
      case Unresolved(e) => Failed(BadBrackets(e), [])
      case Resolved(t) =>
        JumpTableTargets(p, t);
        Run(p, t, memorySize, Initial(memorySize, input), fuel)
  }

  /** A well-formed program starts the loop on a zeroed tape with the resolver's table. */
  lemma ExecuteStartsLoop(p: string, memorySize: nat, input: seq<nat>, fuel: nat, t: JumpTable)
    requires Resolve(p) == Resolved(t)
    ensures JumpTargets(p, t)
    ensures Execute(p, memorySize, input, fuel) == Run(p, t, memorySize, Initial(memorySize, input), fuel)
  {
    JumpTableTargets(p, t);
  }

  /** '>' fails exactly when mp is at memory_size and '<' exactly when mp is 0; otherwise only mp moves. */
  lemma PointerMoves(p: string, t: JumpTable, size: nat, s: State)
    requires Valid(p, t, size, s) && s.ip < |p|
    requires p[s.ip] == '>' || p[s.ip] == '<'
    ensures var r := Step(p, t, size, s);
      && (p[s.ip] == '>' ==> (r.Raised? <==> s.mp == size))
      && (p[s.ip] == '<' ==> (r.Raised? <==> s.mp == 0))
      && (r.Raised? ==> r.fault == (if p[s.ip] == '>' then OutOfMemory else PointerUnderflow))
      && (r.Next? ==>
            && r.next.mp == (if p[s.ip] == '>' then s.mp + 1 else s.mp - 1)
            && r.next.mem == s.mem && r.next.input == s.input && r.next.output == s.output
            && r.next.ip == s.ip + 1)
  {
  }

  /**
   * '+' and '-' change only the current cell, by one modulo 256, and fail
   * only when mp is at memory_size.
   */
  lemma CellArithmetic(p: string, t: JumpTable, size: nat, s: State)
    requires Valid(p, t, size, s) && s.ip < |p|
    requires p[s.ip] == '+' || p[s.ip] == '-'
    ensures var r := Step(p, t, size, s);
      && (r.Raised? <==> s.mp == size)
      && (r.Raised? ==> r.fault == CellOutOfRange)
      && (r.Next? ==>
            && r.next.mem[s.mp] == (s.mem[s.mp] as int + (if p[s.ip] == '+' then 1 else -1)) % 256
            && |r.next.mem| == |s.mem|
            && (forall k :: 0 <= k < |s.mem| && k != s.mp ==> r.next.mem[k] == s.mem[k])
            && r.next.mp == s.mp && r.next.input == s.input && r.next.output == s.output
            && r.next.ip == s.ip + 1)
  {
  }

  /** '.' appends exactly the current cell to the output and changes no memory. */
  lemma WriteCell(p: string, t: JumpTable, size: nat, s: State)
    requires Valid(p, t, size, s) && s.ip < |p| && p[s.ip] == '.'
    ensures var r := Step(p, t, size, s);
      && (r.Raised? <==> s.mp == size)
      && (r.Raised? ==> r.fault == CellOutOfRange)
      && (r.Next? ==>
            && r.next.output == s.output + [s.mem[s.mp]]
            && r.next.mem == s.mem && r.next.mp == s.mp && r.next.input == s.input
            && r.next.ip == s.ip + 1)
  {
  }

  /**
   * ',' consumes one input character and stores its code in the current
   * cell; on exhausted input nothing but ip changes, even with mp at
   * memory_size, because the cell is never touched.
   */
  lemma ReadCell(p: string, t: JumpTable, size: nat, s: State)
    requires Valid(p, t, size, s) && s.ip < |p| && p[s.ip] == ','
    ensures var r := Step(p, t, size, s);
      && (|s.input| == 0 ==> r.Next? && r.next == s.(ip := s.ip + 1))
      && (|s.input| > 0 ==>
            && (r.Next? <==> s.mp < size && s.input[0] < 256)
            && (r == Raised(CellOutOfRange) <==> s.mp == size)
            && (r == Raised(NotAByte) <==> s.mp < size && s.input[0] >= 256)
            && (r.Next? ==>
                  && r.next.mem == s.mem[s.mp := s.input[0]]
                  && r.next.input == s.input[1..]
                  && r.next.mp == s.mp && r.next.output == s.output
                  && r.next.ip == s.ip + 1))
  {
  }

  /**
   * '[' fails only with the pointer at memory_size; on a zero cell it lands
   * just past its matching ']', on any other cell on the next instruction.
   */
  lemma JumpForward(p: string, t: JumpTable, size: nat, s: State)
    requires Valid(p, t, size, s) && IsJumpTable(p, t) && s.ip < |p| && p[s.ip] == '['
    ensures Step(p, t, size, s) == Raised(CellOutOfRange) <==> s.mp == size
    ensures s.mp < size && s.mem[s.mp] == 0 ==>
      && Step(p, t, size, s) == Next(s.(ip := t.openToClose[s.ip] + 1))
      && Matches(p, s.ip, t.openToClose[s.ip])
    ensures s.mp < size && s.mem[s.mp] != 0 ==> Step(p, t, size, s) == Next(s.(ip := s.ip + 1))
  {
  }

  /**
   * ']' fails only with the pointer at memory_size; on a nonzero cell it
   * lands just past its matching '[', on a zero cell on the next instruction.
   */
  lemma JumpBack(p: string, t: JumpTable, size: nat, s: State)
    requires Valid(p, t, size, s) && IsJumpTable(p, t) && s.ip < |p| && p[s.ip] == ']'
    ensures Step(p, t, size, s) == Raised(CellOutOfRange) <==> s.mp == size
    ensures s.mp < size && s.mem[s.mp] != 0 ==>
      && Step(p, t, size, s) == Next(s.(ip := t.closeToOpen[s.ip] + 1))
      && Matches(p, t.closeToOpen[s.ip], s.ip)
    ensures s.mp < size && s.mem[s.mp] == 0 ==> Step(p, t, size, s) == Next(s.(ip := s.ip + 1))
  {
  }

  /** One iteration of the loop: a run that does not stop here goes on from the next state. */
  lemma RunAdvances(p: string, t: JumpTable, size: nat, s: State, fuel: nat, s': State)
    requires Valid(p, t, size, s) && s.ip < |p| && fuel > 0
    requires Step(p, t, size, s) == Next(s')
    ensures Valid(p, t, size, s')
    ensures Run(p, t, size, s, fuel) == Run(p, t, size, s', fuel - 1)
  {
  }

  /** Reducing modulo 256 before adding k does not change the sum modulo 256. */
  lemma ModuloShift(m: int, k: int)
    ensures (m % 256 + k) % 256 == (m + k) % 256
  {
  }

  /** The state after adding k to the current cell, modulo 256, and moving ip forward by n. */
  function Advance(s: State, k: int, n: nat): (r: State)
    requires s.mp < |s.mem|
    ensures |r.mem| == |s.mem| && r.mp == s.mp && r.ip == s.ip + n
    ensures r.input == s.input && r.output == s.output
  {
    s.(mem := s.mem[s.mp := (s.mem[s.mp] as int + k) % 256], ip := s.ip + n)
  }

  /** Two advances in a row are one advance by the sums. */
  lemma AdvanceCompose(s: State, d: int, k: int, n: nat, total: int, steps: nat)
    requires s.mp < |s.mem| && total == d + k && steps == n + 1
    ensures Advance(Advance(s, d, 1), k, n) == Advance(s, total, steps)
  {
    ModuloShift(s.mem[s.mp] as int + d, k);
    assert Advance(Advance(s, d, 1), k, n).mem == Advance(s, total, steps).mem;
  }

  /** Exactly n iterations of the loop body, or None if the loop exits or raises before that. */
  function Steps(p: string, t: JumpTable, size: nat, s: State, n: nat): (r: Option<State>)
    requires Valid(p, t, size, s)
    ensures r.Some? ==> Valid(p, t, size, r.value)
    decreases n
  {
    if n == 0 then Some(s)
    else if s.ip >= |p| then None
    else match Step(p, t, size, s)
      case Raised(_) => None
      case Next(s') => Steps(p, t, size, s', n - 1)
  }

  /** Iterations that neither exit nor raise can be run ahead: the run continues from where they end. */
  lemma {:induction false} RunSteps(p: string, t: JumpTable, size: nat, s: State, fuel: nat, n: nat)
    requires Valid(p, t, size, s) && n <= fuel && Steps(p, t, size, s, n).Some?
    ensures Run(p, t, size, s, fuel) == Run(p, t, size, Steps(p, t, size, s, n).value, fuel - n)
    decreases n
  {
    if n > 0 {
      var s' := Step(p, t, size, s).next;
      RunAdvances(p, t, size, s, fuel, s');
      RunSteps(p, t, size, s', fuel - 1, n - 1);
      assert fuel - 1 - (n - 1) == fuel - n;
    }
  }

  /** A stretch of n '+' starting at ip leaves the state Advance(s, n, n). */
  lemma {:induction false} IncrementStretch(p: string, t: JumpTable, size: nat, s: State, n: nat)
    requires Valid(p, t, size, s) && s.mp < size
    requires s.ip + n <= |p| && forall k :: s.ip <= k < s.ip + n ==> p[k] == '+'
    ensures Steps(p, t, size, s, n) == Some(Advance(s, n, n))
    decreases n
  {
    if n > 0 {
      assert Step(p, t, size, s) == Next(Advance(s, 1, 1));
      IncrementStretch(p, t, size, Advance(s, 1, 1), n - 1);
      AdvanceCompose(s, 1, n - 1, n - 1, n, n);
    } else {
      assert Advance(s, n, n).mem == s.mem;
    }
  }

  /** A stretch of n '-' starting at ip leaves the state Advance(s, -n, n). */
  lemma {:induction false} DecrementStretch(p: string, t: JumpTable, size: nat, s: State, n: nat)
    requires Valid(p, t, size, s) && s.mp < size
    requires s.ip + n <= |p| && forall k :: s.ip <= k < s.ip + n ==> p[k] == '-'
    ensures Steps(p, t, size, s, n) == Some(Advance(s, -(n as int), n))
    decreases n
  {
    if n > 0 {
      assert Step(p, t, size, s) == Next(Advance(s, -1, 1));
      DecrementStretch(p, t, size, Advance(s, -1, 1), n - 1);
      AdvanceCompose(s, -1, -((n - 1) as int), n - 1, -(n as int), n);
    } else {
      assert Advance(s, -(n as int), n).mem == s.mem;
    }
  }

  /**
   * A stretch of n '+' starting at ip adds n to the current cell, modulo
   * 256, and moves ip past the stretch; nothing else changes.
   */
  lemma IncrementsAccumulate(p: string, t: JumpTable, size: nat, s: State, fuel: nat, n: nat)
    requires Valid(p, t, size, s) && s.mp < size
    requires s.ip + n <= |p| && forall k :: s.ip <= k < s.ip + n ==> p[k] == '+'
    requires n <= fuel
    ensures Valid(p, t, size, Advance(s, n, n))
    ensures Run(p, t, size, s, fuel) == Run(p, t, size, Advance(s, n, n), fuel - n)
  {
    IncrementStretch(p, t, size, s, n);
    RunSteps(p, t, size, s, fuel, n);
  }

  /**
   * A stretch of n '-' starting at ip subtracts n from the current cell,
   * modulo 256, and moves ip past the stretch; nothing else changes.
   */
  lemma DecrementsAccumulate(p: string, t: JumpTable, size: nat, s: State, fuel: nat, n: nat)
    requires Valid(p, t, size, s) && s.mp < size
    requires s.ip + n <= |p| && forall k :: s.ip <= k < s.ip + n ==> p[k] == '-'
    requires n <= fuel
    ensures Valid(p, t, size, Advance(s, -(n as int), n))
    ensures Run(p, t, size, s, fuel) == Run(p, t, size, Advance(s, -(n as int), n), fuel - n)
  {
    DecrementStretch(p, t, size, s, n);
    RunSteps(p, t, size, s, fuel, n);
  }

  /** A stretch of 256 '+' anywhere in a program gives the cell back its value: only ip has moved. */
  lemma IncrementWrapsAround(p: string, t: JumpTable, size: nat, s: State, fuel: nat)
    requires Valid(p, t, size, s) && s.mp < size
    requires s.ip + 256 <= |p| && forall k :: s.ip <= k < s.ip + 256 ==> p[k] == '+'
    requires 256 <= fuel
    ensures Valid(p, t, size, s.(ip := s.ip + 256))
    ensures Run(p, t, size, s, fuel) == Run(p, t, size, s.(ip := s.ip + 256), fuel - 256)
  {
    IncrementsAccumulate(p, t, size, s, fuel, 256);
    assert Advance(s, 256, 256).mem == s.mem;
  }

  /** A stretch of 256 '-' anywhere in a program gives the cell back its value: only ip has moved. */
  lemma DecrementWrapsAround(p: string, t: JumpTable, size: nat, s: State, fuel: nat)
    requires Valid(p, t, size, s) && s.mp < size
    requires s.ip + 256 <= |p| && forall k :: s.ip <= k < s.ip + 256 ==> p[k] == '-'
    requires 256 <= fuel
    ensures Valid(p, t, size, s.(ip := s.ip + 256))
    ensures Run(p, t, size, s, fuel) == Run(p, t, size, s.(ip := s.ip + 256), fuel - 256)
  {
    DecrementsAccumulate(p, t, size, s, fuel, 256);
    assert Advance(s, -256, 256).mem == s.mem;
  }

  /** Fuel only bounds the run: a run that ended within some fuel ends the same way with more. */
  lemma {:induction false} MoreFuelSameEnd(p: string, t: JumpTable, size: nat, s: State, fuel: nat, more: nat)
    requires Valid(p, t, size, s) && fuel <= more
    requires !Run(p, t, size, s, fuel).OutOfFuel?
    ensures Run(p, t, size, s, more) == Run(p, t, size, s, fuel)
    decreases fuel
  {
    if s.ip < |p| && fuel > 0 {
      var r := Step(p, t, size, s);
      if r.Next? {
        MoreFuelSameEnd(p, t, size, r.next, fuel - 1, more - 1);
      }
    }
  }

  /**
   * A malformed program never executes an instruction: the call fails with
   * a bracket error and writes nothing exactly when the program's brackets
   * are not balanced, and the error is the resolver's verdict.
   */
  lemma BadBracketsStopBeforeRunning(p: string, memorySize: int, input: seq<nat>, fuel: nat)
    requires memorySize >= 0
    ensures var r := Execute(p, memorySize, input, fuel);
      && (r.Failed? && r.fault.BadBrackets? && r.written == [] <==> !Balanced(p))
      && (r.Failed? && r.fault.BadBrackets? ==> r.written == [])
      && (r == Failed(BadBrackets(UnmatchedClose), []) <==>
            exists i :: 0 <= i <= |p| && Count(p[..i], '[') < Count(p[..i], ']'))
      && (r == Failed(BadBrackets(UnmatchedOpen), []) <==>
            && (forall i :: 0 <= i <= |p| ==> Count(p[..i], '[') >= Count(p[..i], ']'))
            && Count(p, '[') != Count(p, ']'))
  {
    ResolveVerdict(p);
  }

  /**
   * One pass of the loop body of bf.py:29-56 on the tape in place. It
   * returns Some(f) when the instruction raises f, and otherwise None with
   * the new pointers and streams.
   */
  method StepInPlace(program: string, ghost t: JumpTable, closing: map<nat, nat>, opening: map<nat, nat>,
                     mem: array<Byte>, mp: nat, ip: nat, pending: seq<nat>, output: seq<Byte>)
    returns (fault: Option<Fault>, mp': nat, ip': nat, pending': seq<nat>, output': seq<Byte>)
    requires closing == t.openToClose && opening == t.closeToOpen
    requires Valid(program, t, mem.Length, State(mem[..], mp, ip, pending, output)) && ip < |program|
    modifies mem
    ensures fault.Some? ==>
      Step(program, t, mem.Length, old(State(mem[..], mp, ip, pending, output))) == Raised(fault.value)
    ensures fault.None? ==>
      Step(program, t, mem.Length, old(State(mem[..], mp, ip, pending, output)))
        == Next(State(mem[..], mp', ip', pending', output'))
  {
    fault, mp', ip', pending', output' := None, mp, ip + 1, pending, output;
    var op := program[ip];
    if op == '>' {
      if mp == mem.Length {
        fault := Some(OutOfMemory);
      } else {
        mp' := mp + 1;
      }
    } else if op == '<' {
      if mp == 0 {
        fault := Some(PointerUnderflow);
      } else {
        mp' := mp - 1;
      }
    } else if op == '+' || op == '-' || op == '.' {
      if mp == mem.Length {
        fault := Some(CellOutOfRange);
      } else if op == '+' {
        mem[mp] := (mem[mp] as int + 1) % 256;
      } else if op == '-' {
        mem[mp] := (mem[mp] as int - 1) % 256;
      } else {
        output' := output + [mem[mp]];
      }
    } else if op == ',' {
      if |pending| > 0 {
        var ch := pending[0];
        pending' := pending[1..];
        if mp == mem.Length {
          fault := Some(CellOutOfRange);
        } else if ch >= 256 {
          fault := Some(NotAByte);
        } else {
          mem[mp] := ch;
        }
      }
    } else if op == '[' || op == ']' {
      if mp == mem.Length {
        fault := Some(CellOutOfRange);
      } else if op == '[' && mem[mp] == 0 {
        ip' := closing[ip] + 1;
      } else if op == ']' && mem[mp] != 0 {
        ip' := opening[ip] + 1;
      }
    }
  }

  /**
   * The while loop of bf.py:28-56 over a tape updated in place, for at most
   * fuel iterations, starting with both pointers at 0 and nothing written.
   */
  method RunLoop(program: string, ghost t: JumpTable, closing: map<nat, nat>, opening: map<nat, nat>,
                 mem: array<Byte>, input: seq<nat>, fuel: nat) returns (r: Outcome)
    requires closing == t.openToClose && opening == t.closeToOpen
    requires JumpTargets(program, t)
    modifies mem
    ensures r == Run(program, t, mem.Length, old(State(mem[..], 0, 0, input, [])), fuel)
    ensures r.Halted? ==> mem[..] == r.final.mem
    ensures r.OutOfFuel? ==> mem[..] == r.current.mem
  {
    var ip: nat, mp: nat := 0, 0;
    var pending: seq<nat>, output: seq<Byte> := input, [];
    var steps: nat := 0;
    ghost var current := State(mem[..], mp, ip, pending, output);
    while ip < |program|
      invariant current == State(mem[..], mp, ip, pending, output)
      invariant Valid(program, t, mem.Length, current)
      invariant steps <= fuel
      invariant Run(program, t, mem.Length, old(State(mem[..], 0, 0, input, [])), fuel)
                  == Run(program, t, mem.Length, current, fuel - steps)
      decreases fuel - steps
    {
      if steps == fuel {
        return OutOfFuel(State(mem[..], mp, ip, pending, output));
      }
      var written := output;
      var fault;
      fault, mp, ip, pending, output := StepInPlace(program, t, closing, opening, mem, mp, ip, pending, output);
      if fault.Some? {
        return Failed(fault.value, written);
      }
      RunAdvances(program, t, mem.Length, current, fuel - steps, State(mem[..], mp, ip, pending, output));
      current := State(mem[..], mp, ip, pending, output);
      steps := steps + 1;
    }
    return Halted(State(mem[..], mp, ip, pending, output));
  }

  /**
   * The interpreter as written in bf.py:23-56: allocate the tape, resolve
   * the brackets, then run the loop, bounded here by fuel.
   */
  method Interpret(program: string, memorySize: int, input: seq<nat>, fuel: nat) returns (r: Outcome)
    ensures r == Execute(program, memorySize, input, fuel)
  {
    if memorySize < 0 {
      return Failed(NegativeMemorySize, []);
    }
    var mem := new Byte[memorySize](_ => 0);
    var resolution := FindBrackets(program);
    if resolution.Unresolved? {
      return Failed(BadBrackets(resolution.error), []);
    }
    ExecuteStartsLoop(program, memorySize, input, fuel, resolution.table);
    assert mem[..] == Initial(memorySize, input).mem;
    r := RunLoop(program, resolution.table, resolution.table.openToClose, resolution.table.closeToOpen, mem, input, fuel);
  }
}
