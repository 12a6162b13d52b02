# A verified model of the bf.py Brainfuck interpreter

bf.py runs Brainfuck programs. The model covers its two parts.

`find_brackets` pairs every `[` with its `]`. It makes one pass with a stack of pending `[` positions and fills two dictionaries: open-to-close and close-to-open. It raises "Unmatched ]" when a `]` finds the stack empty, and "Unmatched [" when a `[` is still pending at the end.

`interpret` allocates a zeroed byte tape of `memory_size` cells and resolves the brackets. It then loops while the instruction pointer `ip` is inside the program, dispatching on one character per iteration:

- `>` and `<` move the memory pointer `mp`, with bounds checks.
- `+` and `-` change the current cell modulo 256.
- `.` writes the cell.
- `,` reads one character into it. At end of input the cell is left as it is.
- `[` and `]` jump to the partner bracket when the cell is zero or nonzero respectively.
- Every other character is a no-op.

After each instruction, `ip` moves one step forward.

The Dafny project has three modules.

- `Brackets` (brackets.dfy) models the resolver.
  - `Scan` is the resolver's loop state after a prefix, and `Resolve` is its result.
  - `FindBrackets` is the loop itself, with a stack and two maps updated in place, proved equal to `Resolve`.
  - The meaning of a result is stated with prefix depths. `Depth(p, i)` is the number of `[` minus the number of `]` in `p[..i]`.
  - `Matches(p, o, c)` is the well-nested partner relation.
  - `IsJumpTable` says that the two maps are inverse to each other, that their domains are exactly the bracket positions, and that every entry is a partner pair.
- `Interpreter` (interpreter.dfy) models the execution loop.
  - `Step` is one iteration over a `State` record: tape, `mp`, `ip`, pending input and output written so far.
  - `Run` iterates `Step` for at most `fuel` iterations, and `Execute` is the whole call.
  - The method `Interpret` works on an `array` tape and is proved equal to `Execute`.
  - Every exception raised by the interpreter's own checks and by its cell accesses is a `Fault` value.
- `Examples` (examples.dfy) holds whole runs of small programs.

## Model

| member | source | states |
|---|---|---|
| Brackets.FindBrackets | bf.py:4-20 | The in-place loop with a stack and two maps returns exactly `Resolve(program)`. On success its maps form a jump table for the program. |
| Brackets.Resolve | bf.py:4-20 | On success, the two maps are inverse to each other. Their domains are exactly the positions of `[` and of `]`. Every entry pairs a `[` with the `]` that closes it, with `o < c`. |
| Brackets.ScanStep | bf.py:9-17 | One character of the scan stops it exactly on a `]` that finds the stack empty (or once it has stopped). Otherwise the stack height changes by the character's effect on the depth: +1 for `[`, -1 for `]`, 0 for anything else. |
| Brackets.Scan | bf.py:8-17 | While the scan of the first n characters has not stopped, the stack holds exactly as many entries as the depth of that prefix. |
| Brackets.ScanStepSound | bf.py:9-17 | One character of the scan keeps the scan invariant (as stated for `ScanSound`). |
| Brackets.ScanSound | bf.py:8-17 | Every loop state the resolver reaches satisfies the scan invariant. The stack holds the still-open `[` positions in increasing order, each at its own depth. The maps hold exactly the pairs closed so far, inverse to each other and each a partner pair. No prefix has gone negative. |
| Brackets.StoppedStaysStopped | bf.py:11-15 | Once a `]` has found the stack empty, the resolution has failed whatever follows. |
| Brackets.ScanStoppedIff | bf.py:11-15 | The scan of the first n characters stops on an unmatched `]` exactly when some prefix of them has depth below zero. |
| Brackets.DepthIsCountDifference | bf.py:9-13 | The depth of a prefix is its count of `[` minus its count of `]`. |
| Brackets.ResolveVerdict | bf.py:11-19 | The resolver fails with "Unmatched ]" iff some prefix has more `]` than `[`. Otherwise it fails with "Unmatched [" iff the totals differ. It succeeds iff the program is balanced. All three are stated both ways. |
| Brackets.MatchesUniqueClose | bf.py:9-17 | A `[` has at most one partner `]`. |
| Brackets.MatchesUniqueOpen | bf.py:9-17 | A `]` has at most one partner `[`. |
| Brackets.JumpTableIsTheMatching | bf.py:13-17 | In a jump table, `openToClose[o] == c` holds exactly when `o` and `c` are partners, in both directions. |
| Brackets.NoCrossing | bf.py:9-17 | Pairs never cross: a pair that opens strictly inside another pair also closes strictly inside it. |
| Brackets.BalancedBetween | bf.py:13-17 | The text strictly between two partner brackets is itself balanced. |
| Interpreter.JumpTableTargets | bf.py:48-53 | Every `[` of a resolved program has a target strictly after it and inside the program. Every `]` has a target strictly before it. |
| Interpreter.Initial | bf.py:24-26 | The machine starts with a tape of `memory_size` cells that are all 0, `ip` and `mp` at 0, all input pending and nothing written. |
| Interpreter.Step | bf.py:29-56 | One iteration keeps `0 <= mp <= memory_size`, `ip <= len(program)` and the tape size. It only appends to the output, at most one byte. Its faults are the run-time ones. A character other than the eight commands only moves `ip` forward. |
| Interpreter.Run | bf.py:28-56 | The loop exits normally only with `ip == len(program)`. A run cut short by fuel stops inside the program. The output only grows. |
| Interpreter.Execute | bf.py:23-56 | The call fails with the negative-size error, writing nothing, exactly when `memory_size < 0`. A normal end leaves `ip == len(program)`, a tape of `memory_size` cells and `mp <= memory_size`. |
| Interpreter.ExecuteStartsLoop | bf.py:24-28 | A well-formed program starts the loop with a zeroed tape, both pointers at 0, all the input pending and the resolver's table. |
| Interpreter.PointerMoves | bf.py:30-37 | `>` raises iff `mp == memory_size`, and then with `OutOfMemory`. `<` raises iff `mp == 0`, and then with `PointerUnderflow`. Otherwise `mp` moves by one and nothing else but `ip` changes. |
| Interpreter.CellArithmetic | bf.py:38-41 | `+` and `-` set the current cell to `(cell ± 1) % 256`. They leave every other cell, `mp`, the input and the output unchanged. They fail iff `mp == memory_size`. |
| Interpreter.WriteCell | bf.py:42-43 | `.` appends exactly the current cell to the output and changes no memory. It fails iff `mp == memory_size`. |
| Interpreter.ReadCell | bf.py:44-47 | `,` with input pending succeeds exactly when `mp < memory_size` and the code is at most 255. It then consumes one character and stores its code in the current cell. It fails with `CellOutOfRange` exactly on the pointer at `memory_size`, and with `NotAByte` exactly on a code above 255 otherwise. At end of input nothing but `ip` changes. |
| Interpreter.JumpForward | bf.py:48-50 | `[` on a zero cell sets `ip` just past its partner `]` and changes nothing else. On a nonzero cell it moves to the next instruction. It fails iff `mp == memory_size`. |
| Interpreter.JumpBack | bf.py:51-53 | `]` on a nonzero cell sets `ip` just past its partner `[` and changes nothing else. On a zero cell it moves to the next instruction. It fails iff `mp == memory_size`. |
| Interpreter.RunAdvances | bf.py:28-56 | An iteration that does not raise keeps the loop invariant, and the run continues from the new state with one unit less fuel. |
| Interpreter.RunSteps | bf.py:28-56 | Iterations that neither leave the loop nor raise can be run ahead: the run from the state they reach, with that much less fuel, ends exactly as the whole run does. |
| Interpreter.IncrementStretch | bf.py:38-39 | With `mp < memory_size`, n iterations over a stretch of n `+` starting at `ip` add n to the current cell, modulo 256, and move `ip` past the stretch. Nothing else changes. |
| Interpreter.DecrementStretch | bf.py:40-41 | With `mp < memory_size`, n iterations over a stretch of n `-` starting at `ip` subtract n from the current cell, modulo 256, and move `ip` past the stretch. Nothing else changes. |
| Interpreter.IncrementsAccumulate | bf.py:38-39 | With `mp < memory_size`, a stretch of n `+` anywhere in a program, run with at least n fuel, has the effect of one addition of n modulo 256. The run continues from there with n less fuel and ends as the original run does. |
| Interpreter.DecrementsAccumulate | bf.py:40-41 | With `mp < memory_size`, a stretch of n `-` anywhere in a program, run with at least n fuel, has the effect of one subtraction of n modulo 256. The run continues from there with n less fuel and ends as the original run does. |
| Interpreter.IncrementWrapsAround | bf.py:38-39 | With `mp < memory_size`, a stretch of 256 `+` anywhere in a program restores the cell. The run continues with only `ip` moved past the stretch. |
| Interpreter.DecrementWrapsAround | bf.py:40-41 | With `mp < memory_size`, a stretch of 256 `-` anywhere in a program restores the cell. The run continues with only `ip` moved past the stretch. |
| Interpreter.MoreFuelSameEnd | bf.py:28 | The fuel only bounds the loop: a run that ended within some fuel ends the same way with more. |
| Interpreter.BadBracketsStopBeforeRunning | bf.py:24-27 | For `memory_size >= 0`, the call fails with a bracket error and writes nothing exactly when the program is not balanced. A bracket error never comes with output. "Unmatched ]" is reported exactly when some prefix has more `]` than `[`. "Unmatched [" is reported exactly when no prefix does but the totals differ. |
| Interpreter.StepInPlace | bf.py:29-56 | One pass of the loop body over the array tape returns `Some` of exactly the fault `Step` raises. Otherwise it returns `None` and leaves exactly the state `Step` gives, tape included. |
| Interpreter.RunLoop | bf.py:28-56 | The while loop over the array tape returns exactly what `Run` gives from both pointers at 0 and nothing written. When the run halts or runs out of fuel, the array holds exactly the tape of the final state. |
| Interpreter.Interpret | bf.py:23-56 | The whole imperative call returns exactly `Execute(program, memory_size, input, fuel)`. |
| Examples.PlusPlusDotWritesTwo | bf.py:38-43 | On a tape of at least one cell, `++.` halts within 3 iterations having written exactly the byte 2. |
| Examples.EchoOneCharacter | bf.py:42-47 | On a tape of at least one cell, `,.` with the single input code 65 halts having written 65, with the input consumed. |
| Examples.IncrementThenClear | bf.py:38-53 | On a tape of at least one cell, `+[-]` halts within 4 iterations with cell 0 cleared in one pass of the loop and nothing written. |
| Examples.CountDown | bf.py:38-53 | On a tape of at least one cell, `++[-]` halts within 7 iterations with cell 0 at 0 and nothing written: its body runs twice, with one jump back from `]`. |

## Left out

- I/O: the input and output streams are sequences. The input is a sequence of character codes consumed from the front. The output is a sequence of byte values appended at the back; `chr` and the text encoding of the stream are not modelled.
- `sys.stdin`/`sys.stdout` and the default `memory_size=30000`: every call takes its memory size and input explicitly.
- Termination: a Brainfuck program need not halt, so `Run`, `Execute`, `RunLoop` and `Interpret` take a fuel bound and report `OutOfFuel` when it is spent. The Python loop has no such bound.
- Exceptions: the exception classes and messages are `Fault` variants.
  - `NegativeMemorySize` is `bytearray` with a negative size.
  - `BadBrackets` is the two resolver errors.
  - `OutOfMemory` is the `MemoryError` on `>`.
  - `PointerUnderflow` is the `IndexError` on `<`.
  - `CellOutOfRange` is the `IndexError` on a cell access with `mp == memory_size`.
  - `NotAByte` is the `ValueError` on storing a code above 255.
  - A failed run keeps only the output written before the failure. What the Python streams hold afterwards is not modelled.
- Interpreter.Step: when `,` reads a code above 255 with `mp == memory_size`, the model reports `CellOutOfRange`. Which of the two errors CPython raises first depends on its version.
- Allocation failure: `bytearray(memory_size)` can raise `MemoryError` or `OverflowError` for a huge size. The model allocates any non-negative size.
- Stream errors: exceptions raised by `in_stream.read` or `out_stream.write` (closed streams, encoding errors) are not modelled. Reading and writing always succeed.
- Python's dynamic typing: a non-integer `memory_size` and non-string programs are not modelled.
- util.py (stream identity checks and closing), the command-line entry point of bf.py and its unused `debug` flag are not part of this model. They are I/O plumbing.
- A reusable engine object with separate load, step and unload operations does not exist in bf.py and is not part of this model.
