# A verified model of a Brainfuck interpreter

This project models the core of a small Brainfuck interpreter written in Go
(`main.go`). The interpreter has two parts, and the model has one module for
each:

- **`LoopResolver`** (`loop_resolver.dfy`) models `BuildLoopMap`. It scans
  the program once, from left to right, with an explicit stack of pending
  `[` positions. It returns either a two-way jump table between each `[` and
  its matching `]`, or an error:
  - `UnmatchedClose(i)` for the first `]` that has nothing to close;
  - `UnmatchedOpen(stack[0])` for the leftmost `[` still pending at the end.

  The scan is proved against a separate, declarative description of bracket
  structure. That description is built from the nesting depth of every
  prefix of the program (`Depth`). From it come `Matched`,
  `FirstExcessClose`, `OutermostUnclosed` and `IsJumpTable`.
- **`Engine`** (`engine.dfy`) models the interpreter state,
  `NewInterpreter` and `Execute`:
  - `Step` executes the instruction under the program counter. It returns
    either the next state or a memory fault carrying the reported pointer
    value.
  - `Run` repeats `Step` until the counter leaves the program, a pointer
    move faults, or a fuel bound is used up. Brainfuck programs need not
    terminate, which is why the fuel bound exists.
  - `Interpret` chains the three calls the command-line driver makes.

  Two details of the state:
  - Cells and input are 8-bit values (`uint8`), and `+`/`-` wrap modulo 256
    as Go's `byte` arithmetic does.
  - Output is kept in the state as the sequence of cell values `.` has
    written.
- **`Scenarios`** (`scenarios.dfy`) holds end-to-end runs of tiny programs:
  - an echo program;
  - a lone `[` and a lone `]`;
  - a `>` on a one-cell tape.
- **`PrintA`** (`print_a.dfy`) proves that the counted loop
  `++++++[>++++++++++<-]>+++++.` writes exactly the byte 65 (`A`). The proof
  works on any tape of at least two cells.

A Go map read at a missing key yields 0, and `Engine.Lookup` models this.
Once resolution has succeeded, every bracket has a table entry, so the
default is never used.

The program text is a `string`. The model reads each element as one byte of
the program, which is how `Execute` indexes it. `BuildLoopMap` instead
ranges over runes, but it reports the byte offset of each one. Brackets are
single ASCII bytes, so both views put every bracket at the same index.

## Model

| member | source | states |
|---|---|---|
| LoopResolver.BuildLoopMap | main.go:39-59 | The result is a jump table exactly when the program is properly nested. The table is defined on exactly the bracket positions and links each to its matched partner. Otherwise the error names the first `]` that closes more than was opened, or the outermost `[` left open. |
| LoopResolver.Scan | main.go:40-58 | From any position whose stack and partial table agree with the prefix depths, the rest of the scan ends in a correct resolution of the whole program. |
| LoopResolver.JumpTableIsInvolution | main.go:49-52 | Following a table entry twice returns to the start. A `[` maps forward to a `]`, and a `]` maps back to a `[`. |
| LoopResolver.MatchedIsOneToOne | main.go:49-52 | A bracket has at most one partner: two matched pairs share their `[` exactly when they share their `]`. |
| LoopResolver.MatchedEnclosesBalanced | main.go:43-52 | The text strictly between a matched `[` and `]` is itself properly nested. |
| LoopResolver.ResolvesIffBalanced | main.go:41-58 | Resolution succeeds if and only if no prefix closes more brackets than it opens and the whole program closes all it opens. |
| LoopResolver.UnmatchedCloseIffFirstExcess | main.go:45-48 | Resolution fails at the `]` at p if and only if p is the first position where the depth drops below zero. |
| LoopResolver.UnmatchedCloseIgnoresRest | main.go:41-48 | Once resolution fails at a `]` at p, replacing everything after p with any text gives the same error: no later character is examined. |
| LoopResolver.UnmatchedOpenIffOutermost | main.go:55-57 | Resolution fails at the `[` at p if and only if no prefix dips below zero, p opens at depth zero, and the depth never returns to zero after it. This makes p the leftmost `[` left open, the bottom of the stack. |
| Engine.WrapInc | main.go:88 | Incrementing a cell gives the old value plus one, modulo 256. |
| Engine.WrapDec | main.go:90 | Decrementing a cell gives the old value minus one, modulo 256. |
| Engine.CellArithmeticWraps | main.go:87-90 | 255 + 1 is 0 and 0 - 1 is 255, and increment and decrement undo each other. |
| Engine.NewInterpreter | main.go:27-36 | A fresh interpreter has a zeroed tape of exactly `memorySize` cells, every pointer at zero, no output, and satisfies the run invariant. |
| Engine.Step | main.go:75-114 | A step faults exactly when `>` would move the pointer to `memorySize` or beyond (reported as `Overflow(memorySize)`), or when `<` would move it below 0 (reported as `Underflow(-1)`). A fault leaves the output unchanged. A successful step keeps the invariant `0 <= ptr < memorySize`, `codePtr <= len(code)`, `inputPtr <= len(input)`. It changes neither the program, the input nor the table. It moves the pointer by at most one and changes no cell other than the current one. It consumes at most one input byte and appends at most one output byte. |
| Engine.Run | main.go:73-123 | The run halts normally exactly when the program counter has reached the end of the program. Every halted or suspended state satisfies the invariant and has only consumed input and appended output. A fault reports `Overflow(memorySize)` or `Underflow(-1)` and keeps all output written before it. |
| Engine.RunAfterStep | main.go:74-121 | A run with fuel left and a non-faulting instruction under the counter equals that instruction followed by the rest of the run. |
| Engine.RunFuelMonotone | main.go:74-122 | A run that halted or faulted gives the same result with any larger fuel: nothing executes after a fault or after the end of the program. |
| Engine.RunComposes | main.go:74-121 | Running until the fuel runs out and then resuming from the stopped state equals one run with the sum of the fuel. |
| Engine.CellOpsTouchOneCell | main.go:87-90 | `+` and `-` never fault. They change the current cell by plus or minus one modulo 256, leave every other cell and every other field alone, and advance the counter. |
| Engine.OutputAppendsCurrentCell | main.go:91-92 | `.` appends the current cell's value to the output and changes nothing else but the counter. |
| Engine.PointerMovesWithinTape | main.go:77-86 | `>` and `<` move the pointer by one when the new value is on the tape. Otherwise they fault with `Overflow(memorySize)` or `Underflow(-1)`. |
| Engine.InputReadsOrZeroes | main.go:93-99 | With input left, `,` copies the next input byte into the current cell and advances the cursor. With input exhausted, it stores 0 and leaves the cursor where it is. No other cell changes. |
| Engine.LoopEntryJumpsPastPartner | main.go:100-103 | With a resolved table, `[` on a zero cell resumes just past its matching `]`, and on a nonzero cell falls through. Only the counter changes. |
| Engine.LoopExitJumpsBack | main.go:104-107 | With a resolved table, `]` on a nonzero cell resumes at the first instruction of the loop body after its matching `[`, and on a zero cell falls through. Only the counter changes. |
| Engine.OtherCharactersAreNoOps | main.go:108-114 | Any character other than the eight instructions, `#` included, only advances the counter. |
| Engine.JumpTableTargetsInRange | main.go:51-52 | Every jump target of a resolved table lies inside the program. |
| Engine.Interpret | main.go:158-169 | The driver reports a resolution error exactly when the program is not properly nested, and that error is the one the resolver's reference description names. A memory fault reports `Overflow(memorySize)` or `Underflow(-1)`. |
| Scenarios.EchoOneByte | main.go:93-99 | `,.` writes its single input byte back, or 0 when the input is empty. |
| Scenarios.LoneOpenBracket | main.go:55-57 | `[` is rejected as an unmatched `[` at position 0, before anything runs. |
| Scenarios.LoneCloseBracket | main.go:46-47 | `]` is rejected as an unmatched `]` at position 0. |
| Scenarios.StepOffOneCellTape | main.go:77-80 | `>` on a one-cell tape faults with `Overflow(1)` before any output. |
| PrintA.LayoutResolves | main.go:39-59 | The counted-loop program resolves, and its table sends the `]` at 20 back to the `[` at 6. |
| PrintA.CountedLoop | main.go:100-107 | The loop body runs once per unit of the counter, adding ten to the second cell each time, then leaves the loop. |
| PrintA.InterpretPrintsA | main.go:73-123 | On any tape of at least two cells, with no input and at least 98 steps of fuel, the counted-loop program finishes having written exactly `[65]`. |

## Left out

- `DebugPrint` and the `#` instruction's diagnostic dump (main.go:62-70, 108-109): `#` is modelled as a no-op. The dump slices `memory[:16]`, which makes the original panic on tapes shorter than 16 cells. The model does not reproduce this panic.
- Debug-mode pausing after every instruction (main.go:116-120): it only prints and waits for a key press, so the `debugMode` field is not part of the state.
- `LoadCodeFromFile` and the flag parsing in `main` (main.go:126-156): this is file and command-line I/O. `Interpret` starts from the program text, the input and the tape size.
- Writes to standard output: the output is the sequence of cell values that `.` writes. `%c` prints a value of 128 or more as a two-byte UTF-8 sequence, and that encoding is not modelled.
- Error message strings: errors are datatypes that carry the reported position.
- Engine.NewInterpreter: requires `memorySize >= 1`. A negative size makes Go's `make` panic, and a zero size makes the first cell access go out of range; neither failure is modelled.
- Engine.Run: bounded by fuel. Non-termination is therefore reported as `OutOfFuel` after `fuel` instructions rather than as a run that never returns.
- Engine.Interpret: the fuel bound adds an outcome, `StillRunning`, for a run that has not finished when the fuel is used up. The original just keeps running.
