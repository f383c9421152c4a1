/**
 The execution engine: a state machine over the program counter, the memory
 pointer, a fixed-length tape of 8-bit cells and an input cursor. `Step`
 decodes and executes the instruction under the program counter; `Run`
 repeats it, with a fuel bound since programs need not terminate.

 Output written by `.` is kept in the state as the sequence of bytes written
 so far, which is what the standard output sink would have received.
 */
module Engine {
  import opened LoopResolver

  /* An 8-bit cell value, the element type of the tape and of the input. */
  newtype uint8 = x: int | 0 <= x < 256

  /* Cell increment, wrapping from 255 to 0 as Go's byte arithmetic does. */
  function WrapInc(c: uint8): (r: uint8)
    ensures r as int == (c as int + 1) % 256
  {
    if c == 255 then 0 else c + 1
  }

  /* Cell decrement, wrapping from 0 to 255. */
  function WrapDec(c: uint8): (r: uint8)
    ensures r as int == (c as int - 1) % 256
  {
    if c == 0 then 255 else c - 1
  }

  datatype MemoryError =
    | Overflow(pos: int)   // `>` moved the pointer to `pos`, past the tape's end
    | Underflow(pos: int)  // `<` moved the pointer to `pos`, before the tape's start

  /* The interpreter's state. The debug flag is not modelled; `output` stands
     for what has been written to standard output. */
  datatype Interpreter = Interpreter(
    code: string,
    input: seq<uint8>,
    memory: seq<uint8>,
    ptr: int,
    codePtr: int,
    inputPtr: int,
    loopMap: map<int, int>,
    memorySize: int,
    output: seq<uint8>)

  /* Every jump target lies inside the program. */
  ghost predicate TargetsInRange(code: string, loopMap: map<int, int>) {
    forall p :: p in loopMap ==> 0 <= loopMap[p] < |code|
  }

  /* The state between two instructions of a run. */
  ghost predicate Valid(bf: Interpreter) {
    && bf.memorySize >= 1
    && |bf.memory| == bf.memorySize
    && 0 <= bf.ptr < bf.memorySize
    && 0 <= bf.codePtr <= |bf.code|
    && 0 <= bf.inputPtr <= |bf.input|
    && TargetsInRange(bf.code, bf.loopMap)
  }

  /* What a run never changes: the program, the input, the table and the tape size. */
  ghost predicate SameProgram(a: Interpreter, b: Interpreter) {
    && b.code == a.code
    && b.input == a.input
    && b.loopMap == a.loopMap
    && b.memorySize == a.memorySize
  }

  /* b is reachable from a without rewinding: input is only consumed and
     output only appended. */
  ghost predicate Follows(a: Interpreter, b: Interpreter) {
    && a.inputPtr <= b.inputPtr
    && a.output <= b.output
  }

  /* A zeroed tape of `memorySize` cells, every pointer at zero, no table yet. */
  function NewInterpreter(code: string, input: seq<uint8>, memorySize: int): (bf: Interpreter)
    requires memorySize >= 1
    ensures Valid(bf)
    ensures |bf.memory| == memorySize && forall k :: 0 <= k < memorySize ==> bf.memory[k] == 0
    ensures bf.code == code && bf.input == input && bf.memorySize == memorySize
    ensures bf.ptr == 0 && bf.codePtr == 0 && bf.inputPtr == 0 && bf.output == []
  {
    Interpreter(code, input, seq(memorySize, _ => 0), 0, 0, 0, map[], memorySize, [])
  }

  /* Reading a Go map at a missing key yields the zero value. */
  function Lookup(m: map<int, int>, k: int): int {
    if k in m then m[k] else 0
  }

  datatype StepResult =
    | Next(bf: Interpreter)
    | Fault(err: MemoryError, output: seq<uint8>)

  /* Moves the program counter past the instruction just executed. */
  function Advance(bf: Interpreter): Interpreter {
    bf.(codePtr := bf.codePtr + 1)
  }

  /* Execute the instruction under the program counter, then advance it. */
  function Step(bf: Interpreter): (r: StepResult)
    requires Valid(bf) && bf.codePtr < |bf.code|
    ensures r.Fault? <==>
              || (bf.code[bf.codePtr] == '>' && bf.ptr + 1 >= bf.memorySize)
              || (bf.code[bf.codePtr] == '<' && bf.ptr - 1 < 0)
    ensures r.Fault? ==>
              && r.output == bf.output
              && r.err == (if bf.code[bf.codePtr] == '>' then Overflow(bf.memorySize) else Underflow(-1))
    ensures r.Next? ==> Valid(r.bf) && SameProgram(bf, r.bf) && Follows(bf, r.bf)
    ensures r.Next? ==> bf.ptr - 1 <= r.bf.ptr <= bf.ptr + 1
    ensures r.Next? ==> forall k :: 0 <= k < |bf.memory| && k != bf.ptr ==> r.bf.memory[k] == bf.memory[k]
    ensures r.Next? ==> |r.bf.output| <= |bf.output| + 1 && r.bf.inputPtr <= bf.inputPtr + 1
  {
    var cell := bf.memory[bf.ptr];
    match bf.code[bf.codePtr]
    case '>' =>
      if bf.ptr + 1 >= bf.memorySize then Fault(Overflow(bf.ptr + 1), bf.output)
      else Next(Advance(bf.(ptr := bf.ptr + 1)))
    case '<' =>
      if bf.ptr - 1 < 0 then Fault(Underflow(bf.ptr - 1), bf.output)
      else Next(Advance(bf.(ptr := bf.ptr - 1)))
    case '+' => Next(Advance(bf.(memory := bf.memory[bf.ptr := WrapInc(cell)])))
    case '-' => Next(Advance(bf.(memory := bf.memory[bf.ptr := WrapDec(cell)])))
    case '.' => Next(Advance(bf.(output := bf.output + [cell])))
    case ',' =>
      if bf.inputPtr < |bf.input| then
        Next(Advance(bf.(memory := bf.memory[bf.ptr := bf.input[bf.inputPtr]], inputPtr := bf.inputPtr + 1)))
      else
        Next(Advance(bf.(memory := bf.memory[bf.ptr := 0])))
    case '[' =>
      if cell == 0 then Next(Advance(bf.(codePtr := Lookup(bf.loopMap, bf.codePtr))))
      else Next(Advance(bf))
    case ']' =>
      if cell != 0 then Next(Advance(bf.(codePtr := Lookup(bf.loopMap, bf.codePtr))))
      else Next(Advance(bf))
    case _ => Next(Advance(bf))  // `#` (whose diagnostic print is not modelled) and comments
  }

  datatype RunResult =
    | Halted(bf: Interpreter)
    | Faulted(err: MemoryError, output: seq<uint8>)
    | OutOfFuel(bf: Interpreter)

  /* Execute instructions until the program counter leaves the program, a
     pointer move faults, or `fuel` instructions have run. */
  function Run(bf: Interpreter, fuel: nat): (r: RunResult)
    requires Valid(bf)
    ensures r.Halted? ==>
              Valid(r.bf) && r.bf.codePtr == |r.bf.code| && SameProgram(bf, r.bf) && Follows(bf, r.bf)
    ensures r.OutOfFuel? ==>
              Valid(r.bf) && r.bf.codePtr < |r.bf.code| && SameProgram(bf, r.bf) && Follows(bf, r.bf)
    ensures r.Faulted? ==> bf.output <= r.output
    ensures r.Faulted? ==> r.err == Overflow(bf.memorySize) || r.err == Underflow(-1)
    ensures bf.codePtr == |bf.code| <==> r == Halted(bf)
    decreases fuel
  {
    if bf.codePtr >= |bf.code| then Halted(bf)
    else if fuel == 0 then OutOfFuel(bf)
    else
      match Step(bf)
      case Fault(e, out) => Faulted(e, out)
      case Next(bf') => Run(bf', fuel - 1)
  }

  /* Running with fuel left and a non-faulting instruction under the counter
     is that instruction followed by the rest of the run. */
  lemma RunAfterStep(bf: Interpreter, fuel: nat)
    requires Valid(bf) && bf.codePtr < |bf.code| && fuel > 0 && Step(bf).Next?
    ensures Run(bf, fuel) == Run(Step(bf).bf, fuel - 1)
  {
  }

  /* A halted or faulted run is final: more fuel gives the same result, so no
     instruction runs after a fault or after the end of the program. */
  lemma {:induction false} RunFuelMonotone(bf: Interpreter, fuel: nat, more: nat)
    requires Valid(bf) && fuel <= more
    requires !Run(bf, fuel).OutOfFuel?
    ensures Run(bf, more) == Run(bf, fuel)
    decreases fuel
  {
    if bf.codePtr < |bf.code| && fuel > 0 {
      match Step(bf)
      case Fault(_, _) =>
      case Next(bf') =>
        RunFuelMonotone(bf', fuel - 1, more - 1);
    }
  }

  /* Running out of fuel after `fuel` instructions and resuming from where the
     run stopped is the same as one longer run: the loop keeps no state of its
     own outside the interpreter. */
  lemma {:induction false} RunComposes(bf: Interpreter, fuel: nat, more: nat)
    requires Valid(bf) && Run(bf, fuel).OutOfFuel?
    ensures Run(bf, fuel + more) == Run(Run(bf, fuel).bf, more)
    decreases fuel
  {
    if fuel > 0 {
      var bf' := Step(bf).bf;
      var fuel' := fuel - 1;
      var total' := fuel' + more;
      var mid := Run(bf', fuel').bf;
      assert Run(bf, fuel) == Run(bf', fuel');
      assert Run(bf, fuel + more) == Run(bf', total');
      RunComposes(bf', fuel', more);
      assert Run(bf', total') == Run(mid, more);
    }
  }

  /* `+` and `-` change the current cell by one modulo 256, and nothing else
     but the program counter. */
  lemma CellOpsTouchOneCell(bf: Interpreter)
    requires Valid(bf) && bf.codePtr < |bf.code| && bf.code[bf.codePtr] in {'+', '-'}
    ensures Step(bf).Next?
    ensures var n := Step(bf).bf;
            var delta := if bf.code[bf.codePtr] == '+' then 1 else -1;
            && n == bf.(memory := n.memory, codePtr := bf.codePtr + 1)
            && |n.memory| == |bf.memory|
            && n.memory[bf.ptr] as int == (bf.memory[bf.ptr] as int + delta) % 256
            && forall k :: 0 <= k < |bf.memory| && k != bf.ptr ==> n.memory[k] == bf.memory[k]
  {
  }

  /* Cell arithmetic wraps around: 255 + 1 is 0, 0 - 1 is 255, and the two
     operations undo each other. */
  lemma CellArithmeticWraps(c: uint8)
    ensures WrapInc(255) == 0 && WrapDec(0) == 255
    ensures WrapDec(WrapInc(c)) == c && WrapInc(WrapDec(c)) == c
  {
  }

  /* `.` appends the current cell to the output and changes nothing else but
     the program counter. */
  lemma OutputAppendsCurrentCell(bf: Interpreter)
    requires Valid(bf) && bf.codePtr < |bf.code| && bf.code[bf.codePtr] == '.'
    ensures Step(bf) == Next(bf.(output := bf.output + [bf.memory[bf.ptr]], codePtr := bf.codePtr + 1))
  {
  }

  /* `>` and `<` move the pointer by one when it stays on the tape; otherwise
     the step faults with the out-of-range value. */
  lemma PointerMovesWithinTape(bf: Interpreter)
    requires Valid(bf) && bf.codePtr < |bf.code| && bf.code[bf.codePtr] in {'>', '<'}
    ensures var p := if bf.code[bf.codePtr] == '>' then bf.ptr + 1 else bf.ptr - 1;
            Step(bf) ==
              if 0 <= p < bf.memorySize then Next(bf.(ptr := p, codePtr := bf.codePtr + 1))
              else Fault(if p < 0 then Underflow(-1) else Overflow(bf.memorySize), bf.output)
  {
  }

  /* `,` copies the next input byte into the current cell and advances the
     cursor; with the input exhausted it stores 0 and keeps the cursor. */
  lemma InputReadsOrZeroes(bf: Interpreter)
    requires Valid(bf) && bf.codePtr < |bf.code| && bf.code[bf.codePtr] == ','
    ensures Step(bf).Next?
    ensures var n := Step(bf).bf;
            && n == bf.(memory := n.memory, inputPtr := n.inputPtr, codePtr := bf.codePtr + 1)
            && |n.memory| == |bf.memory|
            && (forall k :: 0 <= k < |bf.memory| && k != bf.ptr ==> n.memory[k] == bf.memory[k])
            && if bf.inputPtr < |bf.input| then
                 n.memory[bf.ptr] == bf.input[bf.inputPtr] && n.inputPtr == bf.inputPtr + 1
               else
                 n.memory[bf.ptr] == 0 && n.inputPtr == bf.inputPtr
  {
  }

  /* With a resolved jump table, `[` on a zero cell resumes just past its
     matching `]`; on a nonzero cell it falls through into the loop body.
     Only the program counter changes. */
  lemma LoopEntryJumpsPastPartner(bf: Interpreter)
    requires Valid(bf) && bf.codePtr < |bf.code| && bf.code[bf.codePtr] == '['
    requires IsJumpTable(bf.code, bf.loopMap)
    ensures Step(bf).Next?
    ensures var n := Step(bf).bf;
            && n == bf.(codePtr := n.codePtr)
            && (bf.memory[bf.ptr] == 0 ==> Matched(bf.code, bf.codePtr, n.codePtr - 1))
            && (bf.memory[bf.ptr] != 0 ==> n.codePtr == bf.codePtr + 1)
  {
  }

  /* With a resolved jump table, `]` on a nonzero cell resumes just past its
     matching `[`, at the first instruction of the loop body; on a zero cell it
     falls through. Only the program counter changes. */
  lemma LoopExitJumpsBack(bf: Interpreter)
    requires Valid(bf) && bf.codePtr < |bf.code| && bf.code[bf.codePtr] == ']'
    requires IsJumpTable(bf.code, bf.loopMap)
    ensures Step(bf).Next?
    ensures var n := Step(bf).bf;
            && n == bf.(codePtr := n.codePtr)
            && (bf.memory[bf.ptr] != 0 ==> Matched(bf.code, n.codePtr - 1, bf.codePtr))
            && (bf.memory[bf.ptr] == 0 ==> n.codePtr == bf.codePtr + 1)
  {
  }

  /* Every character other than the eight instructions, `#` included, only
     advances the program counter. */
  lemma OtherCharactersAreNoOps(bf: Interpreter)
    requires Valid(bf) && bf.codePtr < |bf.code|
    requires bf.code[bf.codePtr] !in {'>', '<', '+', '-', '.', ',', '[', ']'}
    ensures Step(bf) == Next(bf.(codePtr := bf.codePtr + 1))
  {
  }

  /* A table produced by the resolver only points inside the program. */
  lemma JumpTableTargetsInRange(code: string, table: map<int, int>)
    requires IsJumpTable(code, table)
    ensures TargetsInRange(code, table)
  {
  }

  datatype Outcome =
    | ResolveFailed(err: ResolveError)
    | MemoryFault(fault: MemoryError, output: seq<uint8>)
    | Finished(output: seq<uint8>)
    | StillRunning(output: seq<uint8>)

  /* What the command-line driver does with a program: build a fresh
     interpreter, resolve the loops, and execute only if that succeeded. */
  function Interpret(code: string, input: seq<uint8>, memorySize: int, fuel: nat): (r: Outcome)
    requires memorySize >= 1
    ensures r.ResolveFailed? <==> !Balanced(code)
    ensures r.ResolveFailed? ==> CorrectResolution(code, Failed(r.err))
    ensures r.MemoryFault? ==> r.fault == Overflow(memorySize) || r.fault == Underflow(-1)
  {
    var bf := NewInterpreter(code, input, memorySize);
    ResolvesIffBalanced(code);
    match BuildLoopMap(code)
    case Failed(e) => ResolveFailed(e)
    case Resolved(table) =>
      JumpTableTargetsInRange(code, table);
      match Run(bf.(loopMap := table), fuel)
      case Halted(end) => Finished(end.output)
      case Faulted(e, out) => MemoryFault(e, out)
      case OutOfFuel(end) => StillRunning(end.output)
  }
}
