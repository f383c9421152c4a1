/**
 End-to-end runs of small programs through resolution and execution.
 */
module Scenarios {
  import opened LoopResolver
  import opened Engine

  /* `,.` echoes its one input byte; with the input exhausted it writes 0. */
  lemma EchoOneByte(input: seq<uint8>, memorySize: int, fuel: nat)
    requires |input| <= 1 && memorySize >= 1 && fuel >= 2
    ensures Interpret(",.", input, memorySize, fuel) == Finished(if input == [] then [0] else input)
  {
    var code := ",.";
    assert Depth(code, 1) == 0 && Depth(code, 2) == 0;
    ResolvesIffBalanced(code);
    var table := BuildLoopMap(code).table;
    assert table == map[] by {
      assert forall p :: p !in table;
    }
    var bf0 := NewInterpreter(code, input, memorySize).(loopMap := table);
    JumpTableTargetsInRange(code, table);
    InputReadsOrZeroes(bf0);
    var bf1 := Step(bf0).bf;
    RunAfterStep(bf0, fuel);
    OutputAppendsCurrentCell(bf1);
    var bf2 := Step(bf1).bf;
    RunAfterStep(bf1, fuel - 1);
    assert bf2.output == (if input == [] then [0] else input);
    assert Run(bf2, fuel - 2) == Halted(bf2);
  }

  /* A lone `[` is rejected before any instruction runs. */
  lemma LoneOpenBracket(input: seq<uint8>, memorySize: int, fuel: nat)
    requires memorySize >= 1
    ensures Interpret("[", input, memorySize, fuel) == ResolveFailed(UnmatchedOpen(0))
  {
  }

  /* A lone `]` is rejected at position 0. */
  lemma LoneCloseBracket(input: seq<uint8>, memorySize: int, fuel: nat)
    requires memorySize >= 1
    ensures Interpret("]", input, memorySize, fuel) == ResolveFailed(UnmatchedClose(0))
  {
  }

  /* `>` on a one-cell tape faults with the pointer at 1, before any output. */
  lemma StepOffOneCellTape(input: seq<uint8>, fuel: nat)
    requires fuel >= 1
    ensures Interpret(">", input, 1, fuel) == MemoryFault(Overflow(1), [])
  {
  }
}
