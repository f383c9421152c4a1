/**
 The classic counted loop `++++++[>++++++++++<-]>+++++.`: six passes of the
 loop each add ten to the second cell, five more are added after it, and the
 result, 65 (the letter `A`), is written out.

 The run is proved in pieces over a two-cell view of the tape: one lemma per
 kind of instruction, one for a run of `+`, one for a pass of the loop body
 and one for the whole loop, by induction on the counter. The pieces are
 stated for any program with the same layout, so that the concrete text only
 enters at the end.
 */
module PrintA {
  import opened LoopResolver
  import opened Engine

  const Code: string := "++++++[>++++++++++<-]>+++++."

  /* A tape of n cells holding c0 and c1 in its first two cells, zero elsewhere. */
  function Cells(n: int, c0: uint8, c1: uint8): (cells: seq<uint8>)
    requires n >= 2
    ensures |cells| == n && cells[0] == c0 && cells[1] == c1
  {
    seq(n, i => if i == 0 then c0 else if i == 1 then c1 else 0)
  }

  /* A state of the run: no input, only the first two cells in use. */
  function At(code: string, n: int, t: map<int, int>, pc: int, ptr: int, c0: uint8, c1: uint8, out: seq<uint8>): Interpreter
    requires n >= 2
  {
    Interpreter(code, [], Cells(n, c0, c1), ptr, pc, 0, t, n, out)
  }

  lemma CellsUpdate(n: int, c0: uint8, c1: uint8, v: uint8)
    requires n >= 2
    ensures Cells(n, c0, c1)[0 := v] == Cells(n, v, c1)
    ensures Cells(n, c0, c1)[1 := v] == Cells(n, c0, v)
  {
  }

  /* Each lemma below takes one instruction; the state after it is passed in
     explicitly, which keeps the chains of equalities between runs cheap. */

  lemma PlusStep(code: string, n: int, t: map<int, int>, pc: int, ptr: int, c0: uint8, c1: uint8, out: seq<uint8>, fuel: nat,
                 pc': int, c0': uint8, c1': uint8, fuel': nat)
    requires n >= 2 && TargetsInRange(code, t) && 0 <= pc < |code| && code[pc] == '+' && (ptr == 0 || ptr == 1)
    requires pc' == pc + 1 && fuel == fuel' + 1
    requires c0' as int == c0 as int + (if ptr == 0 then 1 else 0)
    requires c1' as int == c1 as int + (if ptr == 1 then 1 else 0)
    ensures Run(At(code, n, t, pc, ptr, c0, c1, out), fuel) == Run(At(code, n, t, pc', ptr, c0', c1', out), fuel')
  {
    CellsUpdate(n, c0, c1, if ptr == 0 then c0' else c1');
    assert Step(At(code, n, t, pc, ptr, c0, c1, out)) == Next(At(code, n, t, pc', ptr, c0', c1', out));
  }

  lemma MinusStep(code: string, n: int, t: map<int, int>, pc: int, c0: uint8, c1: uint8, out: seq<uint8>, fuel: nat,
                  pc': int, c0': uint8, fuel': nat)
    requires n >= 2 && TargetsInRange(code, t) && 0 <= pc < |code| && code[pc] == '-'
    requires pc' == pc + 1 && fuel == fuel' + 1 && c0' as int == c0 as int - 1
    ensures Run(At(code, n, t, pc, 0, c0, c1, out), fuel) == Run(At(code, n, t, pc', 0, c0', c1, out), fuel')
  {
    CellsUpdate(n, c0, c1, c0');
    assert Step(At(code, n, t, pc, 0, c0, c1, out)) == Next(At(code, n, t, pc', 0, c0', c1, out));
  }

  lemma RightStep(code: string, n: int, t: map<int, int>, pc: int, c0: uint8, c1: uint8, out: seq<uint8>, fuel: nat,
                  pc': int, fuel': nat)
    requires n >= 2 && TargetsInRange(code, t) && 0 <= pc < |code| && code[pc] == '>'
    requires pc' == pc + 1 && fuel == fuel' + 1
    ensures Run(At(code, n, t, pc, 0, c0, c1, out), fuel) == Run(At(code, n, t, pc', 1, c0, c1, out), fuel')
  {
    assert Step(At(code, n, t, pc, 0, c0, c1, out)) == Next(At(code, n, t, pc', 1, c0, c1, out));
  }

  lemma LeftStep(code: string, n: int, t: map<int, int>, pc: int, c0: uint8, c1: uint8, out: seq<uint8>, fuel: nat,
                 pc': int, fuel': nat)
    requires n >= 2 && TargetsInRange(code, t) && 0 <= pc < |code| && code[pc] == '<'
    requires pc' == pc + 1 && fuel == fuel' + 1
    ensures Run(At(code, n, t, pc, 1, c0, c1, out), fuel) == Run(At(code, n, t, pc', 0, c0, c1, out), fuel')
  {
    assert Step(At(code, n, t, pc, 1, c0, c1, out)) == Next(At(code, n, t, pc', 0, c0, c1, out));
  }

  /* `[` on a non-zero cell falls through into the loop body. */
  lemma OpenStep(code: string, n: int, t: map<int, int>, pc: int, c0: uint8, c1: uint8, out: seq<uint8>, fuel: nat,
                 pc': int, fuel': nat)
    requires n >= 2 && TargetsInRange(code, t) && 0 <= pc < |code| && code[pc] == '[' && c0 != 0
    requires pc' == pc + 1 && fuel == fuel' + 1
    ensures Run(At(code, n, t, pc, 0, c0, c1, out), fuel) == Run(At(code, n, t, pc', 0, c0, c1, out), fuel')
  {
    assert Step(At(code, n, t, pc, 0, c0, c1, out)) == Next(At(code, n, t, pc', 0, c0, c1, out));
  }

  /* `]` jumps past its partner while the cell is non-zero, else falls through. */
  lemma CloseStep(code: string, n: int, t: map<int, int>, pc: int, c0: uint8, c1: uint8, out: seq<uint8>, fuel: nat,
                  pc': int, fuel': nat)
    requires n >= 2 && TargetsInRange(code, t) && 0 <= pc < |code| && code[pc] == ']' && pc in t
    requires pc' == (if c0 == 0 then pc + 1 else t[pc] + 1) && fuel == fuel' + 1
    ensures Run(At(code, n, t, pc, 0, c0, c1, out), fuel) == Run(At(code, n, t, pc', 0, c0, c1, out), fuel')
  {
    assert Step(At(code, n, t, pc, 0, c0, c1, out)) == Next(At(code, n, t, pc', 0, c0, c1, out));
  }

  lemma DotStep(code: string, n: int, t: map<int, int>, pc: int, c0: uint8, c1: uint8, out: seq<uint8>, fuel: nat,
                pc': int, out': seq<uint8>, fuel': nat)
    requires n >= 2 && TargetsInRange(code, t) && 0 <= pc < |code| && code[pc] == '.'
    requires pc' == pc + 1 && fuel == fuel' + 1 && out' == out + [c1]
    ensures Run(At(code, n, t, pc, 1, c0, c1, out), fuel) == Run(At(code, n, t, pc', 1, c0, c1, out'), fuel')
  {
    assert Step(At(code, n, t, pc, 1, c0, c1, out)) == Next(At(code, n, t, pc', 1, c0, c1, out'));
  }

  /* A run of k `+` adds k to the current cell in k instructions. */
  lemma {:induction false} Increments(code: string, n: int, t: map<int, int>, pc: int, ptr: int, c0: uint8, c1: uint8,
                                      out: seq<uint8>, fuel: nat, k: nat, pcEnd: int, e0: uint8, e1: uint8, fuelEnd: nat)
    requires n >= 2 && TargetsInRange(code, t) && 0 <= pc && pc + k <= |code| && (ptr == 0 || ptr == 1)
    requires forall i :: pc <= i < pc + k ==> code[i] == '+'
    requires pcEnd == pc + k && fuel == fuelEnd + k
    requires e0 as int == c0 as int + (if ptr == 0 then k else 0)
    requires e1 as int == c1 as int + (if ptr == 1 then k else 0)
    ensures Run(At(code, n, t, pc, ptr, c0, c1, out), fuel) == Run(At(code, n, t, pcEnd, ptr, e0, e1, out), fuelEnd)
    decreases k
  {
    if k > 0 {
      var c0' := if ptr == 0 then c0 + 1 else c0;
      var c1' := if ptr == 1 then c1 + 1 else c1;
      var pc', fuel', k' := pc + 1, fuel - 1, k - 1;
      PlusStep(code, n, t, pc, ptr, c0, c1, out, fuel, pc', c0', c1', fuel');
      Increments(code, n, t, pc', ptr, c0', c1', out, fuel', k', pcEnd, e0, e1, fuelEnd);
    } else {
      assert pcEnd == pc && e0 == c0 && e1 == c1 && fuelEnd == fuel;
    }
  }

  /* The instruction layout of the program, position by position. */
  ghost predicate HasLayout(code: string) {
    && |code| == 28
    && (forall i :: 0 <= i < 6 ==> code[i] == '+')
    && code[6] == '[' && code[7] == '>'
    && (forall i :: 8 <= i < 18 ==> code[i] == '+')
    && code[18] == '<' && code[19] == '-' && code[20] == ']' && code[21] == '>'
    && (forall i :: 22 <= i < 27 ==> code[i] == '+')
    && code[27] == '.'
  }

  /* The layout together with the one jump the run takes: `]` back to `[`. */
  ghost predicate Prepared(code: string, t: map<int, int>) {
    HasLayout(code) && TargetsInRange(code, t) && 20 in t && t[20] == 6
  }

  /* One pass of the loop body `>++++++++++<-]` in 14 instructions: the
     counter drops by one, ten is added to the second cell, and control is
     back at the body's start, or past the loop once the counter is zero. */
  lemma LoopPass(code: string, n: int, t: map<int, int>, c: uint8, x: uint8, out: seq<uint8>, fuel: nat,
                 c': uint8, x': uint8, pcEnd: int, fuelEnd: nat)
    requires n >= 2 && Prepared(code, t) && c >= 1 && x as int + 10 < 256
    requires c' as int == c as int - 1 && x' as int == x as int + 10
    requires pcEnd == (if c' == 0 then 21 else 7) && fuel == fuelEnd + 14
    ensures Run(At(code, n, t, 7, 0, c, x, out), fuel) == Run(At(code, n, t, pcEnd, 0, c', x', out), fuelEnd)
  {
    var f1, f2, f3, f4 := fuel - 1, fuel - 11, fuel - 12, fuel - 13;
    RightStep(code, n, t, 7, c, x, out, fuel, 8, f1);
    Increments(code, n, t, 8, 1, c, x, out, f1, 10, 18, c, x', f2);
    LeftStep(code, n, t, 18, c, x', out, f2, 19, f3);
    MinusStep(code, n, t, 19, c, x', out, f3, 20, c', f4);
    CloseStep(code, n, t, 20, c', x', out, f4, pcEnd, fuelEnd);
  }

  /* The whole loop from a counter of c: c passes, adding 10 * c to the second cell. */
  lemma {:induction false} CountedLoop(code: string, n: int, t: map<int, int>, c: uint8, x: uint8, out: seq<uint8>,
                                       fuel: nat, x': uint8, fuelEnd: nat)
    requires n >= 2 && Prepared(code, t) && c >= 1
    requires x' as int == x as int + 10 * c as int && fuel == fuelEnd + 14 * c as int
    ensures Run(At(code, n, t, 7, 0, c, x, out), fuel) == Run(At(code, n, t, 21, 0, 0, x', out), fuelEnd)
    decreases c
  {
    if c == 1 {
      LoopPass(code, n, t, c, x, out, fuel, 0, x', 21, fuelEnd);
    } else {
      var c1: uint8, x1: uint8, f1: nat := c - 1, x + 10, fuel - 14;
      LoopPass(code, n, t, c, x, out, fuel, c1, x1, 7, f1);
      CountedLoop(code, n, t, c1, x1, out, f1, x', fuelEnd);
    }
  }

  /* From the start, 98 instructions end the program with 65 written out. */
  lemma RunPrintsA(code: string, n: int, t: map<int, int>, fuel: nat)
    requires n >= 2 && Prepared(code, t) && fuel >= 98
    ensures Run(At(code, n, t, 0, 0, 0, 0, []), fuel) == Halted(At(code, n, t, 28, 1, 0, 65, [65]))
  {
    var f1, f2, f3, f4, f5, f6 := fuel - 6, fuel - 7, fuel - 91, fuel - 92, fuel - 97, fuel - 98;
    Increments(code, n, t, 0, 0, 0, 0, [], fuel, 6, 6, 6, 0, f1);
    OpenStep(code, n, t, 6, 6, 0, [], f1, 7, f2);
    CountedLoop(code, n, t, 6, 0, [], f2, 60, f3);
    RightStep(code, n, t, 21, 0, 60, [], f3, 22, f4);
    Increments(code, n, t, 22, 1, 0, 60, [], f4, 5, 27, 0, 65, f5);
    DotStep(code, n, t, 27, 0, 65, [], f5, 28, [65], f6);
  }

  /* The nesting depth is 1 inside the loop and 0 outside it. */
  lemma {:induction false} LayoutDepth(code: string, k: nat)
    requires HasLayout(code) && k <= |code|
    ensures Depth(code, k) == if 7 <= k <= 20 then 1 else 0
  {
    if k > 0 {
      LayoutDepth(code, k - 1);
      if k - 1 < 6 || 8 <= k - 1 < 18 || 22 <= k - 1 < 27 {
        assert code[k - 1] == '+';
      }
    }
  }

  /* The program resolves, and its table sends the `]` back to the `[`. */
  lemma LayoutResolves(code: string)
    requires HasLayout(code)
    ensures BuildLoopMap(code).Resolved?
    ensures Prepared(code, BuildLoopMap(code).table)
  {
    forall k | 0 <= k <= |code|
      ensures Depth(code, k) >= 0
    {
      LayoutDepth(code, k);
    }
    LayoutDepth(code, |code|);
    ResolvesIffBalanced(code);
    var t := BuildLoopMap(code).table;
    assert IsBracket(code[20]);
    assert PairedAt(code, t, 20);
    var q := t[20];
    LayoutDepth(code, q);
    LayoutDepth(code, q + 1);
    JumpTableTargetsInRange(code, t);
  }

  /* On any tape of at least two cells, with no input and enough fuel, the
     program finishes having written exactly the byte 65. */
  lemma InterpretPrintsA(n: int, fuel: nat)
    requires n >= 2 && fuel >= 98
    ensures Interpret(Code, [], n, fuel) == Finished([65])
  {
    assert HasLayout(Code);
    LayoutResolves(Code);
    var t := BuildLoopMap(Code).table;
    var bf := NewInterpreter(Code, [], n).(loopMap := t);
    assert bf.memory == Cells(n, 0, 0);
    assert bf == At(Code, n, t, 0, 0, 0, 0, []);
    RunPrintsA(Code, n, t, fuel);
  }
}
