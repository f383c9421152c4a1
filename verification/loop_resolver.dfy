/**
 The loop resolver: one left-to-right pass over the program with an explicit
 stack of pending `[` positions, producing a two-way jump table between each
 `[` and its matching `]`, or the position of the first bracket that cannot be
 matched.

 The scan is checked against an independent, declarative description of
 bracket structure: the nesting depth of every prefix of the program.
 */
module LoopResolver {

  datatype ResolveError =
    | UnmatchedClose(pos: int)  // a `]` met while no `[` is pending
    | UnmatchedOpen(pos: int)   // the leftmost `[` still pending at the end

  datatype ResolveResult =
    | Resolved(table: map<int, int>)
    | Failed(err: ResolveError)

  predicate IsBracket(c: char) {
    c == '[' || c == ']'
  }

  /* How one character changes the nesting depth. */
  function Delta(c: char): int {
    if c == '[' then 1 else if c == ']' then -1 else 0
  }

  /* Nesting depth after the first k characters: opened minus closed brackets. */
  function Depth(code: string, k: nat): int
    requires k <= |code|
  {
    if k == 0 then 0 else Depth(code, k - 1) + Delta(code[k - 1])
  }

  /* No prefix of the first `upTo` characters closes more brackets than it opens. */
  ghost predicate NeverNegativeUpTo(code: string, upTo: nat)
    requires upTo <= |code|
  {
    forall k :: 0 <= k <= upTo ==> Depth(code, k) >= 0
  }

  ghost predicate NeverNegative(code: string) {
    NeverNegativeUpTo(code, |code|)
  }

  /* Properly nested: no prefix dips below zero and everything opened is closed. */
  ghost predicate Balanced(code: string) {
    NeverNegative(code) && Depth(code, |code|) == 0
  }

  /* The `[` at i and the `]` at j form a pair: everything strictly between
     them is nested deeper, and the `]` brings the depth back to where it was
     before the `[`. */
  ghost predicate Matched(code: string, i: int, j: int) {
    && 0 <= i < j < |code|
    && code[i] == '['
    && code[j] == ']'
    && Depth(code, j + 1) == Depth(code, i)
    && forall k :: i < k <= j ==> Depth(code, k) > Depth(code, i)
  }

  /* The `]` at p is the first one with nothing left to close. */
  ghost predicate FirstExcessClose(code: string, p: int) {
    && 0 <= p < |code|
    && NeverNegativeUpTo(code, p)
    && Depth(code, p + 1) < 0
  }

  /* The `[` at p opens at depth zero and is never closed: it is the outermost
     (and leftmost) of the brackets left open at the end. */
  ghost predicate OutermostUnclosed(code: string, p: int) {
    && 0 <= p < |code|
    && code[p] == '['
    && Depth(code, p) == 0
    && forall k :: p < k <= |code| ==> Depth(code, k) > 0
  }

  /* The entry at p of the table links p with its partner bracket. */
  ghost predicate PairedAt(code: string, table: map<int, int>, p: int)
    requires p in table
  {
    || (0 <= p < |code| && code[p] == '[' && Matched(code, p, table[p]))
    || (0 <= p < |code| && code[p] == ']' && Matched(code, table[p], p))
  }

  /* A jump table for the whole program: defined exactly on the bracket
     positions, and every entry points at the partner bracket. */
  ghost predicate IsJumpTable(code: string, table: map<int, int>) {
    && (forall p :: p in table <==> 0 <= p < |code| && IsBracket(code[p]))
    && (forall p :: p in table ==> PairedAt(code, table, p))
  }

  /* What a resolution result of `code` must say: a jump table for a properly
     nested program, otherwise the first excess `]` or the outermost `[` left open. */
  ghost predicate CorrectResolution(code: string, r: ResolveResult) {
    match r
    case Resolved(table) => Balanced(code) && IsJumpTable(code, table)
    case Failed(UnmatchedClose(p)) => FirstExcessClose(code, p)
    case Failed(UnmatchedOpen(p)) => NeverNegative(code) && OutermostUnclosed(code, p)
  }

  /* After the first i characters no prefix has dipped below zero, and the
     stack holds one pending `[` per open depth level. */
  ghost predicate DepthsSoFar(code: string, i: nat, stack: seq<int>) {
    && i <= |code|
    && NeverNegativeUpTo(code, i)
    && |stack| == Depth(code, i)
  }

  /* stack[d] is the `[` that opened depth level d + 1 and is still open after
     the first i characters. */
  ghost predicate PendingAt(code: string, i: nat, stack: seq<int>, d: nat)
    requires i <= |code| && d < |stack|
  {
    && 0 <= stack[d] < i
    && code[stack[d]] == '['
    && Depth(code, stack[d]) == d
    && forall k :: stack[d] < k <= i ==> Depth(code, k) > d
  }

  ghost predicate PendingOpens(code: string, i: nat, stack: seq<int>)
    requires i <= |code|
  {
    forall d :: 0 <= d < |stack| ==> PendingAt(code, i, stack, d)
  }

  /* The table pairs every bracket among the first i characters that is not pending. */
  ghost predicate TableSoFar(code: string, i: nat, stack: seq<int>, table: map<int, int>)
    requires i <= |code|
  {
    && (forall p :: p in table <==> 0 <= p < i && IsBracket(code[p]) && p !in stack)
    && (forall p :: p in table ==> PairedAt(code, table, p))
  }

  /* What holds each time the scan is about to look at position i. */
  ghost predicate ScanInvariant(code: string, i: nat, stack: seq<int>, table: map<int, int>) {
    && DepthsSoFar(code, i, stack)
    && PendingOpens(code, i, stack)
    && TableSoFar(code, i, stack, table)
  }

  /* One iteration per character, from position i on. */
  function Scan(code: string, i: nat, stack: seq<int>, table: map<int, int>): (r: ResolveResult)
    requires ScanInvariant(code, i, stack, table)
    ensures CorrectResolution(code, r)
    decreases |code| - i
  {
    if i == |code| then
      if |stack| > 0 then
        PendingOpenIsOutermost(code, stack, table);
        Failed(UnmatchedOpen(stack[0]))
      else
        CompleteScanIsJumpTable(code, table);
        Resolved(table)
    else if code[i] == '[' then
      PushKeepsInvariant(code, i, stack, table);
      Scan(code, i + 1, stack + [i], table)
    else if code[i] == ']' then
      if |stack| == 0 then
        EmptyStackCloseIsExcess(code, i, table);
        Failed(UnmatchedClose(i))
      else
        var start := stack[|stack| - 1];
        PopKeepsInvariant(code, i, stack, table);
        Scan(code, i + 1, stack[..|stack| - 1], table[start := i][i := start])
    else
      SkipKeepsInvariant(code, i, stack, table);
      Scan(code, i + 1, stack, table)
  }

  lemma PushKeepsInvariant(code: string, i: nat, stack: seq<int>, table: map<int, int>)
    requires ScanInvariant(code, i, stack, table)
    requires i < |code| && code[i] == '['
    ensures ScanInvariant(code, i + 1, stack + [i], table)
  {
    assert Depth(code, i + 1) == Depth(code, i) + 1;
    PushKeepsPending(code, i, stack);
    PushKeepsTable(code, i, stack, table);
  }

  lemma PushKeepsPending(code: string, i: nat, stack: seq<int>)
    requires DepthsSoFar(code, i, stack) && PendingOpens(code, i, stack)
    requires i < |code| && code[i] == '['
    ensures PendingOpens(code, i + 1, stack + [i])
  {
    var s' := stack + [i];
    var next := i + 1;
    assert Depth(code, next) == |stack| + 1;
    forall d | 0 <= d < |s'|
      ensures PendingAt(code, next, s', d)
    {
      if d < |stack| {
        assert PendingAt(code, i, stack, d);
        assert s'[d] == stack[d];
      }
    }
  }

  lemma PushKeepsTable(code: string, i: nat, stack: seq<int>, table: map<int, int>)
    requires i < |code| && code[i] == '['
    requires TableSoFar(code, i, stack, table)
    ensures TableSoFar(code, i + 1, stack + [i], table)
  {
    var s' := stack + [i];
    forall p
      ensures p in table <==> 0 <= p < i + 1 && IsBracket(code[p]) && p !in s'
    {
      if p != i {
        assert p in s' <==> p in stack;
      }
    }
  }

  lemma SkipKeepsInvariant(code: string, i: nat, stack: seq<int>, table: map<int, int>)
    requires ScanInvariant(code, i, stack, table)
    requires i < |code| && !IsBracket(code[i])
    ensures ScanInvariant(code, i + 1, stack, table)
  {
    var next := i + 1;
    assert Depth(code, next) == Depth(code, i);
    forall d | 0 <= d < |stack|
      ensures PendingAt(code, next, stack, d)
    {
      assert PendingAt(code, i, stack, d);
    }
    forall p
      ensures p in table <==> 0 <= p < i + 1 && IsBracket(code[p]) && p !in stack
    {
      if p == i {
        assert p !in table;
      }
    }
  }

  lemma PopKeepsInvariant(code: string, i: nat, stack: seq<int>, table: map<int, int>)
    requires ScanInvariant(code, i, stack, table)
    requires i < |code| && code[i] == ']' && |stack| > 0
    ensures var start := stack[|stack| - 1];
            ScanInvariant(code, i + 1, stack[..|stack| - 1], table[start := i][i := start])
  {
    assert Depth(code, i + 1) == |stack| - 1;
    PopKeepsPending(code, i, stack);
    PopPairsBrackets(code, i, stack, table);
    PopKeys(code, i, stack, table);
  }

  lemma PopKeepsPending(code: string, i: nat, stack: seq<int>)
    requires DepthsSoFar(code, i, stack) && PendingOpens(code, i, stack)
    requires i < |code| && code[i] == ']' && |stack| > 0
    ensures PendingOpens(code, i + 1, stack[..|stack| - 1])
  {
    var s' := stack[..|stack| - 1];
    var next := i + 1;
    assert Depth(code, next) == |s'|;
    forall d | 0 <= d < |s'|
      ensures PendingAt(code, next, s', d)
    {
      assert PendingAt(code, i, stack, d);
      assert s'[d] == stack[d];
    }
  }

  /* The popped `[` and the current `]` form a pair, and older entries are kept. */
  lemma PopPairsBrackets(code: string, i: nat, stack: seq<int>, table: map<int, int>)
    requires DepthsSoFar(code, i, stack) && PendingOpens(code, i, stack)
    requires TableSoFar(code, i, stack, table)
    requires i < |code| && code[i] == ']' && |stack| > 0
    ensures var start := stack[|stack| - 1];
            var t' := table[start := i][i := start];
            forall p :: p in t' ==> PairedAt(code, t', p)
  {
    var start := stack[|stack| - 1];
    var t' := table[start := i][i := start];
    assert PendingAt(code, i, stack, |stack| - 1);
    assert Depth(code, i + 1) == |stack| - 1;
    assert Matched(code, start, i);
    forall p | p in t'
      ensures PairedAt(code, t', p)
    {
      if p != i && p != start {
        assert t'[p] == table[p];
        assert PairedAt(code, table, p);
      }
    }
  }

  /* After the pop, the table's keys are the scanned brackets no longer pending. */
  lemma PopKeys(code: string, i: nat, stack: seq<int>, table: map<int, int>)
    requires DepthsSoFar(code, i, stack) && PendingOpens(code, i, stack)
    requires TableSoFar(code, i, stack, table)
    requires i < |code| && code[i] == ']' && |stack| > 0
    ensures var start := stack[|stack| - 1];
            var t' := table[start := i][i := start];
            forall p :: p in t' <==> 0 <= p < i + 1 && IsBracket(code[p]) && p !in stack[..|stack| - 1]
  {
    var top := |stack| - 1;
    var start := stack[top];
    var s' := stack[..top];
    var t' := table[start := i][i := start];
    assert PendingAt(code, i, stack, top);
    // start is the only pending position at depth `top`
    assert start !in s' by {
      forall d | 0 <= d < top
        ensures s'[d] != start
      {
        assert PendingAt(code, i, stack, d);
      }
    }
    forall p
      ensures p in t' <==> 0 <= p < i + 1 && IsBracket(code[p]) && p !in s'
    {
      if p in s' {
        var d :| 0 <= d < top && s'[d] == p;
        assert stack[d] == p;
        assert PendingAt(code, i, stack, d);
      }
    }
  }

  lemma EmptyStackCloseIsExcess(code: string, i: nat, table: map<int, int>)
    requires ScanInvariant(code, i, [], table)
    requires i < |code| && code[i] == ']'
    ensures FirstExcessClose(code, i)
  {
  }

  lemma CompleteScanIsJumpTable(code: string, table: map<int, int>)
    requires ScanInvariant(code, |code|, [], table)
    ensures Balanced(code) && IsJumpTable(code, table)
  {
  }

  lemma PendingOpenIsOutermost(code: string, stack: seq<int>, table: map<int, int>)
    requires ScanInvariant(code, |code|, stack, table)
    requires |stack| > 0
    ensures NeverNegative(code) && OutermostUnclosed(code, stack[0])
  {
    assert PendingAt(code, |code|, stack, 0);
  }

  /* The resolver: a scan from the start with an empty stack and table. */
  function BuildLoopMap(code: string): (r: ResolveResult)
    ensures CorrectResolution(code, r)
  {
    Scan(code, 0, [], map[])
  }

  /* A `]` has at most one partner `[`, and a `[` at most one partner `]`. */
  lemma MatchedIsOneToOne(code: string, i: int, j: int, i': int, j': int)
    requires Matched(code, i, j) && Matched(code, i', j')
    ensures i == i' <==> j == j'
  {
  }

  /* The table is an involution on the bracket positions: following a jump
     twice comes back, and every `[` jumps forward to a `]`. */
  lemma JumpTableIsInvolution(code: string, table: map<int, int>)
    requires IsJumpTable(code, table)
    ensures forall p :: p in table ==> table[p] in table && table[table[p]] == p
    ensures forall p :: p in table && code[p] == '[' ==> p < table[p] && code[table[p]] == ']'
    ensures forall p :: p in table && code[p] == ']' ==> table[p] < p && code[table[p]] == '['
  {
  }

  /* Depth depends only on the prefix it measures. */
  lemma {:induction false} DepthOfCommonPrefix(a: string, b: string, k: nat)
    requires k <= |a| && k <= |b| && a[..k] == b[..k]
    ensures Depth(a, k) == Depth(b, k)
  {
    if k > 0 {
      assert a[..k - 1] == a[..k][..k - 1] && b[..k - 1] == b[..k][..k - 1];
      assert a[k - 1] == a[..k][k - 1] && b[k - 1] == b[..k][k - 1];
      DepthOfCommonPrefix(a, b, k - 1);
    }
  }

  /* Depth inside a slice is depth in the whole program, measured from the slice's start. */
  lemma {:induction false} DepthOfSlice(code: string, lo: nat, hi: nat, k: nat)
    requires lo <= hi <= |code| && k <= hi - lo
    ensures Depth(code[lo..hi], k) == Depth(code, lo + k) - Depth(code, lo)
  {
    if k > 0 {
      DepthOfSlice(code, lo, hi, k - 1);
      assert code[lo..hi][k - 1] == code[lo + k - 1];
    }
  }

  /* The code strictly between a matched pair is itself properly nested. */
  lemma MatchedEnclosesBalanced(code: string, i: int, j: int)
    requires Matched(code, i, j)
    ensures Balanced(code[i + 1..j])
  {
    var body := code[i + 1..j];
    forall k | 0 <= k <= |body|
      ensures Depth(body, k) >= 0
    {
      DepthOfSlice(code, i + 1, j, k);
    }
    DepthOfSlice(code, i + 1, j, |body|);
  }

  /* Resolution succeeds exactly on properly nested programs. */
  lemma ResolvesIffBalanced(code: string)
    ensures BuildLoopMap(code).Resolved? <==> Balanced(code)
  {
  }

  /* Resolution fails at the `]` at p exactly when that `]` is the first one
     with no pending `[`. */
  lemma UnmatchedCloseIffFirstExcess(code: string, p: int)
    ensures BuildLoopMap(code) == Failed(UnmatchedClose(p)) <==> FirstExcessClose(code, p)
  {
  }

  /* Resolution fails at the `[` at p exactly when no prefix dips below zero
     and p is the leftmost `[` never closed. */
  lemma UnmatchedOpenIffOutermost(code: string, p: int)
    ensures BuildLoopMap(code) == Failed(UnmatchedOpen(p)) <==>
              NeverNegative(code) && OutermostUnclosed(code, p)
  {
  }

  /* Nothing after the first unmatched `]` is examined: any continuation of
     the program up to that `]` fails the same way. */
  lemma UnmatchedCloseIgnoresRest(code: string, p: int, rest: string)
    requires BuildLoopMap(code) == Failed(UnmatchedClose(p))
    ensures 0 <= p < |code|
    ensures BuildLoopMap(code[..p + 1] + rest) == Failed(UnmatchedClose(p))
  {
    var code' := code[..p + 1] + rest;
    UnmatchedCloseIffFirstExcess(code, p);
    forall k | 0 <= k <= p + 1
      ensures Depth(code', k) == Depth(code, k)
    {
      assert code'[..k] == code[..k];
      DepthOfCommonPrefix(code', code, k);
    }
    UnmatchedCloseIffFirstExcess(code', p);
  }
}
