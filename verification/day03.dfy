/** The battery banks of `day_03.rs`.

    Each input line is a bank of digit batteries. The first part turns on
    two batteries per bank, the second twelve, keeping their order, and
    each part sums the largest joltage every bank can show. */
module Day03 {
  import opened Results
  import opened Text
  import opened Arith
  import opened Seqs

  /** `(b - b'0') as i128`: the digit a byte stands for. The subtraction is
      on `u8`, so a byte below '0' makes it overflow. */
  function Digit(c: char): int {
    c as int - '0' as int
  }

  const Underflow := "attempt to subtract with overflow"
  const Unwrapped := "called `Result::unwrap()` on an `Err` value"

  // ================================================================ subsequences

  /** `idx` picks the characters of `t` out of `s`, in increasing position. */
  predicate Embeds(idx: seq<nat>, t: string, s: string) {
    && |idx| == |t|
    && (forall j :: 0 <= j < |idx| ==> idx[j] < |s| && t[j] == s[idx[j]])
    && (forall j, k :: 0 <= j < k < |idx| ==> idx[j] < idx[k])
  }

  /** `t` is `s` with some characters left out, the rest kept in order. */
  ghost predicate IsSubsequence(t: string, s: string) {
    exists idx :: Embeds(idx, t, s)
  }

  // ================================================================ two batteries

  /** The joltage of the two batteries at `i < j`. */
  function PairValue(s: string, i: nat, j: nat): int
    requires i < j < |s|
  {
    10 * Digit(s[i]) + Digit(s[j])
  }

  /** What the fold of `max_pair_value` keeps about the bytes it has seen:
      `best` is the largest pair value, or 0 when it is not positive or there
      is no pair, and `right` is the largest digit, if any. */
  ghost predicate PairSummary(s: string, best: int, right: Option<int>) {
    && (right.None? <==> |s| == 0)
    && (right.Some? ==>
          && (forall i :: 0 <= i < |s| ==> Digit(s[i]) <= right.value)
          && (exists i :: 0 <= i < |s| && Digit(s[i]) == right.value))
    && best >= 0
    && (forall i, j :: 0 <= i < j < |s| ==> PairValue(s, i, j) <= best)
    && (best == 0 || exists i, j :: 0 <= i < j < |s| && PairValue(s, i, j) == best)
  }

  /** The fold of `max_pair_value` over the bytes of `s` from the right: the
      state after `s[1..]` is updated with `s[0]`. */
  function PairScan(s: string): (r: Result<(int, Option<int>)>)
    ensures r.Ok? <==> forall i :: 0 <= i < |s| ==> s[i] >= '0'
    ensures r.Ok? ==> PairSummary(s, r.value.0, r.value.1)
  {
    if |s| == 0 then Ok((0, None))
    else
      var rest :- PairScan(s[1..]);
      if s[0] < '0' then Err(Underflow)
      else
        var d := Digit(s[0]);
        var (best, right) := rest;
        var r := match right
          case Some(x) => Ok((Max(best, 10 * d + x), Some(Max(x, d))))
          case None => Ok((best, Some(d)));
        assert PairSummary(s, r.value.0, r.value.1) by {
          PairScanStep(s, best, right);
        }
        r
  }

  /** Putting one byte in front of a summarised suffix. */
  lemma PairScanStep(s: string, best: int, right: Option<int>)
    requires |s| > 0 && s[0] >= '0'
    requires PairSummary(s[1..], best, right)
    ensures right.Some? ==>
      PairSummary(s, Max(best, 10 * Digit(s[0]) + right.value), Some(Max(right.value, Digit(s[0]))))
    ensures right.None? ==> PairSummary(s, best, Some(Digit(s[0])))
  {
    var t := s[1..];
    assert forall i :: 0 <= i < |t| ==> t[i] == s[i + 1];
    assert forall i, j :: 0 <= i < j < |t| ==> PairValue(t, i, j) == PairValue(s, i + 1, j + 1);
    if right.Some? {
      var x := right.value;
      var k :| 0 <= k < |t| && Digit(t[k]) == x;
      assert PairValue(s, 0, k + 1) == 10 * Digit(s[0]) + x;
      forall i, j | 0 <= i < j < |s|
        ensures PairValue(s, i, j) <= Max(best, 10 * Digit(s[0]) + x)
      {
        if i > 0 {
          assert PairValue(s, i, j) == PairValue(t, i - 1, j - 1);
        } else {
          assert Digit(s[j]) == Digit(t[j - 1]) <= x;
        }
      }
      if best != 0 && best >= 10 * Digit(s[0]) + x {
        var i, j :| 0 <= i < j < |t| && PairValue(t, i, j) == best;
        assert PairValue(s, i + 1, j + 1) == best;
      }
      forall i | 0 <= i < |s|
        ensures Digit(s[i]) <= Max(x, Digit(s[0]))
      {
        if i > 0 {
          assert s[i] == t[i - 1];
        }
      }
      if x >= Digit(s[0]) {
        assert Digit(s[k + 1]) == x;
      }
    } else {
      assert |s| == 1;
    }
  }

  /** `max_pair_value`: the largest joltage two batteries of the bank give,
      or the byte error of the `u8` subtraction. */
  function MaxPairValue(line: string): Result<int> {
    var (best, _) :- PairScan(line);
    Ok(best)
  }

  /** The answer of the first part for one bank is the largest pair value,
      never below zero, and at most 99 on a bank of digits. */
  lemma MaxPairValueIsLargest(line: string)
    ensures MaxPairValue(line).Ok? <==> forall i :: 0 <= i < |line| ==> line[i] >= '0'
    ensures MaxPairValue(line).Ok? ==>
      var best := MaxPairValue(line).value;
      && best >= 0
      && (forall i, j :: 0 <= i < j < |line| ==> PairValue(line, i, j) <= best)
      && (best == 0 || exists i, j :: 0 <= i < j < |line| && PairValue(line, i, j) == best)
    ensures AllDigits(line) ==> 0 <= MaxPairValue(line).value <= 99
  {
    if AllDigits(line) {
      var best := MaxPairValue(line).value;
      if best != 0 {
        var i, j :| 0 <= i < j < |line| && PairValue(line, i, j) == best;
        assert Digit(line[i]) <= 9 && Digit(line[j]) <= 9;
      }
    }
  }

  /** `Day03::first`: the sum over the lines of the input. */
  function SumPairs(ls: seq<string>): Result<int> {
    if |ls| == 0 then Ok(0)
    else
      var v :- MaxPairValue(ls[0]);
      var rest :- SumPairs(ls[1..]);
      Ok(v + rest)
  }

  function FirstAnswer(input: string): Result<int> {
    SumPairs(Lines(input))
  }

  /** The sum over the lines exists exactly when every line's pair value
      does; on lines of digits it lies in 0..99 per line. */
  lemma {:induction false} SumPairsOk(ls: seq<string>)
    ensures SumPairs(ls).Ok? <==> forall i :: 0 <= i < |ls| ==> MaxPairValue(ls[i]).Ok?
    ensures (forall i :: 0 <= i < |ls| ==> AllDigits(ls[i])) ==>
      SumPairs(ls).Ok? && 0 <= SumPairs(ls).value <= 99 * |ls|
  {
    if |ls| > 0 {
      SumPairsOk(ls[1..]);
      MaxPairValueIsLargest(ls[0]);
      assert forall i :: 1 <= i < |ls| ==> ls[i] == ls[1..][i - 1];
    }
  }

  // ================================================================ twelve batteries

  /** `a` comes no later than `b` in dictionary order (equal lengths). */
  predicate LexLe(a: string, b: string)
    requires |a| == |b|
  {
    |a| == 0 || a[0] < b[0] || (a[0] == b[0] && LexLe(a[1..], b[1..]))
  }

  /** The positions of `idx` climb by at least one per step. */
  lemma {:induction false} IncreasingGap(idx: seq<nat>, j: nat, k: nat)
    requires j <= k < |idx|
    requires forall a, b :: 0 <= a < b < |idx| ==> idx[a] < idx[b]
    ensures idx[k] >= idx[j] + (k - j)
    decreases k - j
  {
    if j < k {
      IncreasingGap(idx, j + 1, k);
    }
  }

  /** What the stack pass guarantees about the position `idx[j]` it keeps
      for the `j`-th battery: every byte skipped just before it is smaller,
      and no byte after it that could still take its place is larger. */
  predicate Windows(line: string, idx: seq<nat>, slack: nat)
    requires forall j :: 0 <= j < |idx| ==> idx[j] < |line|
  {
    && (forall j, q :: 0 <= j < |idx| && (j == 0 || idx[j - 1] < q) && 0 <= q < idx[j] ==> line[q] < line[idx[j]])
    && (forall j, q :: 0 <= j < |idx| && idx[j] < q <= slack + j && q < |line| ==> line[q] <= line[idx[j]])
  }

  /** Positions picked as the pass picks them beat any other choice of the
      same number of bytes, from byte `j` on. */
  lemma {:induction false} Dominates(line: string, idx: seq<nat>, kept: string, jdx: seq<nat>, t: string, j: nat)
    requires Embeds(idx, kept, line) && Embeds(jdx, t, line)
    requires |kept| == |t| <= |line|
    requires Windows(line, idx, |line| - |t|)
    requires j <= |t|
    requires kept[..j] == t[..j]
    requires j > 0 ==> jdx[j - 1] >= idx[j - 1]
    ensures LexLe(t[j..], kept[j..])
    decreases |t| - j
  {
    if j < |t| {
      DominatesAt(line, idx, kept, jdx, t, j);
      if t[j] == kept[j] {
        assert kept[..j + 1] == t[..j + 1] by {
          assert kept[..j + 1] == kept[..j] + [kept[j]];
          assert t[..j + 1] == t[..j] + [t[j]];
        }
        Dominates(line, idx, kept, jdx, t, j + 1);
        assert t[j..][1..] == t[j + 1..];
        assert kept[j..][1..] == kept[j + 1..];
      }
    }
  }

  /** The `j`-th byte of any other choice is no larger than the kept one,
      and when it is equal it sits no earlier. */
  lemma DominatesAt(line: string, idx: seq<nat>, kept: string, jdx: seq<nat>, t: string, j: nat)
    requires Embeds(idx, kept, line) && Embeds(jdx, t, line)
    requires |kept| == |t| <= |line|
    requires Windows(line, idx, |line| - |t|)
    requires j < |t|
    requires j > 0 ==> jdx[j - 1] >= idx[j - 1]
    ensures t[j] <= kept[j]
    ensures t[j] == kept[j] ==> jdx[j] >= idx[j]
  {
    IncreasingGap(jdx, j, |t| - 1);
    var p := jdx[j];
    assert p <= |line| - |t| + j;
    assert j == 0 || idx[j - 1] < p;
  }

  /** The stack pass of `max_12`: drop `|line| - 12` bytes, each time the
      newest kept byte is smaller than the byte arriving, and drop any budget
      still left from the end. The twelve bytes kept are the largest choice
      in dictionary order. */
  method Keep12(line: string) returns (kept: string)
    requires |line| >= 12
    ensures |kept| == 12
    ensures IsSubsequence(kept, line)
    ensures forall t :: |t| == 12 && IsSubsequence(t, line) ==> LexLe(t, kept)
  {
    var remove: nat := |line| - 12;
    var stack: string := [];
    ghost var idx: seq<nat> := [];
    ghost var z: nat := 0;
    for i := 0 to |line|
      invariant Pass(line, i, remove, stack, idx, z)
    {
      remove, stack, idx, z := Feed(line, i, remove, stack, idx, z);
    }
    PassEnds(line, remove, stack, idx, z);
    stack, idx := DropTrailing(line, remove, stack, idx, z);
    kept := stack;
    KeptWindows(line, idx, kept, z);
    KeptIsLargest(line, idx, kept);
  }

  /** One byte of the pass: pop the smaller bytes on top of the stack
      while the budget lasts, then push the byte. */
  method Feed(line: string, i: nat, remove0: nat, stack0: string, ghost idx0: seq<nat>, ghost z0: nat)
    returns (remove: nat, stack: string, ghost idx: seq<nat>, ghost z: nat)
    requires Pass(line, i, remove0, stack0, idx0, z0) && i < |line|
    ensures Pass(line, i + 1, remove, stack, idx, z)
    ensures remove <= remove0 && remove0 - remove <= |stack0|
    ensures stack == stack0[..|stack0| - (remove0 - remove)] + [line[i]]
  {
    PassOpens(line, i, remove0, stack0, idx0, z0);
    remove, stack, idx, z := PopSmaller(line, i, remove0, stack0, idx0, z0);
    PushStep(line, i, remove, stack, idx, z);
    stack, idx := stack + [line[i]], idx + [i];
  }

  /** The popping loop of one byte: drop the top of the stack while the
      budget lasts and the top is smaller than the arriving byte. */
  method PopSmaller(line: string, i: nat, remove0: nat, stack0: string, ghost idx0: seq<nat>, ghost z0: nat)
    returns (remove: nat, stack: string, ghost idx: seq<nat>, ghost z: nat)
    requires Popping(line, i, remove0, stack0, idx0, z0)
    ensures Popping(line, i, remove, stack, idx, z)
    ensures !(remove > 0 && |stack| > 0 && stack[|stack| - 1] < line[i])
    ensures remove <= remove0 && |stack0| - |stack| == remove0 - remove
    ensures stack == stack0[..|stack|]
  {
    remove, stack, idx, z := remove0, stack0, idx0, z0;
    while remove > 0 && |stack| > 0 && stack[|stack| - 1] < line[i]
      invariant Popping(line, i, remove, stack, idx, z)
      invariant remove <= remove0
      invariant stack == stack0[..|stack|]
      decreases remove
    {
      ghost var z' := if remove == 1 then i else z;
      PopStep(line, i, remove, stack, idx, z, z');
      stack, idx, z := stack[..|stack| - 1], idx[..|idx| - 1], z';
      remove := remove - 1;
    }
  }

  /** The end of the pass: drop bytes from the top of the stack until
      the budget is spent, leaving twelve. */
  method DropTrailing(line: string, remove0: nat, stack0: string, ghost idx0: seq<nat>, ghost z: nat)
    returns (stack: string, ghost idx: seq<nat>)
    requires Trailing(line, remove0, stack0, idx0, z)
    ensures Trailing(line, 0, stack, idx, z)
    ensures stack == stack0[..12]
  {
    var remove := remove0;
    stack, idx := stack0, idx0;
    while remove > 0
      invariant Trailing(line, remove, stack, idx, z)
      invariant stack == stack0[..|stack|]
    {
      TrailStep(line, remove, stack, idx, z);
      stack, idx := stack[..|stack| - 1], idx[..|idx| - 1];
      remove := remove - 1;
    }
  }

  lemma KeptIsLargest(line: string, idx: seq<nat>, kept: string)
    requires Embeds(idx, kept, line) && |kept| <= |line|
    requires Windows(line, idx, |line| - |kept|)
    ensures forall t :: |t| == |kept| && IsSubsequence(t, line) ==> LexLe(t, kept)
  {
    forall t | |t| == |kept| && IsSubsequence(t, line)
      ensures LexLe(t, kept)
    {
      var jdx :| Embeds(jdx, t, line);
      Dominates(line, idx, kept, jdx, t, 0);
    }
  }

  /** The state of the stack pass after the bytes before `i`, with budget
      `remove` left. */
  ghost predicate Pass(line: string, i: nat, remove: nat, stack: string, idx: seq<nat>, z: nat) {
    && 12 <= |line| && i <= |line|
    && remove <= |line| - 12
    && |stack| == i - (|line| - 12 - remove)
    && Embeds(idx, stack, line)
    && (forall j :: 0 <= j < |idx| ==> idx[j] < i)
    && (i > 0 ==> |idx| > 0 && idx[|idx| - 1] == i - 1)
    && Gaps(line, idx)
    && (remove > 0 ==> NonIncreasing(stack))
    && Rises(line, idx, i, remove, z)
    && (remove == 0 ==> Tail(idx, i, z))
  }

  /** The state while byte `i` pops smaller bytes off the stack. */
  ghost predicate Popping(line: string, i: nat, remove: nat, stack: string, idx: seq<nat>, z: nat) {
    && 12 <= |line| && i < |line|
    && remove <= |line| - 12
    && |stack| == i - (|line| - 12 - remove)
    && Embeds(idx, stack, line)
    && (forall j :: 0 <= j < |idx| ==> idx[j] < i)
    && Gaps(line, idx)
    && Open(line, idx, i)
    && (remove > 0 ==> NonIncreasing(stack))
    && Rises(line, idx, i, remove, z)
    && (remove == 0 ==> Tail(idx, i, z))
  }

  /** The state while the budget left is spent from the end. */
  ghost predicate Trailing(line: string, remove: nat, stack: string, idx: seq<nat>, z: nat) {
    && 12 <= |line|
    && |stack| == 12 + remove
    && Embeds(idx, stack, line)
    && Gaps(line, idx)
    && (NoRise(line, idx) || (remove == 0 && Rises(line, idx, |line|, 0, z) && Tail(idx, |line|, z)))
  }

  /** No byte after a kept position is larger than it. */
  predicate NoRise(line: string, idx: seq<nat>)
    requires forall j :: 0 <= j < |idx| ==> idx[j] < |line|
  {
    forall j, q :: 0 <= j < |idx| && idx[j] < q < |line| ==> line[q] <= line[idx[j]]
  }

  lemma PassOpens(line: string, i: nat, remove: nat, stack: string, idx: seq<nat>, z: nat)
    requires Pass(line, i, remove, stack, idx, z) && i < |line|
    ensures Popping(line, i, remove, stack, idx, z)
  {
  }

  lemma PopStep(line: string, i: nat, remove: nat, stack: string, idx: seq<nat>, z: nat, z': nat)
    requires Popping(line, i, remove, stack, idx, z)
    requires remove > 0 && |stack| > 0 && stack[|stack| - 1] < line[i]
    requires z' == if remove == 1 then i else z
    ensures Popping(line, i, remove - 1, stack[..|stack| - 1], idx[..|idx| - 1], z')
  {
    var n := |idx| - 1;
    var idx', stack' := idx[..n], stack[..n];
    var e := idx[n];
    DropTop(line, idx, stack);
    assert Rises(line, idx', i, remove - 1, z');
    forall q | (|idx'| == 0 || idx'[|idx'| - 1] < q) && 0 <= q < i
      ensures line[q] < line[i]
    {
      if q < e {
        assert line[q] < line[e];
      }
    }
    assert Open(line, idx', i);
  }

  /** Dropping the top of the stack keeps it embedded, its gaps, and
      its order. */
  lemma DropTop(line: string, idx: seq<nat>, stack: string)
    requires Embeds(idx, stack, line) && Gaps(line, idx) && |idx| > 0
    ensures Embeds(idx[..|idx| - 1], stack[..|stack| - 1], line)
    ensures Gaps(line, idx[..|idx| - 1])
    ensures NonIncreasing(stack) ==> NonIncreasing(stack[..|stack| - 1])
  {
    var n := |idx| - 1;
    var idx', stack' := idx[..n], stack[..n];
    forall j | 0 <= j < n
      ensures idx'[j] == idx[j] && stack'[j] == stack[j]
    {
    }
    assert Embeds(idx', stack', line);
    forall j, q | 0 <= j < n && (j == 0 || idx'[j - 1] < q) && 0 <= q < idx'[j]
      ensures line[q] < line[idx'[j]]
    {
      assert j == 0 || idx[j - 1] < q;
    }
  }

  lemma PushStep(line: string, i: nat, remove: nat, stack: string, idx: seq<nat>, z: nat)
    requires Popping(line, i, remove, stack, idx, z)
    requires !(remove > 0 && |stack| > 0 && stack[|stack| - 1] < line[i])
    ensures Pass(line, i + 1, remove, stack + [line[i]], idx + [i], z)
  {
    PushEmbeds(line, i, stack, idx);
    PushGaps(line, i, idx);
    PushRises(line, i, remove, stack, idx, z);
    if remove > 0 {
      PushNonIncreasing(stack, line[i]);
    } else {
      PushTail(idx, i, z);
    }
  }

  lemma PushEmbeds(line: string, i: nat, stack: string, idx: seq<nat>)
    requires i < |line| && Embeds(idx, stack, line)
    requires forall j :: 0 <= j < |idx| ==> idx[j] < i
    ensures Embeds(idx + [i], stack + [line[i]], line)
    ensures forall j :: 0 <= j < |idx + [i]| ==> (idx + [i])[j] < i + 1
  {
  }

  lemma PushGaps(line: string, i: nat, idx: seq<nat>)
    requires i < |line|
    requires forall j :: 0 <= j < |idx| ==> idx[j] < i
    requires Gaps(line, idx) && Open(line, idx, i)
    ensures Gaps(line, idx + [i])
  {
    var idx' := idx + [i];
    forall j, q | 0 <= j < |idx'| && (j == 0 || idx'[j - 1] < q) && 0 <= q < idx'[j]
      ensures line[q] < line[idx'[j]]
    {
      if j < |idx| {
        assert idx'[j] == idx[j];
        assert j == 0 || idx[j - 1] < q;
      }
    }
  }

  lemma PushRises(line: string, i: nat, remove: nat, stack: string, idx: seq<nat>, z: nat)
    requires i < |line| && Embeds(idx, stack, line)
    requires forall j :: 0 <= j < |idx| ==> idx[j] < i
    requires Rises(line, idx, i, remove, z)
    requires remove > 0 ==> NonIncreasing(stack)
    requires remove == 0 ==> Tail(idx, i, z)
    requires !(remove > 0 && |stack| > 0 && stack[|stack| - 1] < line[i])
    ensures Rises(line, idx + [i], i + 1, remove, z)
  {
    var idx' := idx + [i];
    forall j, q | 0 <= j < |idx'| && idx'[j] < q < i + 1 && line[idx'[j]] < line[q]
      ensures remove == 0 && z <= q
    {
      assert j < |idx|;
      if remove > 0 {
        NonIncreasingFrom(stack, j);
      }
    }
  }

  lemma PushNonIncreasing(stack: string, c: char)
    requires NonIncreasing(stack)
    requires |stack| == 0 || stack[|stack| - 1] >= c
    ensures NonIncreasing(stack + [c])
  {
  }

  lemma PushTail(idx: seq<nat>, i: nat, z: nat)
    requires Tail(idx, i, z)
    ensures Tail(idx + [i], i + 1, z)
  {
  }

  lemma {:induction false} NonIncreasingFrom(s: string, j: nat)
    requires NonIncreasing(s) && j < |s|
    ensures s[j] >= s[|s| - 1]
    decreases |s| - j
  {
    if j < |s| - 1 {
      NonIncreasingFrom(s, j + 1);
    }
  }

  lemma PassEnds(line: string, remove: nat, stack: string, idx: seq<nat>, z: nat)
    requires Pass(line, |line|, remove, stack, idx, z)
    ensures Trailing(line, remove, stack, idx, z)
  {
  }

  lemma TrailStep(line: string, remove: nat, stack: string, idx: seq<nat>, z: nat)
    requires Trailing(line, remove, stack, idx, z) && remove > 0
    ensures Trailing(line, remove - 1, stack[..|stack| - 1], idx[..|idx| - 1], z)
  {
    var idx' := idx[..|idx| - 1];
    DropTop(line, idx, stack);
    assert NoRise(line, idx);
    forall j, q | 0 <= j < |idx'| && idx'[j] < q < |line|
      ensures line[q] <= line[idx'[j]]
    {
      assert idx'[j] == idx[j];
    }
  }

  /** Every byte skipped before a kept position is smaller than it. */
  predicate Gaps(line: string, idx: seq<nat>)
    requires forall j :: 0 <= j < |idx| ==> idx[j] < |line|
  {
    forall j, q :: 0 <= j < |idx| && (j == 0 || idx[j - 1] < q) && 0 <= q < idx[j] ==> line[q] < line[idx[j]]
  }

  /** Every byte after the top of the stack and before `i` is smaller than
      `line[i]`. */
  predicate Open(line: string, idx: seq<nat>, i: nat)
    requires i < |line|
  {
    forall q :: (|idx| == 0 || idx[|idx| - 1] < q) && 0 <= q < i ==> line[q] < line[i]
  }

  predicate NonIncreasing(s: string) {
    forall j :: 0 < j < |s| ==> s[j] <= s[j - 1]
  }

  /** A byte larger than a kept one after it only arrives once the budget
      is spent, at or after step `z`. */
  predicate Rises(line: string, idx: seq<nat>, i: nat, remove: nat, z: nat)
    requires i <= |line|
    requires forall j :: 0 <= j < |idx| ==> idx[j] < |line|
  {
    forall j, q :: 0 <= j < |idx| && idx[j] < q < i && line[idx[j]] < line[q] ==> remove == 0 && z <= q
  }

  /** The bytes from step `z` up to `i` all sit, in order, on top of the
      stack. */
  predicate Tail(idx: seq<nat>, i: nat, z: nat) {
    z <= i && i - z <= |idx| && forall k :: |idx| - (i - z) <= k < |idx| ==> idx[k] == i - |idx| + k
  }

  lemma KeptWindows(line: string, idx: seq<nat>, kept: string, z: nat)
    requires |line| >= 12 && |kept| == 12
    requires Embeds(idx, kept, line)
    requires Gaps(line, idx)
    requires NoRise(line, idx) || (Rises(line, idx, |line|, 0, z) && Tail(idx, |line|, z))
    ensures Windows(line, idx, |line| - 12)
  {
    var slack := |line| - 12;
    forall j, q | 0 <= j < |idx| && idx[j] < q <= slack + j && q < |line|
      ensures line[q] <= line[idx[j]]
    {
    }
  }

  /** `max_12`: the kept twelve bytes read as a number. A bank shorter than
      twelve makes `n - 12` underflow; kept bytes that are not a number make
      the final `unwrap` fail. */
  method Max12(line: string) returns (r: Result<int>)
    ensures |line| < 12 ==> r == Err(Underflow)
    ensures |line| >= 12 && AllDigits(line) ==> r.Ok?
    ensures r.Ok? ==> exists t :: |t| == 12 && IsSubsequence(t, line) && ParseInt(t) == Some(r.value)
    ensures AllDigits(line) && r.Ok? ==> 0 <= r.value < 1_000_000_000_000
    ensures AllDigits(line) && r.Ok? ==>
      forall t :: |t| == 12 && IsSubsequence(t, line) && AllDigits(t) ==> DigitsValue(t) <= r.value
    ensures Max12Gives(line, r)
  {
    if |line| < 12 {
      return Err(Underflow);
    }
    var kept := Keep12(line);
    match ParseInt(kept)
    case None =>
      if AllDigits(line) {
        DigitsKept(kept, line);
      }
      r := Err(Unwrapped);
      assert Greatest12(kept, line);
    case Some(v) =>
      if AllDigits(line) {
        DigitsKept(kept, line);
        DigitsBound(kept);
        forall t | |t| == 12 && IsSubsequence(t, line) && AllDigits(t)
          ensures DigitsValue(t) <= v
        {
          LexLeValue(t, kept);
        }
      }
      r := Ok(v);
      assert Greatest12(kept, line);
  }

  /** `t` is the greatest twelve-byte subsequence of `line` in dictionary
      order. */
  ghost predicate Greatest12(t: string, line: string) {
    && |t| == 12 && IsSubsequence(t, line)
    && forall u :: |u| == 12 && IsSubsequence(u, line) ==> LexLe(u, t)
  }

  /** The parse of the kept bytes, with the `unwrap` panic on failure. */
  function Parsed(t: string): Result<int> {
    match ParseInt(t)
    case Some(v) => Ok(v)
    case None => Err(Unwrapped)
  }

  /** `r` is what `max_12` gives for `line`: the underflow of `n - 12` on
      a short line, otherwise the parse of the greatest twelve-byte
      subsequence. */
  ghost predicate Max12Gives(line: string, r: Result<int>) {
    if |line| < 12 then r == Err(Underflow)
    else exists t :: Greatest12(t, line) && r == Parsed(t)
  }

  /** Dictionary order on strings of one length is antisymmetric. */
  lemma {:induction false} LexLeAntisymmetric(a: string, b: string)
    requires |a| == |b| && LexLe(a, b) && LexLe(b, a)
    ensures a == b
  {
    if |a| > 0 {
      LexLeAntisymmetric(a[1..], b[1..]);
      assert a == [a[0]] + a[1..] && b == [b[0]] + b[1..];
    }
  }

  /** A line has one greatest twelve-byte subsequence, so `max_12` is a
      function of the line. */
  lemma Max12Unique(line: string, r: Result<int>, r': Result<int>)
    requires Max12Gives(line, r) && Max12Gives(line, r')
    ensures r == r'
  {
    if |line| >= 12 {
      var t :| Greatest12(t, line) && r == Parsed(t);
      var t' :| Greatest12(t', line) && r' == Parsed(t');
      LexLeAntisymmetric(t, t');
    }
  }

  /** A subsequence of a digit string is a digit string. */
  lemma DigitsKept(t: string, s: string)
    requires IsSubsequence(t, s) && AllDigits(s) && |t| > 0
    ensures AllDigits(t) && ParseInt(t) == Some(DigitsValue(t))
  {
    var idx :| Embeds(idx, t, s);
  }

  /** The value of a digit string, read from its first digit. */
  lemma {:induction false} DigitsFront(a: string)
    requires AllDigits(a) && |a| > 0
    ensures DigitsValue(a) == DigitValue(a[0]) * Pow10(|a| - 1) + DigitsValue(a[1..])
  {
    if |a| > 1 {
      var init, rest := a[..|a| - 1], a[1..];
      DigitsFront(init);
      assert init[1..] == rest[..|rest| - 1];
      assert init[0] == a[0] && rest[|rest| - 1] == a[|a| - 1];
      ShiftDigit(DigitValue(a[0]), Pow10(|a| - 2), DigitsValue(init[1..]), DigitValue(a[|a| - 1]));
    } else {
      assert a[1..] == [];
      assert a[..0] == [];
    }
  }

  /** Appending a digit to `d` followed by `v` (worth `p` per unit of
      `d`) multiplies both parts by ten. */
  lemma ShiftDigit(d: int, p: int, v: int, last: int)
    ensures 10 * (d * p + v) + last == d * (10 * p) + (10 * v + last)
  {
  }

  /** Among digit strings of one length, dictionary order is numeric
      order. */
  lemma {:induction false} LexLeValue(a: string, b: string)
    requires AllDigits(a) && AllDigits(b) && |a| == |b|
    requires LexLe(a, b)
    ensures DigitsValue(a) <= DigitsValue(b)
  {
    if |a| > 0 {
      DigitsFront(a);
      DigitsFront(b);
      var p := Pow10(|a| - 1);
      var da, db := DigitValue(a[0]), DigitValue(b[0]);
      if a[0] < b[0] {
        DigitsBelow(a[1..]);
        LeadingDigitWins(da, db, p, DigitsValue(a[1..]), DigitsValue(b[1..]));
      } else {
        LexLeValue(a[1..], b[1..]);
      }
    }
  }

  /** A larger leading digit outweighs whatever follows it. */
  lemma LeadingDigitWins(da: nat, db: nat, p: nat, ra: int, rb: int)
    requires da < db && 0 <= ra < p && 0 <= rb
    ensures da * p + ra <= db * p + rb
  {
    assert db * p == da * p + (db - da) * p;
    MulAtLeast(db - da, p);
  }

  /** Twelve digits are a number below 10^12. */
  lemma DigitsBound(t: string)
    requires AllDigits(t) && |t| == 12
    ensures DigitsValue(t) < 1_000_000_000_000
  {
    DigitsBelow(t);
  }

  lemma {:induction false} DigitsBelow(t: string)
    requires AllDigits(t)
    ensures DigitsValue(t) < Pow10(|t|)
  {
    if |t| > 0 {
      DigitsBelow(t[..|t| - 1]);
    }
  }

  function Pow10(k: nat): (p: nat)
    ensures p >= 1
  {
    if k == 0 then 1 else 10 * Pow10(k - 1)
  }

  /** `Day03::second`: the sum of `max_12` over the lines of the input.
      On success every line gave a value and the answer is their sum; on
      failure the error is that of the first line whose `max_12` fails. */
  method SecondAnswer(input: string) returns (r: Result<int>)
    ensures r.Ok? ==> exists vs: seq<int> ::
      && |vs| == |Lines(input)|
      && (forall i :: 0 <= i < |vs| ==> Max12Gives(Lines(input)[i], Ok(vs[i])))
      && r.value == Sum(vs)
    ensures r.Err? ==> exists vs: seq<int> ::
      && |vs| < |Lines(input)|
      && (forall i :: 0 <= i < |vs| ==> Max12Gives(Lines(input)[i], Ok(vs[i])))
      && Max12Gives(Lines(input)[|vs|], r)
    ensures r.Ok? ==> forall i :: 0 <= i < |Lines(input)| ==> |Lines(input)[i]| >= 12
    ensures (forall i :: 0 <= i < |Lines(input)| ==> |Lines(input)[i]| >= 12 && AllDigits(Lines(input)[i]))
      ==> r.Ok? && 0 <= r.value <= |Lines(input)| * 999_999_999_999
  {
    r := SumMax12(Lines(input));
  }

  /** The `map(max_12).sum()` over the lines `ls`, stopping at the first
      panic. */
  method SumMax12(ls: seq<string>) returns (r: Result<int>)
    ensures r.Ok? ==> exists vs: seq<int> ::
      && |vs| == |ls|
      && (forall i :: 0 <= i < |vs| ==> Max12Gives(ls[i], Ok(vs[i])))
      && r.value == Sum(vs)
    ensures r.Err? ==> exists vs: seq<int> ::
      && |vs| < |ls|
      && (forall i :: 0 <= i < |vs| ==> Max12Gives(ls[i], Ok(vs[i])))
      && Max12Gives(ls[|vs|], r)
    ensures r.Ok? ==> forall i :: 0 <= i < |ls| ==> |ls[i]| >= 12
    ensures (forall i :: 0 <= i < |ls| ==> |ls[i]| >= 12 && AllDigits(ls[i]))
      ==> r.Ok? && 0 <= r.value <= |ls| * 999_999_999_999
  {
    var total := 0;
    ghost var vs: seq<int> := [];
    for i := 0 to |ls|
      invariant |vs| == i && total == Sum(vs)
      invariant forall j :: 0 <= j < i ==> Max12Gives(ls[j], Ok(vs[j]))
      invariant forall j :: 0 <= j < i ==> |ls[j]| >= 12
      invariant forall j :: 0 <= j < i && AllDigits(ls[j]) ==> 0 <= vs[j] <= 999_999_999_999
    {
      var v := Max12(ls[i]);
      if v.Err? {
        r := Err(v.reason);
        assert r == v && Max12Gives(ls[|vs|], r);
        return;
      }
      SumConcat(vs, [v.value]);
      SumStepFacts(ls, vs, v.value);
      vs := vs + [v.value];
      total := total + v.value;
    }
    r := Ok(total);
    assert |vs| == |ls| && r.value == Sum(vs);
    if forall j :: 0 <= j < |ls| ==> AllDigits(ls[j]) {
      SumBounded(vs, 999_999_999_999);
    }
  }

  /** The loop's facts about the values summed so far, extended by the
      value of the next line. */
  lemma SumStepFacts(ls: seq<string>, vs: seq<int>, v: int)
    requires |vs| < |ls|
    requires forall j :: 0 <= j < |vs| ==> Max12Gives(ls[j], Ok(vs[j]))
    requires forall j :: 0 <= j < |vs| && AllDigits(ls[j]) ==> 0 <= vs[j] <= 999_999_999_999
    requires Max12Gives(ls[|vs|], Ok(v))
    requires AllDigits(ls[|vs|]) ==> 0 <= v <= 999_999_999_999
    ensures forall j :: 0 <= j < |vs| + 1 ==> Max12Gives(ls[j], Ok((vs + [v])[j]))
    ensures forall j :: 0 <= j < |vs| + 1 && AllDigits(ls[j]) ==> 0 <= (vs + [v])[j] <= 999_999_999_999
  {
  }

  /** A sum of values in `0..m` lies in `0..|vs| * m`. */
  lemma {:induction false} SumBounded(vs: seq<int>, m: nat)
    requires forall j :: 0 <= j < |vs| ==> 0 <= vs[j] <= m
    ensures 0 <= Sum(vs) <= |vs| * m
  {
    if |vs| > 0 {
      SumBounded(vs[..|vs| - 1], m);
    }
  }
}
