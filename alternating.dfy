/** Ch_16_Dynamic_Programming/longest_alternating_subsequence.cpp: the
    longest subsequence whose consecutive elements go strictly up, down, up,
    ... (the first step up), found greedily in one pass. */
module AlternatingSubsequences {
  import opened Subsequences

  /** `s` goes strictly up from even positions and strictly down from odd
      ones: s[0] < s[1] > s[2] < ... */
  ghost predicate Alternating(s: seq<int>)
  {
    forall k :: 0 <= k < |s| - 1 ==> Turn(s, k)
  }

  /** The step from position `k` of `s` goes the way an alternating
      sequence needs. */
  ghost predicate Turn(s: seq<int>, k: nat)
    requires k + 1 < |s|
  {
    if k % 2 == 0 then s[k] < s[k + 1] else s[k] > s[k + 1]
  }

  /** The greedy step accepts `x` after `r` as a new element: `r` has odd
      length (`looking_for_greater`) and `x` is above its last element, or
      even length and `x` is below it. */
  predicate Extends(r: seq<int>, x: int)
    requires r != []
  {
    if |r| % 2 == 1 then r[|r| - 1] < x else r[|r| - 1] > x
  }

  /** One greedy step: append `x`, or replace the last element with it. */
  function Step(r: seq<int>, x: int): seq<int>
    requires r != []
  {
    if Extends(r, x) then r + [x] else r[|r| - 1 := x]
  }

  /** What the greedy result `r` guarantees against an alternating
      subsequence at positions `idx`: it is no longer than `r`, and when it
      is as long, its last element is no better placed to be continued than
      the last of `r` (not lower when an increase comes next, not higher when
      a decrease does). */
  ghost predicate Beats(r: seq<int>, input: seq<int>, idx: seq<int>)
    requires forall k :: 0 <= k < |idx| ==> 0 <= idx[k] < |input|
  {
    |idx| <= |r| &&
    (|idx| == |r| && r != [] ==>
      if |r| % 2 == 1 then input[idx[|idx| - 1]] >= r[|r| - 1] else input[idx[|idx| - 1]] <= r[|r| - 1])
  }

  /** `r` beats every alternating subsequence of `input[..i]`. */
  ghost predicate Dominates(input: seq<int>, i: int, r: seq<int>)
  {
    0 <= i <= |input| &&
    forall idx {:trigger Beats(r, input, idx)} ::
      Embeds(idx, i) && Alternating(Pick(input, idx)) ==> Beats(r, input, idx)
  }

  lemma AlternatingPrefix(s: seq<int>, n: nat)
    requires Alternating(s) && n <= |s|
    ensures Alternating(s[..n])
  {
    forall k | 0 <= k < n - 1
      ensures Turn(s[..n], k)
    {
      assert Turn(s, k);
    }
  }

  /** The greedy step keeps the result alternating. */
  lemma StepAlternates(r: seq<int>, x: int)
    requires r != [] && Alternating(r)
    ensures Alternating(Step(r, x))
  {
    var r' := Step(r, x);
    var n := |r|;
    forall k | 0 <= k < |r'| - 1
      ensures Turn(r', k)
    {
      if k < n - 2 {
        assert Turn(r, k);
      } else if k == n - 2 {
        assert Turn(r, k);
      }
    }
  }

  /** A subsequence ending before position `i` keeps its guarantee after the
      step at `i`. */
  lemma DominatesOld(input: seq<int>, i: int, r: seq<int>, idx: seq<int>)
    requires 1 <= i < |input| && r != [] && Dominates(input, i, r)
    requires Embeds(idx, i) && Alternating(Pick(input, idx))
    ensures Beats(Step(r, input[i]), input, idx)
  {
    assert Beats(r, input, idx);
  }

  /** A subsequence ending at position `i` is bounded by the step at `i`. */
  lemma DominatesNew(input: seq<int>, i: int, r: seq<int>, idx: seq<int>)
    requires 1 <= i < |input| && r != [] && Dominates(input, i, r)
    requires Embeds(idx, i + 1) && Alternating(Pick(input, idx))
    requires idx != [] && idx[|idx| - 1] == i
    ensures Beats(Step(r, input[i]), input, idx)
  {
    var x := input[i];
    var n := |idx| - 1;
    var front := idx[..n];
    assert Embeds(front, i);
    PickPrefix(input, idx, n);
    AlternatingPrefix(Pick(input, idx), n);
    assert Beats(r, input, front);
    if n == |r| {
      PickIndex(input, idx);
      assert Turn(Pick(input, idx), n - 1);
    }
  }

  /** The greedy step at position `i` keeps the result dominating. */
  lemma DominatesStep(input: seq<int>, i: int, r: seq<int>)
    requires 1 <= i < |input| && r != [] && Dominates(input, i, r)
    ensures Dominates(input, i + 1, Step(r, input[i]))
  {
    forall idx | Embeds(idx, i + 1) && Alternating(Pick(input, idx))
      ensures Beats(Step(r, input[i]), input, idx)
    {
      if idx == [] {
      } else if idx[|idx| - 1] < i {
        assert Embeds(idx, i);
        DominatesOld(input, i, r, idx);
      } else {
        DominatesNew(input, i, r, idx);
      }
    }
  }

  /** The first element alone dominates the first position. */
  lemma DominatesStart(input: seq<int>)
    requires input != []
    ensures Dominates(input, 1, [input[0]])
  {
    forall idx | Embeds(idx, 1) && Alternating(Pick(input, idx))
      ensures Beats([input[0]], input, idx)
    {
      EmbedsBound(idx, 1);
    }
  }

  /** A result dominating the whole input is a longest alternating
      subsequence. */
  lemma DominatesAll(input: seq<int>, r: seq<int>)
    requires Dominates(input, |input|, r)
    ensures forall s {:trigger IsSubsequence(s, input)} :: IsSubsequence(s, input) && Alternating(s) ==> |s| <= |r|
  {
    forall s | IsSubsequence(s, input) && Alternating(s)
      ensures |s| <= |r|
    {
      var idx :| Embeds(idx, |input|) && Pick(input, idx) == s;
      assert Beats(r, input, idx);
    }
  }

  /** The positions the greedy result is picked from after the step at
      position `i`. */
  function StepIndex(r: seq<int>, x: int, idx: seq<int>, i: int): (idx': seq<int>)
    requires r != [] && |idx| == |r|
    ensures |idx'| == |Step(r, x)|
  {
    if Extends(r, x) then idx + [i] else idx[|idx| - 1 := i]
  }

  /** `r` is picked from `input[..i]` at positions ending with `i - 1`. */
  ghost predicate PickedUpTo(input: seq<int>, i: int, r: seq<int>)
  {
    exists idx :: Embeds(idx, i) && idx != [] && idx[|idx| - 1] == i - 1 &&
      i <= |input| && Pick(input, idx) == r
  }

  /** What the loop of `ComputeLongestAlternatingSubsequence` keeps after
      the first `i` elements: the result is alternating, ends with
      `input[i - 1]` and beats every alternating subsequence of
      `input[..i]`. */
  ghost predicate Greedy(input: seq<int>, i: int, r: seq<int>)
  {
    1 <= |r| <= i <= |input| && PickedUpTo(input, i, r) && Alternating(r) && Dominates(input, i, r)
  }

  lemma GreedyStart(input: seq<int>)
    requires input != []
    ensures Greedy(input, 1, [input[0]])
  {
    assert Embeds([0], 1) && Pick(input, [0]) == [input[0]];
    DominatesStart(input);
  }

  /** The greedy step at position `i` keeps `Greedy`. */
  lemma GreedyStep(input: seq<int>, i: int, r: seq<int>, r': seq<int>)
    requires 1 <= i < |input| && Greedy(input, i, r)
    requires r' == Step(r, input[i])
    ensures Greedy(input, i + 1, r')
  {
    var x := input[i];
    StepAlternates(r, x);
    DominatesStep(input, i, r);
    var idx :| Embeds(idx, i) && idx != [] && idx[|idx| - 1] == i - 1 && Pick(input, idx) == r;
    PickIndex(input, idx);
    var idx' := StepIndex(r, x, idx, i);
    PickIndex(input, idx');
    assert Pick(input, idx') == r';
  }

  /** `Greedy` over the whole input gives what the function promises. */
  lemma GreedyDone(input: seq<int>, r: seq<int>)
    requires Greedy(input, |input|, r)
    ensures Alternating(r) && IsSubsequence(r, input)
    ensures forall s {:trigger IsSubsequence(s, input)} :: IsSubsequence(s, input) && Alternating(s) ==> |s| <= |r|
  {
    DominatesAll(input, r);
  }

  /** Nothing alternating is longer than the empty input. */
  lemma EmptyInput(input: seq<int>)
    requires input == []
    ensures Alternating([]) && IsSubsequence([], input)
    ensures forall s {:trigger IsSubsequence(s, input)} :: IsSubsequence(s, input) && Alternating(s) ==> |s| <= 0
  {
    assert Embeds([], 0) && Pick(input, []) == [];
    forall s | IsSubsequence(s, input)
      ensures |s| <= 0
    {
      var idx :| Embeds(idx, 0) && Pick(input, idx) == s;
      EmbedsBound(idx, 0);
    }
  }

  lemma ParityFlip(m: nat)
    ensures ((m + 1) % 2 == 1) == !(m % 2 == 1)
  {
  }

  /** One pass over `input`: keep the alternating result built so far,
      append the next value when it turns the way the result needs next,
      and otherwise replace the last value with it. */
  method ComputeLongestAlternatingSubsequence(input: seq<int>) returns (result: seq<int>)
    ensures input == [] ==> result == []
    ensures input != [] ==> 1 <= |result| <= |input| && result[|result| - 1] == input[|input| - 1]
    ensures Alternating(result) && IsSubsequence(result, input)
    ensures forall s {:trigger IsSubsequence(s, input)} :: IsSubsequence(s, input) && Alternating(s) ==> |s| <= |result|
  {
    if |input| == 0 {
      EmptyInput(input);
      return [];
    }
    result := [input[0]];
    var lookingForGreater := true;
    GreedyStart(input);
    for i := 1 to |input|
      invariant lookingForGreater == (|result| % 2 == 1)
      invariant Greedy(input, i, result) && result[|result| - 1] == input[i - 1]
    {
      var currentValue := input[i];
      ghost var before := result;
      if (if lookingForGreater then result[|result| - 1] < currentValue else result[|result| - 1] > currentValue) {
        result := result + [currentValue];
        lookingForGreater := !lookingForGreater;
        ParityFlip(|before|);
      } else {
        result := result[|result| - 1 := currentValue];
      }
      GreedyStep(input, i, before, result);
    }
    GreedyDone(input, result);
  }
}
