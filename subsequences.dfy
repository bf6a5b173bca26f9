/** Subsequences of a sequence, given by the strictly increasing positions
    they are picked from; shared by the two Ch_16_Dynamic_Programming
    subsequence problems. */
module Subsequences {

  /** `idx` is a strictly increasing list of positions below `n`. */
  ghost predicate Embeds(idx: seq<int>, n: int)
  {
    (forall k :: 0 <= k < |idx| ==> 0 <= idx[k] < n) &&
    (forall j, k :: 0 <= j < k < |idx| ==> idx[j] < idx[k])
  }

  /** The elements of `input` at the positions `idx`. */
  function Pick(input: seq<int>, idx: seq<int>): (s: seq<int>)
    requires forall k :: 0 <= k < |idx| ==> 0 <= idx[k] < |input|
    ensures |s| == |idx|
  {
    seq(|idx|, k requires 0 <= k < |idx| => input[idx[k]])
  }

  /** `s` is a subsequence of `input`. */
  ghost predicate IsSubsequence(s: seq<int>, input: seq<int>)
  {
    exists idx :: Embeds(idx, |input|) && Pick(input, idx) == s
  }

  lemma PickIndex(input: seq<int>, idx: seq<int>)
    requires forall k :: 0 <= k < |idx| ==> 0 <= idx[k] < |input|
    ensures forall k :: 0 <= k < |idx| ==> Pick(input, idx)[k] == input[idx[k]]
  {
  }

  /** Increasing positions below `n` are at least as many as they are long:
      the `k`-th of them is at least `k`. */
  lemma {:induction false} EmbedsBound(idx: seq<int>, n: int)
    requires Embeds(idx, n) && 0 <= n
    ensures |idx| <= n
    ensures forall k :: 0 <= k < |idx| ==> idx[k] >= k
    decreases |idx|
  {
    if idx != [] {
      var front := idx[..|idx| - 1];
      assert Embeds(front, idx[|idx| - 1]);
      EmbedsBound(front, idx[|idx| - 1]);
      if |idx| > 1 {
        assert idx[|idx| - 1] > idx[|idx| - 2] >= |idx| - 2;
      }
      assert |idx| - 1 <= idx[|idx| - 1] < n;
    }
  }

  /** A prefix of a subsequence is one, picked from the prefix positions. */
  lemma PickPrefix(input: seq<int>, idx: seq<int>, n: nat)
    requires forall k :: 0 <= k < |idx| ==> 0 <= idx[k] < |input|
    requires n <= |idx|
    ensures Pick(input, idx[..n]) == Pick(input, idx)[..n]
  {
  }

  /** Picking one more position appends its element. */
  lemma PickAppend(input: seq<int>, idx: seq<int>, j: int)
    requires forall k :: 0 <= k < |idx| ==> 0 <= idx[k] < |input|
    requires 0 <= j < |input|
    ensures Pick(input, idx + [j]) == Pick(input, idx) + [input[j]]
  {
    PickIndex(input, idx);
    PickIndex(input, idx + [j]);
  }
}
