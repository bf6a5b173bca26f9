/** Ch_07_Linked_Lists/remove_duplicates_linked_list_variant.cpp: a singly
    linked list with a sentinel head and a tail pointer, and the removal of
    every block of equal values that is longer than `m`. */
module LinkedLists {

  // ----- Runs of equal values -----

  /** The length of the block of values equal to `xs[0]` at the front of `xs`. */
  function RunLength(xs: seq<int>): (n: nat)
    requires xs != []
    ensures 1 <= n <= |xs|
    ensures forall k :: 0 <= k < n ==> xs[k] == xs[0]
    ensures n == |xs| || xs[n] != xs[0]
  {
    if |xs| > 1 && xs[1] == xs[0] then 1 + RunLength(xs[1..]) else 1
  }

  /** The list with every block longer than `m` deleted; blocks are the
      maximal runs of equal values of the list as given. */
  function RemoveLongRuns(xs: seq<int>, m: nat): seq<int>
    decreases |xs|
  {
    if xs == [] then []
    else
      var n := RunLength(xs);
      (if n > m then [] else xs[..n]) + RemoveLongRuns(xs[n..], m)
  }

  /** The run length is determined by its defining properties. */
  lemma {:induction false} RunLengthUnique(xs: seq<int>, n: nat)
    requires 1 <= n <= |xs|
    requires forall k :: 0 <= k < n ==> xs[k] == xs[0]
    requires n == |xs| || xs[n] != xs[0]
    ensures RunLength(xs) == n
  {
    var r := RunLength(xs);
  }

  /** Each value's equal elements form one contiguous block (the list is
      sorted, or at least partitioned into groups of equal elements). */
  ghost predicate Grouped(xs: seq<int>)
  {
    forall i, j, k :: 0 <= i < j < k < |xs| && xs[i] == xs[k] ==> xs[j] == xs[i]
  }

  lemma RemoveLongRunsShrinks(xs: seq<int>, m: nat)
    ensures multiset(RemoveLongRuns(xs, m)) <= multiset(xs)
    decreases |xs|
  {
    if xs != [] {
      var n := RunLength(xs);
      RemoveLongRunsShrinks(xs[n..], m);
      assert xs == xs[..n] + xs[n..];
    }
  }

  /** In grouped input the value of the first block does not come back. */
  lemma FirstBlockOnly(xs: seq<int>)
    requires xs != [] && Grouped(xs)
    ensures xs[0] !in xs[RunLength(xs)..]
  {
    var n := RunLength(xs);
    if xs[0] in xs[n..] {
      var k :| n <= k < |xs| && xs[k] == xs[0];
      assert false;
    }
  }

  lemma GroupedSuffix(xs: seq<int>, n: nat)
    requires Grouped(xs) && n <= |xs|
    ensures Grouped(xs[n..])
  {
    var ys := xs[n..];
    forall i, j, k | 0 <= i < j < k < |ys| && ys[i] == ys[k]
      ensures ys[j] == ys[i]
    {
      assert xs[n + i] == xs[n + k];
    }
  }

  /** The multiset of the result, block by block. */
  lemma RemoveLongRunsFirst(xs: seq<int>, m: nat)
    requires xs != []
    ensures var n := RunLength(xs);
      multiset(RemoveLongRuns(xs, m)) == (if n > m then multiset{} else multiset(xs[..n])) + multiset(RemoveLongRuns(xs[RunLength(xs)..], m))
  {
  }

  /** For grouped input, a value keeps all its occurrences when its block has
      at most `m` of them and loses them all otherwise. */
  lemma {:induction false} RemoveLongRunsCounts(xs: seq<int>, m: nat, v: int)
    requires Grouped(xs)
    ensures multiset(RemoveLongRuns(xs, m))[v] == if multiset(xs)[v] > m then 0 else multiset(xs)[v]
    decreases |xs|
  {
    if xs != [] {
      var n := RunLength(xs);
      var rest := xs[n..];
      var block := xs[..n];
      assert multiset(xs)[v] == multiset(block)[v] + multiset(rest)[v] by {
        assert xs == block + rest;
      }
      assert multiset(block)[v] == if v == xs[0] then n else 0 by {
        BlockCount(block, xs[0], v);
      }
      assert multiset(RemoveLongRuns(rest, m))[v] == if multiset(rest)[v] > m then 0 else multiset(rest)[v] by {
        GroupedSuffix(xs, n);
        RemoveLongRunsCounts(rest, m, v);
      }
      assert multiset(RemoveLongRuns(xs, m))[v] == (if n > m then 0 else multiset(block)[v]) + multiset(RemoveLongRuns(rest, m))[v] by {
        RemoveLongRunsFirst(xs, m);
      }
      if v == xs[0] {
        assert multiset(rest)[v] == 0 by {
          FirstBlockOnly(xs);
        }
      }
    }
  }

  lemma {:induction false} BlockCount(block: seq<int>, x: int, v: int)
    requires forall k :: 0 <= k < |block| ==> block[k] == x
    ensures multiset(block)[v] == if v == x then |block| else 0
    decreases |block|
  {
    if block != [] {
      assert block == block[..|block| - 1] + [block[|block| - 1]];
      BlockCount(block[..|block| - 1], x, v);
    }
  }

  /** A block of `x` followed by a list that does not start with `x`: each of
      its positions starts a run reaching to the end of the block. */
  lemma {:induction false} RunInBlock(block: seq<int>, rest: seq<int>, i: nat)
    requires i < |block| && forall k :: 0 <= k < |block| ==> block[k] == block[0]
    requires rest == [] || rest[0] != block[0]
    ensures RunLength((block + rest)[i..]) == |block| - i
  {
    var ys := (block + rest)[i..];
    forall k | 0 <= k < |block| - i
      ensures ys[k] == ys[0]
    {
    }
    RunLengthUnique(ys, |block| - i);
  }

  /** For grouped input no block longer than `m` is left. */
  lemma {:induction false} NoLongRunsLeft(xs: seq<int>, m: nat)
    requires Grouped(xs)
    ensures forall i :: 0 <= i < |RemoveLongRuns(xs, m)| ==> RunLength(RemoveLongRuns(xs, m)[i..]) <= m
    decreases |xs|
  {
    if xs != [] {
      var n := RunLength(xs);
      var rest := xs[n..];
      var kept := RemoveLongRuns(rest, m);
      assert forall i :: 0 <= i < |kept| ==> RunLength(kept[i..]) <= m by {
        GroupedSuffix(xs, n);
        NoLongRunsLeft(rest, m);
      }
      assert kept == [] || kept[0] != xs[0] by {
        if kept != [] {
          FirstBlockOnly(xs);
          RemoveLongRunsShrinks(rest, m);
          assert kept[0] in multiset(kept);
        }
      }
      if n > m {
        assert RemoveLongRuns(xs, m) == kept;
      } else {
        assert RemoveLongRuns(xs, m) == xs[..n] + kept;
        RunsAfterBlock(xs[..n], kept, m);
      }
    }
  }

  /** A block of at most `m` equal values in front of a list without long
      blocks that does not start with the same value adds no long block. */
  lemma RunsAfterBlock(block: seq<int>, kept: seq<int>, m: nat)
    requires 1 <= |block| <= m && forall k :: 0 <= k < |block| ==> block[k] == block[0]
    requires kept == [] || kept[0] != block[0]
    requires forall i :: 0 <= i < |kept| ==> RunLength(kept[i..]) <= m
    ensures forall i :: 0 <= i < |block + kept| ==> RunLength((block + kept)[i..]) <= m
  {
    var r := block + kept;
    forall i | 0 <= i < |r|
      ensures RunLength(r[i..]) <= m
    {
      if i < |block| {
        RunInBlock(block, kept, i);
      } else {
        assert r[i..] == kept[i - |block|..];
      }
    }
  }

  /** Why the input must be grouped: when a deleted block separates two
      blocks of the same value, those two meet and form a block longer than
      `m` in the result. */
  lemma UngroupedInputMerges()
    ensures RemoveLongRuns([1, 2, 2, 2, 1], 1) == [1, 1]
    ensures RunLength([1, 1]) == 2
  {
    var xs := [1, 2, 2, 2, 1];
    RunLengthUnique(xs, 1);
    RunLengthUnique(xs[1..], 3);
    assert xs[1..][3..] == [1];
    assert xs[4..] == [1];
    assert RemoveLongRuns(xs[1..], 1) == RemoveLongRuns([1], 1);
  }

  /** The first block of a list whose length is known. */
  lemma FrontBlock(xs: seq<int>, n: nat, m: nat)
    requires 1 <= n <= |xs|
    requires forall k :: 0 <= k < n ==> xs[k] == xs[0]
    requires n == |xs| || xs[n] != xs[0]
    ensures RemoveLongRuns(xs, m) == (if n > m then [] else xs[..n]) + RemoveLongRuns(xs[n..], m)
  {
    RunLengthUnique(xs, n);
  }

  /** The first sample list with `m` = 2, where blocks of three or more go. */
  lemma SampleRemoval()
    ensures RemoveLongRuns([1, 2, 2, 3, 3, 3], 2) == [1, 2, 2]
  {
    var zs := [1, 2, 2, 3, 3, 3];
    assert RemoveLongRuns(zs[3..], 2) == [] by {
      FrontBlock(zs[3..], 3, 2);
      assert zs[3..][3..] == [];
    }
    assert RemoveLongRuns(zs[1..], 2) == [2, 2] by {
      FrontBlock(zs[1..], 2, 2);
      assert zs[1..][2..] == zs[3..];
    }
    FrontBlock(zs, 1, 2);
  }

  // ----- The list -----

  /** The arena `data`/`next` (node 0 the sentinel head, -1 a null `next`)
      holds a well-formed list whose nodes after the head are `order`, in
      list order, and `tail` is its last node, or the head when it is empty. */
  ghost predicate IsList(data: seq<int>, next: seq<int>, tail: int, order: seq<int>)
  {
    |next| == |data| >= 1 &&
    (forall k :: 0 <= k < |order| ==> 1 <= order[k] < |data|) &&
    (forall j, k :: 0 <= j < k < |order| ==> order[j] != order[k]) &&
    next[0] == (if order == [] then -1 else order[0]) &&
    (forall k {:trigger next[order[k]]} :: 0 <= k < |order| ==> next[order[k]] == Succ(order, k)) &&
    tail == (if order == [] then 0 else order[|order| - 1])
  }

  /** The values stored at the nodes `order`. */
  function ValuesAt(data: seq<int>, order: seq<int>): (s: seq<int>)
    requires forall k :: 0 <= k < |order| ==> 0 <= order[k] < |data|
    ensures |s| == |order|
  {
    seq(|order|, k requires 0 <= k < |order| => data[order[k]])
  }

  lemma ValuesAtIndex(data: seq<int>, order: seq<int>)
    requires forall k :: 0 <= k < |order| ==> 0 <= order[k] < |data|
    ensures forall k :: 0 <= k < |order| ==> ValuesAt(data, order)[k] == data[order[k]]
  {
  }

  /** The values after position `pos` are those of the nodes there. */
  lemma RestAt(data: seq<int>, order: seq<int>, kept: seq<int>, rest: seq<int>, pos: int)
    requires forall k :: 0 <= k < |order| ==> 0 <= order[k] < |data|
    requires ValuesAt(data, order) == kept + rest && |kept| == pos + 1
    ensures |rest| == |order| - pos - 1
    ensures forall k :: 0 <= k < |rest| ==> rest[k] == data[order[pos + 1 + k]]
  {
    ValuesAtIndex(data, order);
    forall k | 0 <= k < |rest|
      ensures rest[k] == data[order[pos + 1 + k]]
    {
      assert rest[k] == (kept + rest)[pos + 1 + k];
    }
  }

  /** The nodes after position `pos` that hold `target`, up to the first
      that does not, make up the first run of the values after `pos`. */
  lemma RunOfNodes(data: seq<int>, order: seq<int>, rest: seq<int>, pos: int, count: nat, target: int)
    requires forall k :: 0 <= k < |order| ==> 0 <= order[k] < |data|
    requires -1 <= pos && |rest| == |order| - pos - 1
    requires forall k :: 0 <= k < |rest| ==> rest[k] == data[order[pos + 1 + k]]
    requires 1 <= count && pos + count < |order|
    requires forall k :: pos + 1 <= k <= pos + count ==> data[order[k]] == target
    requires pos + count + 1 < |order| ==> data[order[pos + count + 1]] != target
    ensures count <= |rest| && RunLength(rest) == count
  {
    forall k | 0 <= k < count
      ensures rest[k] == target
    {
      assert rest[k] == data[order[pos + 1 + k]];
    }
    if pos + count + 1 < |order| {
      assert rest[count] == data[order[pos + 1 + count]];
    }
    RunLengthUnique(rest, count);
  }

  /** The node after list position `k`, or -1 (null) after the last one. */
  function Succ(order: seq<int>, k: nat): int
    requires k < |order|
  {
    if k + 1 < |order| then order[k + 1] else -1
  }

  /** The node at list position `pos`, the head standing at position -1. */
  function NodeAt(order: seq<int>, pos: int): int
    requires -1 <= pos < |order|
  {
    if pos == -1 then 0 else order[pos]
  }

  /** The link out of the `k`-th node after `before->next` skips the `count`
      nodes after position `pos`. */
  lemma UnlinkLinkAt(next: seq<int>, order: seq<int>, pos: int, count: nat,
                     next': seq<int>, order': seq<int>, k: nat)
    requires 0 <= k < |order'|
    requires forall j :: 0 <= j < |order| ==> 1 <= order[j] < |next|
    requires forall i, j :: 0 <= i < j < |order| ==> order[i] != order[j]
    requires forall j {:trigger next[order[j]]} :: 0 <= j < |order| ==> next[order[j]] == Succ(order, j)
    requires -1 <= pos && 1 <= count && pos + count < |order|
    requires next' == next[NodeAt(order, pos) := next[order[pos + count]]]
    requires order' == order[..pos + 1] + order[pos + 1 + count..]
    ensures next'[order'[k]] == Succ(order', k)
  {
    if k < pos {
      assert order'[k] == order[k] && order'[k + 1] == order[k + 1];
      assert order[k] != order[pos];
    } else if k == pos {
      var j := pos + count;
      assert order'[k] == NodeAt(order, pos);
      assert next'[NodeAt(order, pos)] == next[order[j]];
      assert next[order[j]] == if j + 1 < |order| then order[j + 1] else -1;
      assert k + 1 < |order'| ==> order'[k + 1] == order[j + 1];
    } else {
      var j := k + count;
      assert order'[k] == order[j];
      assert order[j] != NodeAt(order, pos) by {
        if pos >= 0 {
          assert pos < j;
        }
      }
      assert next'[order[j]] == next[order[j]];
      assert next[order[j]] == if j + 1 < |order| then order[j + 1] else -1;
      assert k + 1 < |order'| ==> order'[k + 1] == order[j + 1];
    }
  }

  /** The nodes left after skipping are still distinct node ids. */
  lemma UnlinkNodes(n: nat, order: seq<int>, pos: int, count: nat, order': seq<int>)
    requires forall j :: 0 <= j < |order| ==> 1 <= order[j] < n
    requires forall i, j :: 0 <= i < j < |order| ==> order[i] != order[j]
    requires -1 <= pos && pos + 1 + count <= |order|
    requires order' == order[..pos + 1] + order[pos + 1 + count..]
    ensures forall j :: 0 <= j < |order'| ==> 1 <= order'[j] < n
    ensures forall i, j :: 0 <= i < j < |order'| ==> order'[i] != order'[j]
  {
    forall i, j | 0 <= i < j < |order'|
      ensures order'[i] != order'[j]
    {
      var i0 := if i <= pos then i else i + count;
      var j0 := if j <= pos then j else j + count;
      assert order'[i] == order[i0] && order'[j] == order[j0];
    }
  }

  /** Skipping nodes removes exactly their values. */
  lemma UnlinkValues(data: seq<int>, order: seq<int>, pos: int, count: nat, order': seq<int>)
    requires forall j :: 0 <= j < |order| ==> 0 <= order[j] < |data|
    requires -1 <= pos && pos + 1 + count <= |order|
    requires order' == order[..pos + 1] + order[pos + 1 + count..]
    ensures forall j :: 0 <= j < |order'| ==> 0 <= order'[j] < |data|
    ensures ValuesAt(data, order') == ValuesAt(data, order)[..pos + 1] + ValuesAt(data, order)[pos + 1 + count..]
  {
    var vs := ValuesAt(data, order);
    var ws := vs[..pos + 1] + vs[pos + 1 + count..];
    forall j | 0 <= j < |order'|
      ensures 0 <= order'[j] < |data| && ValuesAt(data, order')[j] == ws[j]
    {
      var j0 := if j <= pos then j else j + count;
      assert order'[j] == order[j0] && ws[j] == vs[j0];
    }
  }

  /** Making `before->next` skip the `count` nodes after position `pos`, and
      moving the tail back when the last of them was the tail, leaves a
      well-formed list holding the other values in the same order. */
  lemma Unlink(data: seq<int>, next: seq<int>, tail: int, order: seq<int>, pos: int, count: nat,
               next': seq<int>, tail': int, order': seq<int>)
    requires IsList(data, next, tail, order)
    requires -1 <= pos && 1 <= count && pos + count < |order|
    requires next' == next[NodeAt(order, pos) := next[order[pos + count]]]
    requires tail' == if order[pos + count] == tail then NodeAt(order, pos) else tail
    requires order' == order[..pos + 1] + order[pos + 1 + count..]
    ensures IsList(data, next', tail', order')
    ensures ValuesAt(data, order') == ValuesAt(data, order)[..pos + 1] + ValuesAt(data, order)[pos + 1 + count..]
  {
    forall k | 0 <= k < |order'|
      ensures next'[order'[k]] == Succ(order', k)
    {
      UnlinkLinkAt(next, order, pos, count, next', order', k);
    }
    UnlinkNodes(|data|, order, pos, count, order');
    UnlinkValues(data, order, pos, count, order');
    UnlinkEnds(next, tail, order, pos, count, next', tail', order');
  }

  /** After skipping, the head still links to the first node and the tail
      is the last node (or the head). */
  lemma UnlinkEnds(next: seq<int>, tail: int, order: seq<int>, pos: int, count: nat,
                   next': seq<int>, tail': int, order': seq<int>)
    requires 1 <= |next| && next[0] == (if order == [] then -1 else order[0])
    requires forall j :: 0 <= j < |order| ==> 1 <= order[j] < |next|
    requires forall i, j :: 0 <= i < j < |order| ==> order[i] != order[j]
    requires tail == (if order == [] then 0 else order[|order| - 1])
    requires -1 <= pos && 1 <= count && pos + count < |order|
    requires next' == next[NodeAt(order, pos) := next[order[pos + count]]]
    requires forall j {:trigger next[order[j]]} :: 0 <= j < |order| ==> next[order[j]] == Succ(order, j)
    requires tail' == if order[pos + count] == tail then NodeAt(order, pos) else tail
    requires order' == order[..pos + 1] + order[pos + 1 + count..]
    ensures next'[0] == if order' == [] then -1 else order'[0]
    ensures tail' == if order' == [] then 0 else order'[|order'| - 1]
  {
    if pos == -1 {
      assert next'[0] == next[order[count - 1]] == Succ(order, count - 1);
      assert order' != [] ==> order'[0] == order[count];
    } else {
      assert order[0] != NodeAt(order, pos) || pos == 0;
      assert order' != [] && order'[0] == order[0];
    }
    if order[pos + count] == tail {
      assert pos + count == |order| - 1;
    } else {
      assert pos + count < |order| - 1;
      assert order'[|order'| - 1] == order[|order| - 1];
    }
  }

  /** Linking a fresh node after the tail makes it the new last node. */
  lemma AppendNode(data: seq<int>, next: seq<int>, tail: int, order: seq<int>, value: int)
    requires IsList(data, next, tail, order)
    ensures var node := |data|;
      IsList(data + [value], (next + [-1])[tail := node], node, order + [node]) &&
      ValuesAt(data + [value], order + [node]) == ValuesAt(data, order) + [value]
  {
    var node := |data|;
    var next', order' := (next + [-1])[tail := node], order + [node];
    AppendLinks(next, tail, order, node);
    assert next'[0] == if order' == [] then -1 else order'[0] by {
      if order != [] {
        assert order[0] != 0;
      }
    }
    AppendValues(data, order, value);
  }

  /** The links after appending `node` behind the tail. */
  lemma AppendLinks(next: seq<int>, tail: int, order: seq<int>, node: int)
    requires node == |next| >= 1
    requires forall k :: 0 <= k < |order| ==> 1 <= order[k] < |next|
    requires forall j, k :: 0 <= j < k < |order| ==> order[j] != order[k]
    requires forall k {:trigger next[order[k]]} :: 0 <= k < |order| ==> next[order[k]] == Succ(order, k)
    requires tail == (if order == [] then 0 else order[|order| - 1])
    ensures forall k {:trigger (order + [node])[k]} :: 0 <= k < |order| + 1 ==>
      (next + [-1])[tail := node][(order + [node])[k]] == Succ(order + [node], k)
  {
    var next', order' := (next + [-1])[tail := node], order + [node];
    forall k | 0 <= k < |order'|
      ensures next'[order'[k]] == Succ(order', k)
    {
      if k + 1 < |order| {
        assert order[k] != order[|order| - 1];
        assert next'[order[k]] == next[order[k]] == Succ(order, k);
      } else if k + 1 == |order| {
        assert order'[k] == tail;
      } else {
        assert order'[k] == node != tail;
      }
    }
  }

  /** The values after appending a node holding `value`. */
  lemma AppendValues(data: seq<int>, order: seq<int>, value: int)
    requires forall k :: 0 <= k < |order| ==> 0 <= order[k] < |data|
    ensures ValuesAt(data + [value], order + [|data|]) == ValuesAt(data, order) + [value]
  {
  }

  class SinglyLinkedList {
    /** `data` and `next` of every node made so far, by node id; node 0 is
        the sentinel `_head`, and -1 stands for a null `next`. */
    var data: seq<int>
    var next: seq<int>
    /** `_tail`: the last node, or the head when the list is empty. */
    var tail: int
    /** The ids of the nodes reachable from the head, in list order. */
    ghost var order: seq<int>

    ghost predicate Valid()
      reads this
    {
      IsList(data, next, tail, order)
    }

    /** The values in the list, in order. */
    ghost function Contents(): (s: seq<int>)
      reads this
      requires Valid()
      ensures |s| == |order|
    {
      ValuesAt(data, order)
    }

    constructor()
      ensures Valid() && Contents() == []
    {
      data, next, tail := [0], [-1], 0;
      order := [];
    }

    /** `Append`: a new node after the tail, which becomes the tail. */
    method Append(value: int)
      requires Valid()
      modifies this
      ensures Valid() && Contents() == old(Contents()) + [value]
    {
      var node := |data|;
      AppendNode(data, next, tail, order, value);
      data, next := data + [value], next + [-1];
      next := next[tail := node];
      tail := node;
      order := order + [node];
    }

    /** `FindLastOccurrenceOf`: the block of equal values that starts right
        after the node at position `pos` (which must have a successor), the
        list's values being `kept` up to `pos` and `rest` after it; the count
        is the block's length and the result its last node. */
    method FindLastOccurrenceOf(beforeStart: int, ghost pos: int, ghost kept: seq<int>, ghost rest: seq<int>)
      returns (end: int, elCount: nat)
      requires Valid() && -1 <= pos < |order| - 1 && beforeStart == NodeAt(order, pos)
      requires Contents() == kept + rest && |kept| == pos + 1
      ensures 1 <= elCount <= |rest| && elCount == RunLength(rest)
      ensures pos + elCount < |order| && end == order[pos + elCount]
    {
      assert next[beforeStart] == order[pos + 1];
      var targetValue := data[next[beforeStart]];
      var curr := next[beforeStart];
      elCount := 1;
      while next[curr] != -1 && data[next[curr]] == targetValue
        invariant 1 <= elCount && pos + elCount < |order| && curr == order[pos + elCount]
        invariant next[curr] == if pos + elCount + 1 < |order| then order[pos + elCount + 1] else -1
        invariant forall k :: pos + 1 <= k <= pos + elCount ==> data[order[k]] == targetValue
        decreases |order| - pos - elCount
      {
        curr := next[curr];
        elCount := elCount + 1;
      }
      end := curr;
      assert pos + elCount + 1 < |order| ==> data[order[pos + elCount + 1]] != targetValue;
      RestAt(data, order, kept, rest, pos);
      RunOfNodes(data, order, rest, pos, elCount, targetValue);
    }

    /** Unlinks the `count` nodes after position `pos`, the last of which is
        `end`, moving `_tail` back to `before` when `end` was the tail. */
    method UnlinkBlock(beforeStart: int, ghost pos: int, end: int, ghost count: nat,
                       ghost kept: seq<int>, ghost rest: seq<int>)
      requires Valid() && -1 <= pos && 1 <= count && pos + count < |order|
      requires beforeStart == NodeAt(order, pos) && end == order[pos + count]
      requires Contents() == kept + rest && |kept| == pos + 1
      modifies this
      ensures Valid() && |order| == old(|order|) - count
      ensures pos < |order| && NodeAt(order, pos) == beforeStart
      ensures Contents() == kept + rest[count..]
    {
      Split(kept, rest, count);
      ghost var next', tail', order' := next[beforeStart := next[end]],
        if end == tail then beforeStart else tail, order[..pos + 1] + order[pos + 1 + count..];
      Unlink(data, next, tail, order, pos, count, next', tail', order');
      if end == tail {
        tail := beforeStart;
      }
      next := next[beforeStart := next[end]];
      order := order';
    }

    /** `RemoveElementsMoreThanM`: deletes every block longer than `m`, keeps
        `_tail` on the last node (or the head), and changes nothing else. */
    method RemoveElementsMoreThanM(m: nat)
      requires Valid()
      modifies this
      ensures Valid() && Contents() == RemoveLongRuns(old(Contents()), m)
    {
      ghost var original := Contents();
      ghost var kept: seq<int> := [];
      ghost var rest := original;
      ghost var pos := -1;
      var beforeStart := 0;
      while next[beforeStart] != -1
        invariant Valid() && -1 <= pos < |order| && beforeStart == NodeAt(order, pos)
        invariant 0 <= beforeStart < |next| && |kept| == pos + 1
        invariant Contents() == kept + rest
        invariant RemoveLongRuns(original, m) == kept + RemoveLongRuns(rest, m)
        decreases |order| - pos
      {
        HasNext(data, next, tail, order, pos);
        var end, elCount := FindLastOccurrenceOf(beforeStart, pos, kept, rest);
        if elCount > m {
          RemoveStepDrop(original, kept, rest, elCount, m);
          UnlinkBlock(beforeStart, pos, end, elCount, kept, rest);
        } else {
          RemoveStepKeep(original, kept, rest, elCount, m);
          assert kept + rest == (kept + rest[..elCount]) + rest[elCount..] by {
            Split(kept, rest, elCount);
          }
          beforeStart := end;
          pos := pos + elCount;
          kept := kept + rest[..elCount];
        }
        rest := rest[elCount..];
      }
      HasNext(data, next, tail, order, pos);
    }
  }

  /** The node at position `pos` has a successor exactly when it is not the
      last one. */
  lemma HasNext(data: seq<int>, next: seq<int>, tail: int, order: seq<int>, pos: int)
    requires IsList(data, next, tail, order) && -1 <= pos < |order|
    ensures 0 <= NodeAt(order, pos) < |next|
    ensures next[NodeAt(order, pos)] != -1 <==> pos + 1 < |order|
  {
    if pos + 1 < |order| {
      assert next[NodeAt(order, pos)] == order[pos + 1];
    } else if pos >= 0 {
      assert next[order[pos]] == Succ(order, pos);
    }
  }

  /** One block of the removal: the block at the front of what is left,
      `count` elements long, is deleted when longer than `m`... */
  lemma RemoveStepDrop(original: seq<int>, kept: seq<int>, rest: seq<int>, count: nat, m: nat)
    requires rest != [] && count == RunLength(rest) && count > m
    requires RemoveLongRuns(original, m) == kept + RemoveLongRuns(rest, m)
    ensures RemoveLongRuns(original, m) == kept + RemoveLongRuns(rest[count..], m)
  {
    RemoveFront(rest, count, m);
    assert [] + RemoveLongRuns(rest[count..], m) == RemoveLongRuns(rest[count..], m);
  }

  /** ... and kept otherwise. */
  lemma RemoveStepKeep(original: seq<int>, kept: seq<int>, rest: seq<int>, count: nat, m: nat)
    requires rest != [] && count == RunLength(rest) && count <= m
    requires RemoveLongRuns(original, m) == kept + RemoveLongRuns(rest, m)
    ensures RemoveLongRuns(original, m) == (kept + rest[..count]) + RemoveLongRuns(rest[count..], m)
  {
    RemoveFront(rest, count, m);
    Regroup(RemoveLongRuns(original, m), kept, RemoveLongRuns(rest, m), rest[..count], RemoveLongRuns(rest[count..], m));
  }

  lemma RemoveFront(rest: seq<int>, count: nat, m: nat)
    requires rest != [] && count == RunLength(rest)
    ensures RemoveLongRuns(rest, m) == (if count > m then [] else rest[..count]) + RemoveLongRuns(rest[count..], m)
  {
  }

  lemma Regroup(whole: seq<int>, kept: seq<int>, rest: seq<int>, block: seq<int>, later: seq<int>)
    requires whole == kept + rest && rest == block + later
    ensures whole == (kept + block) + later
  {
  }

  /** The list split after its kept part, and with a block cut out. */
  lemma Split(kept: seq<int>, rest: seq<int>, count: nat)
    requires count <= |rest|
    ensures (kept + rest)[|kept|..] == rest
    ensures (kept + rest)[..|kept|] + (kept + rest)[|kept| + count..] == kept + rest[count..]
    ensures kept + rest == (kept + rest[..count]) + rest[count..]
  {
    assert rest == rest[..count] + rest[count..];
  }
}
