/** Ch_16_Dynamic_Programming/longest_nondecreasing_subsequence_optimal.cpp:
    a longest non-decreasing subsequence in O(n log n), patience style. An
    ordered map keyed by end value holds one active sequence per length
    (its last index and its length), a second map finds the active sequence
    of a given length, and back-pointers rebuild the answer at the end. */
module NondecreasingSubsequences {
  import opened Subsequences

  /** The payload of an active sequence in the ordered map: the input index
      of its last element and its length. */
  datatype IndexLength = IndexLength(index: nat, length: nat)

  ghost predicate NonDecreasing(s: seq<int>)
  {
    forall j, k :: 0 <= j < k < |s| ==> s[j] <= s[k]
  }

  /** Every back-pointer is -1 or an earlier index that has one too. */
  ghost predicate Linked(prev: map<nat, int>)
  {
    forall j {:trigger prev[j]} :: j in prev ==> prev[j] == -1 || (0 <= prev[j] < j && prev[j] in prev)
  }

  /** The back-pointers after the first `i` elements: one per index below
      `i`, each -1 or an earlier index whose value is no larger. */
  ghost predicate BackPointers(input: seq<int>, i: nat, prev: map<nat, int>)
  {
    i <= |input| && (forall j: int :: j in prev <==> 0 <= j < i) && Linked(prev) &&
    forall j {:trigger prev[j]} :: j in prev ==> prev[j] == -1 || input[prev[j]] <= input[j]
  }

  /** The indices reached by following back-pointers from `j`, in input
      order. */
  ghost function Chain(prev: map<nat, int>, j: nat): (c: seq<int>)
    requires Linked(prev) && j in prev
    ensures c != [] && c[|c| - 1] == j
    ensures forall k :: 0 <= k < |c| ==> 0 <= c[k] <= j
    decreases j
  {
    if prev[j] == -1 then [j] else Chain(prev, prev[j]) + [j]
  }

  /** A back-pointer chain picks a non-decreasing subsequence that ends with
      the value at `j`. */
  lemma {:induction false} ChainIsSubsequence(input: seq<int>, i: nat, prev: map<nat, int>, j: nat)
    requires BackPointers(input, i, prev) && j in prev
    ensures Embeds(Chain(prev, j), j + 1)
    ensures NonDecreasing(Pick(input, Chain(prev, j)))
    ensures forall v :: v in Pick(input, Chain(prev, j)) ==> v <= input[j]
    decreases j
  {
    var c := Chain(prev, j);
    if prev[j] == -1 {
      assert Pick(input, c) == [input[j]];
    } else {
      var p := prev[j];
      var front := Chain(prev, p);
      ChainIsSubsequence(input, i, prev, p);
      PickAppend(input, front, j);
      PickIndex(input, front);
      var s := Pick(input, c);
      forall a, b | 0 <= a < b < |s|
        ensures s[a] <= s[b]
      {
        assert s[a] in Pick(input, front) || a == |s| - 1;
        if b < |s| - 1 {
          assert s[b] == Pick(input, front)[b];
        }
      }
    }
  }

  /** Adding a back-pointer for a new, later index leaves every existing
      chain as it was. */
  lemma {:induction false} ChainExtend(prev: map<nat, int>, i: nat, p: int, j: nat)
    requires Linked(prev) && Linked(prev[i := p]) && i !in prev && j in prev
    ensures Chain(prev[i := p], j) == Chain(prev, j)
    decreases j
  {
    if prev[j] != -1 {
      ChainExtend(prev, i, p, prev[j]);
    }
  }

  /** `std::map::upper_bound` followed by `std::prev`: the greatest key not
      above `x`, when there is one. */
  ghost predicate IsFloor(bst: map<int, IndexLength>, x: int, found: bool, key: int)
  {
    (found ==> key in bst && key <= x && forall k :: k in bst && k <= x ==> k <= key) &&
    (!found ==> forall k :: k in bst ==> x < k)
  }

  /** A finite set of keys with one not above `x` has a greatest such key. */
  lemma {:induction false} FloorExists(keys: set<int>, x: int, k0: int) returns (m: int)
    requires k0 in keys && k0 <= x
    ensures m in keys && m <= x && forall k :: k in keys && k <= x ==> k <= m
    decreases |keys|
  {
    var rest := keys - {k0};
    m := k0;
    if k1 :| k1 in rest && k1 <= x {
      var m' := FloorExists(rest, x, k1);
      if k0 < m' {
        m := m';
      }
    }
    forall k | k in keys && k <= x
      ensures k <= m
    {
      if k != k0 {
        assert k in rest;
      }
    }
  }

  /** Lines 42-46: look up the active sequence with the greatest end value
      not above `x`. */
  method FloorEntry(bst: map<int, IndexLength>, x: int) returns (found: bool, key: int)
    ensures IsFloor(bst, x, found, key)
    ensures found <==> exists k :: k in bst && k <= x
  {
    if k0 :| k0 in bst && k0 <= x {
      ghost var m := FloorExists(bst.Keys, x, k0);
      key :| key in bst && key <= x && forall k :: k in bst && k <= x ==> k <= key;
      found := true;
    } else {
      found, key := false, 0;
    }
  }

  /** Every active sequence ends at an index below `i` whose value is its
      key, and its length is that of the back-pointer chain from there. */
  ghost predicate Entries(input: seq<int>, i: nat, bst: map<int, IndexLength>, prev: map<nat, int>)
    requires BackPointers(input, i, prev)
  {
    forall k :: k in bst ==>
      bst[k].index < i && input[bst[k].index] == k && |Chain(prev, bst[k].index)| == bst[k].length
  }

  /** Active sequences are non-empty, and shorter ones have smaller end
      values. */
  ghost predicate Ordered(bst: map<int, IndexLength>)
  {
    (forall k :: k in bst ==> bst[k].length >= 1) &&
    forall k1, k2 :: k1 in bst && k2 in bst && k1 < k2 ==> bst[k1].length < bst[k2].length
  }

  /** The length index and the ordered map are in bijection: one active
      sequence per length. */
  ghost predicate Indexed(bst: map<int, IndexLength>, lenMap: map<nat, int>)
  {
    (forall n :: n in lenMap ==> lenMap[n] in bst && bst[lenMap[n]].length == n) &&
    (forall k :: k in bst ==> bst[k].length in lenMap && lenMap[bst[k].length] == k)
  }

  /** `max_length` is the longest active length, and has an entry once an
      element has been seen. */
  ghost predicate MaxTracked(i: nat, bst: map<int, IndexLength>, lenMap: map<nat, int>, maxLen: nat)
  {
    (i == 0 ==> maxLen == 0) && (i > 0 ==> maxLen in lenMap) &&
    forall k :: k in bst ==> bst[k].length <= maxLen
  }

  /** Some active sequence is at least as long as the subsequence at `idx`
      and ends with a value no larger. */
  ghost predicate Covers(input: seq<int>, bst: map<int, IndexLength>, idx: seq<int>)
    requires forall k :: 0 <= k < |idx| ==> 0 <= idx[k] < |input|
  {
    idx != [] ==> exists k :: k in bst && k <= input[idx[|idx| - 1]] && bst[k].length >= |idx|
  }

  /** Every non-decreasing subsequence of `input[..i]` is covered. */
  ghost predicate AllCovered(input: seq<int>, i: nat, bst: map<int, IndexLength>)
  {
    i <= |input| &&
    forall idx {:trigger Covers(input, bst, idx)} ::
      Embeds(idx, i) && NonDecreasing(Pick(input, idx)) ==> Covers(input, bst, idx)
  }

  /** What the main loop keeps after the first `i` elements. */
  ghost predicate Active(input: seq<int>, i: nat, bst: map<int, IndexLength>, lenMap: map<nat, int>,
                         prev: map<nat, int>, maxLen: nat)
  {
    BackPointers(input, i, prev) && Entries(input, i, bst, prev) && Ordered(bst) &&
    Indexed(bst, lenMap) && MaxTracked(i, bst, lenMap, maxLen) && AllCovered(input, i, bst)
  }

  lemma ActiveStart(input: seq<int>)
    ensures Active(input, 0, map[], map[], map[], 0)
  {
    forall idx | Embeds(idx, 0) && NonDecreasing(Pick(input, idx))
      ensures Covers(input, map[], idx)
    {
      EmbedsBound(idx, 0);
    }
  }

  /** The length a new element gets: one more than the sequence it extends,
      or 1 (lines 48-49). */
  function NewLength(bst: map<int, IndexLength>, found: bool, key: int): (n: nat)
    requires found ==> key in bst
    ensures n >= 1
  {
    if found then bst[key].length + 1 else 1
  }

  /** Where the new element's length falls among the active sequences: those
      ending at or below `x` are shorter, those above are at least as long,
      so the one of the same length, if any, ends above `x`. */
  lemma NewLengthPlace(bst: map<int, IndexLength>, lenMap: map<nat, int>, x: int, found: bool, key: int)
    requires Ordered(bst) && Indexed(bst, lenMap) && IsFloor(bst, x, found, key)
    ensures forall k :: k in bst && k <= x ==> bst[k].length < NewLength(bst, found, key)
    ensures forall k :: k in bst && x < k ==> bst[k].length >= NewLength(bst, found, key)
    ensures NewLength(bst, found, key) in lenMap ==> x < lenMap[NewLength(bst, found, key)]
  {
    var n := NewLength(bst, found, key);
    forall k | k in bst && k <= x
      ensures bst[k].length < n
    {
      assert k <= key;
    }
    forall k | k in bst && x < k
      ensures bst[k].length >= n
    {
      if found {
        assert bst[key].length < bst[k].length;
      }
    }
  }

  /** Erasing one active sequence, from both maps, keeps them ordered and
      in bijection. */
  lemma EraseEntry(bst: map<int, IndexLength>, lenMap: map<nat, int>, k: int)
    requires Ordered(bst) && Indexed(bst, lenMap) && k in bst
    ensures Ordered(bst - {k}) && Indexed(bst - {k}, lenMap - {bst[k].length})
  {
    var bst', lenMap' := bst - {k}, lenMap - {bst[k].length};
    forall k' | k' in bst'
      ensures bst'[k'].length in lenMap' && lenMap'[bst'[k'].length] == k'
    {
      if k' < k {
        assert bst[k'].length < bst[k].length;
      } else {
        assert bst[k].length < bst[k'].length;
      }
    }
  }

  /** The two erasures of lines 57-68: the result is a sub-map, ordered and
      in bijection, without the key `x` and without the new length. */
  lemma EraseShape(bst: map<int, IndexLength>, lenMap: map<nat, int>, x: int, found: bool, key: int,
                   bst1: map<int, IndexLength>, lenMap1: map<nat, int>,
                   bst2: map<int, IndexLength>, lenMap2: map<nat, int>)
    requires Ordered(bst) && Indexed(bst, lenMap) && IsFloor(bst, x, found, key)
    requires var n := NewLength(bst, found, key);
      bst1 == (if n in lenMap then bst - {lenMap[n]} else bst) &&
      lenMap1 == (if n in lenMap then lenMap - {n} else lenMap)
    requires bst2 == (if found && key == x then bst1 - {key} else bst1)
    requires lenMap2 == (if found && key == x then lenMap1 - {bst[key].length} else lenMap1)
    ensures forall k :: k in bst2 ==> k in bst && bst2[k] == bst[k]
    ensures x !in bst2 && Ordered(bst2) && Indexed(bst2, lenMap2)
    ensures NewLength(bst, found, key) !in lenMap2
    ensures forall m :: m in lenMap && m > NewLength(bst, found, key) ==> m in lenMap2
  {
    var n := NewLength(bst, found, key);
    NewLengthPlace(bst, lenMap, x, found, key);
    if n in lenMap {
      EraseEntry(bst, lenMap, lenMap[n]);
    }
    if found && key == x {
      assert key in bst1;
      EraseEntry(bst1, lenMap1, key);
    }
    if x in bst {
      assert found && key == x;
    }
  }

  /** How the entries left after the erasures compare with the new length,
      and that each dropped entry ends no lower than `x` and is no longer
      than the new entry. */
  lemma EraseOrder(bst: map<int, IndexLength>, lenMap: map<nat, int>, x: int, found: bool, key: int,
                   bst1: map<int, IndexLength>, bst2: map<int, IndexLength>)
    requires Ordered(bst) && Indexed(bst, lenMap) && IsFloor(bst, x, found, key)
    requires var n := NewLength(bst, found, key);
      bst1 == (if n in lenMap then bst - {lenMap[n]} else bst)
    requires bst2 == (if found && key == x then bst1 - {key} else bst1)
    ensures forall k :: k in bst2 && k < x ==> bst[k].length < NewLength(bst, found, key)
    ensures forall k :: k in bst2 && x < k ==> bst[k].length > NewLength(bst, found, key)
    ensures forall k :: k in bst && k !in bst2 ==> x <= k && bst[k].length <= NewLength(bst, found, key)
  {
    var n := NewLength(bst, found, key);
    NewLengthPlace(bst, lenMap, x, found, key);
    forall k | k in bst && k !in bst2
      ensures x <= k && bst[k].length <= n
    {
      if k !in bst1 {
        assert k == lenMap[n];
      } else {
        assert k == key;
      }
    }
    forall k | k in bst2 && x < k
      ensures bst[k].length > n
    {
      assert k in bst1;
      if n in lenMap {
        assert k != lenMap[n];
      }
    }
  }

  /** The back-pointer a new element gets: the last index of the sequence it
      extends, or -1 (lines 50-51). */
  function PrevIndex(bst: map<int, IndexLength>, found: bool, key: int): (p: int)
    requires found ==> key in bst
    ensures p == -1 || found
  {
    if found then bst[key].index else -1
  }

  /** Recording the new back-pointer keeps the back-pointers well formed. */
  lemma StepBackPointers(input: seq<int>, i: nat, bst: map<int, IndexLength>, prev: map<nat, int>,
                         found: bool, key: int)
    requires i < |input| && BackPointers(input, i, prev) && Entries(input, i, bst, prev)
    requires IsFloor(bst, input[i], found, key)
    ensures BackPointers(input, i + 1, prev[i := PrevIndex(bst, found, key)])
  {
  }

  /** Every kept entry keeps its chain, and the new entry's chain is one
      longer than the one it extends. */
  lemma StepEntries(input: seq<int>, i: nat, bst: map<int, IndexLength>, prev: map<nat, int>,
                    found: bool, key: int, bst2: map<int, IndexLength>)
    requires i < |input| && BackPointers(input, i, prev) && Entries(input, i, bst, prev)
    requires IsFloor(bst, input[i], found, key)
    requires forall k :: k in bst2 ==> k in bst && bst2[k] == bst[k]
    ensures BackPointers(input, i + 1, prev[i := PrevIndex(bst, found, key)])
    ensures Entries(input, i + 1, bst2[input[i] := IndexLength(i, NewLength(bst, found, key))],
                    prev[i := PrevIndex(bst, found, key)])
  {
    var p := PrevIndex(bst, found, key);
    var prev' := prev[i := p];
    StepBackPointers(input, i, bst, prev, found, key);
    forall k | k in bst2
      ensures |Chain(prev', bst2[k].index)| == bst2[k].length
    {
      ChainExtend(prev, i, p, bst2[k].index);
    }
    if found {
      ChainExtend(prev, i, p, p);
      assert Chain(prev', i) == Chain(prev', p) + [i];
    }
  }

  /** The new entry sits between the shorter and the longer ones. */
  lemma StepOrdered(bst2: map<int, IndexLength>, x: int, e: IndexLength)
    requires Ordered(bst2) && x !in bst2 && e.length >= 1
    requires forall k :: k in bst2 && k < x ==> bst2[k].length < e.length
    requires forall k :: k in bst2 && x < k ==> bst2[k].length > e.length
    ensures Ordered(bst2[x := e])
  {
  }

  /** A subsequence ending before position `i` stays covered: by its old
      entry, or by the new one where that entry was dropped. */
  lemma CoverOld(input: seq<int>, i: nat, bst: map<int, IndexLength>, bst2: map<int, IndexLength>,
                 e: IndexLength, idx: seq<int>)
    requires i < |input| && AllCovered(input, i, bst)
    requires forall k :: k in bst2 ==> k in bst && bst2[k] == bst[k]
    requires input[i] !in bst2
    requires forall k :: k in bst && k !in bst2 ==> input[i] <= k && bst[k].length <= e.length
    requires Embeds(idx, i) && NonDecreasing(Pick(input, idx))
    ensures Covers(input, bst2[input[i] := e], idx)
  {
    var x := input[i];
    var bst' := bst2[x := e];
    assert Covers(input, bst, idx);
    if idx != [] {
      var w := input[idx[|idx| - 1]];
      var k :| k in bst && k <= w && bst[k].length >= |idx|;
      if k in bst2 {
        assert k in bst' && bst'[k] == bst[k];
      } else {
        assert x in bst' && x <= w && bst'[x].length >= |idx|;
      }
    }
  }

  /** A subsequence ending at position `i` is covered by the new entry: what
      comes before it is covered by an entry ending no higher than `x`, so
      the floor entry is at least that long. */
  lemma CoverNew(input: seq<int>, i: nat, bst: map<int, IndexLength>, found: bool, key: int,
                 bst2: map<int, IndexLength>, idx: seq<int>)
    requires i < |input| && AllCovered(input, i, bst) && Ordered(bst)
    requires IsFloor(bst, input[i], found, key)
    requires Embeds(idx, i + 1) && NonDecreasing(Pick(input, idx))
    requires idx != [] && idx[|idx| - 1] == i
    ensures Covers(input, bst2[input[i] := IndexLength(i, NewLength(bst, found, key))], idx)
  {
    var x := input[i];
    var n := NewLength(bst, found, key);
    var bst' := bst2[x := IndexLength(i, n)];
    var m := |idx| - 1;
    if m > 0 {
      var front := idx[..m];
      assert Embeds(front, i);
      PickPrefix(input, idx, m);
      assert Covers(input, bst, front);
      PickIndex(input, idx);
      assert Pick(input, idx)[m - 1] <= Pick(input, idx)[m];
      var k :| k in bst && k <= input[front[m - 1]] && bst[k].length >= m;
      assert k <= key;
      if k < key {
        assert bst[k].length < bst[key].length;
      }
    }
    assert x in bst' && x <= x && bst'[x].length >= |idx|;
  }

  /** Inserting the new entry in both maps keeps them in bijection. */
  lemma StepIndexed(bst2: map<int, IndexLength>, lenMap2: map<nat, int>, x: int, e: IndexLength)
    requires Indexed(bst2, lenMap2) && x !in bst2 && e.length !in lenMap2
    ensures Indexed(bst2[x := e], lenMap2[e.length := x])
  {
    var bst', lenMap' := bst2[x := e], lenMap2[e.length := x];
    forall k | k in bst'
      ensures bst'[k].length in lenMap' && lenMap'[bst'[k].length] == k
    {
      if k != x {
        assert bst2[k].length in lenMap2;
      }
    }
  }

  /** Every non-decreasing subsequence of `input[..i + 1]` is covered once
      the new entry is in. */
  lemma StepCovered(input: seq<int>, i: nat, bst: map<int, IndexLength>, found: bool, key: int,
                    bst2: map<int, IndexLength>)
    requires i < |input| && AllCovered(input, i, bst) && Ordered(bst)
    requires IsFloor(bst, input[i], found, key)
    requires forall k :: k in bst2 ==> k in bst && bst2[k] == bst[k]
    requires input[i] !in bst2
    requires forall k :: k in bst && k !in bst2 ==> input[i] <= k && bst[k].length <= NewLength(bst, found, key)
    ensures AllCovered(input, i + 1, bst2[input[i] := IndexLength(i, NewLength(bst, found, key))])
  {
    var e := IndexLength(i, NewLength(bst, found, key));
    forall idx | Embeds(idx, i + 1) && NonDecreasing(Pick(input, idx))
      ensures Covers(input, bst2[input[i] := e], idx)
    {
      if idx != [] && idx[|idx| - 1] == i {
        CoverNew(input, i, bst, found, key, bst2, idx);
      } else {
        assert Embeds(idx, i);
        CoverOld(input, i, bst, bst2, e, idx);
      }
    }
  }

  /** The running maximum still has an entry and bounds every length. */
  lemma StepMax(i: nat, bst: map<int, IndexLength>, lenMap: map<nat, int>, maxLen: nat,
                bst2: map<int, IndexLength>, lenMap2: map<nat, int>, x: int, e: IndexLength)
    requires MaxTracked(i, bst, lenMap, maxLen) && e.length >= 1
    requires forall k :: k in bst2 ==> k in bst && bst2[k] == bst[k]
    requires forall m :: m in lenMap && m > e.length ==> m in lenMap2
    ensures MaxTracked(i + 1, bst2[x := e], lenMap2[e.length := x],
                       if maxLen < e.length then e.length else maxLen)
  {
  }

  /** One pass of the main loop (lines 38-79) keeps `Active`: the floor
      lookup, the two erasures, the insertion of the new entry in both maps,
      the new back-pointer and the running maximum. */
  lemma StepKeepsActive(input: seq<int>, i: nat, bst: map<int, IndexLength>, lenMap: map<nat, int>,
                        prev: map<nat, int>, maxLen: nat, found: bool, key: int,
                        bst1: map<int, IndexLength>, lenMap1: map<nat, int>,
                        bst2: map<int, IndexLength>, lenMap2: map<nat, int>,
                        bst': map<int, IndexLength>, lenMap': map<nat, int>, prev': map<nat, int>, maxLen': nat)
    requires i < |input| && Active(input, i, bst, lenMap, prev, maxLen)
    requires IsFloor(bst, input[i], found, key)
    requires var n := NewLength(bst, found, key);
      bst1 == (if n in lenMap then bst - {lenMap[n]} else bst) &&
      lenMap1 == (if n in lenMap then lenMap - {n} else lenMap)
    requires bst2 == (if found && key == input[i] then bst1 - {key} else bst1)
    requires lenMap2 == (if found && key == input[i] then lenMap1 - {bst[key].length} else lenMap1)
    requires var n := NewLength(bst, found, key);
      bst' == bst2[input[i] := IndexLength(i, n)] && lenMap' == lenMap2[n := input[i]] &&
      prev' == prev[i := PrevIndex(bst, found, key)] && maxLen' == if maxLen < n then n else maxLen
    ensures Active(input, i + 1, bst', lenMap', prev', maxLen')
  {
    var x := input[i];
    var n := NewLength(bst, found, key);
    var e := IndexLength(i, n);
    EraseShape(bst, lenMap, x, found, key, bst1, lenMap1, bst2, lenMap2);
    EraseOrder(bst, lenMap, x, found, key, bst1, bst2);
    StepEntries(input, i, bst, prev, found, key, bst2);
    StepOrdered(bst2, x, e);
    StepIndexed(bst2, lenMap2, x, e);
    StepMax(i, bst, lenMap, maxLen, bst2, lenMap2, x, e);
    StepCovered(input, i, bst, found, key, bst2);
  }

  /** `std::reverse`. */
  function Reverse(s: seq<int>): (r: seq<int>)
    ensures |r| == |s| && forall k :: 0 <= k < |s| ==> r[k] == s[|s| - 1 - k]
  {
    if s == [] then [] else [s[|s| - 1]] + Reverse(s[..|s| - 1])
  }

  lemma ReverseAppend(s: seq<int>, v: int)
    ensures Reverse(s + [v]) == [v] + Reverse(s)
  {
    assert (s + [v])[..|s|] == s;
  }

  /** One step of the walk back: the chain from `j` is the chain from its
      back-pointer followed by `j`. */
  lemma WalkStep(input: seq<int>, prev: map<nat, int>, j: nat)
    requires Linked(prev) && j in prev && forall k :: k in prev ==> k < |input|
    ensures prev[j] == -1 ==> Pick(input, Chain(prev, j)) == [input[j]]
    ensures prev[j] != -1 ==> Pick(input, Chain(prev, j)) == Pick(input, Chain(prev, prev[j])) + [input[j]]
  {
    if prev[j] != -1 {
      PickIndex(input, Chain(prev, prev[j]));
      PickAppend(input, Chain(prev, prev[j]), j);
    }
  }

  /** After the whole input, the active sequence of length `max_length` is a
      longest non-decreasing subsequence, and its back-pointer chain spells
      it out. */
  lemma ActiveDone(input: seq<int>, bst: map<int, IndexLength>, lenMap: map<nat, int>,
                   prev: map<nat, int>, maxLen: nat)
    requires input != [] && Active(input, |input|, bst, lenMap, prev, maxLen)
    ensures maxLen in lenMap && lenMap[maxLen] in bst && bst[lenMap[maxLen]].index in prev
    ensures var c := Chain(prev, bst[lenMap[maxLen]].index);
      |c| == maxLen && NonDecreasing(Pick(input, c)) && IsSubsequence(Pick(input, c), input)
    ensures forall s {:trigger IsSubsequence(s, input)} ::
      IsSubsequence(s, input) && NonDecreasing(s) ==> |s| <= maxLen
  {
    assert maxLen in lenMap;
    var k := lenMap[maxLen];
    assert k in bst && bst[k].length == maxLen;
    var j := bst[k].index;
    assert j < |input|;
    ChainIsSubsequence(input, |input|, prev, j);
    var c := Chain(prev, j);
    assert Embeds(c, |input|);
    forall s | IsSubsequence(s, input) && NonDecreasing(s)
      ensures |s| <= maxLen
    {
      var idx :| Embeds(idx, |input|) && Pick(input, idx) == s;
      assert Covers(input, bst, idx);
    }
  }

  /** Lines 38-79, the body of the main loop: find the active sequence
      that `input[i]` extends, drop the active sequences the new one makes
      redundant (the one of the same length, and the one with the same end
      value), insert the new one in both maps, record its back-pointer and
      update `max_length`. */
  method AddElement(input: seq<int>, i: nat, bst: map<int, IndexLength>, lenMap: map<nat, int>,
                    prev: map<nat, int>, maxLen: nat)
    returns (activeSequenceBst: map<int, IndexLength>, lengthToBstNode: map<nat, int>,
             indexToPreviousIndex: map<nat, int>, maxLength: nat)
    requires i < |input| && Active(input, i, bst, lenMap, prev, maxLen)
    ensures Active(input, i + 1, activeSequenceBst, lengthToBstNode, indexToPreviousIndex, maxLength)
  {
    activeSequenceBst, lengthToBstNode, indexToPreviousIndex, maxLength := bst, lenMap, prev, maxLen;
    var currentValue := input[i];
    var found, upperBound := FloorEntry(activeSequenceBst, currentValue);
    var newLength := NewLength(activeSequenceBst, found, upperBound);
    var newPrevious := PrevIndex(activeSequenceBst, found, upperBound);
    NewLengthPlace(activeSequenceBst, lengthToBstNode, currentValue, found, upperBound);
    ghost var bst0, lenMap0 := activeSequenceBst, lengthToBstNode;
    if newLength in lengthToBstNode {
      activeSequenceBst := activeSequenceBst - {lengthToBstNode[newLength]};
      lengthToBstNode := lengthToBstNode - {newLength};
    }
    ghost var bst1, lenMap1 := activeSequenceBst, lengthToBstNode;
    if found && upperBound == currentValue {
      lengthToBstNode := lengthToBstNode - {activeSequenceBst[upperBound].length};
      activeSequenceBst := activeSequenceBst - {upperBound};
    }
    ghost var bst2, lenMap2, prev0, maxLength0 := activeSequenceBst, lengthToBstNode, indexToPreviousIndex, maxLength;
    activeSequenceBst := activeSequenceBst[currentValue := IndexLength(i, newLength)];
    lengthToBstNode := lengthToBstNode[newLength := currentValue];
    indexToPreviousIndex := indexToPreviousIndex[i := newPrevious];
    maxLength := if maxLength < newLength then newLength else maxLength;
    StepKeepsActive(input, i, bst0, lenMap0, prev0, maxLength0, found, upperBound, bst1, lenMap1, bst2, lenMap2,
                    activeSequenceBst, lengthToBstNode, indexToPreviousIndex, maxLength);
  }

  /** Lines 86-106: follow the back-pointers from `start`, pushing each
      value, then reverse what was collected. */
  method Retrace(input: seq<int>, prev: map<nat, int>, start: nat) returns (longest: seq<int>)
    requires Linked(prev) && start in prev && forall j :: j in prev ==> j < |input|
    ensures longest == Pick(input, Chain(prev, start))
  {
    longest := [];
    var currentIndex: int := start;
    while currentIndex != -1
      invariant currentIndex == -1 || currentIndex in prev
      invariant Pick(input, Chain(prev, start)) ==
        (if currentIndex == -1 then [] else Pick(input, Chain(prev, currentIndex))) + Reverse(longest)
      decreases currentIndex + 1
    {
      ghost var before := longest;
      longest := longest + [input[currentIndex]];
      ReverseAppend(before, input[currentIndex]);
      WalkStep(input, prev, currentIndex);
      currentIndex := prev[currentIndex];
    }
    longest := Reverse(longest);
  }

  /** Lines 25-108. The main loop keeps the ordered map, the length index,
      the back-pointers and `max_length` as `Active` describes; the walk
      back from the entry of length `max_length` collects the answer in
      reverse. */
  method ComputeLongestNondecreasingSubsequence(input: seq<int>) returns (longest: seq<int>)
    requires input != []
    ensures NonDecreasing(longest) && IsSubsequence(longest, input)
    ensures forall s {:trigger IsSubsequence(s, input)} ::
      IsSubsequence(s, input) && NonDecreasing(s) ==> |s| <= |longest|
  {
    var activeSequenceBst: map<int, IndexLength> := map[];
    var lengthToBstNode: map<nat, int> := map[];
    var maxLength: nat := 0;
    var indexToPreviousIndex: map<nat, int> := map[];
    ActiveStart(input);
    for i := 0 to |input|
      invariant Active(input, i, activeSequenceBst, lengthToBstNode, indexToPreviousIndex, maxLength)
    {
      activeSequenceBst, lengthToBstNode, indexToPreviousIndex, maxLength :=
        AddElement(input, i, activeSequenceBst, lengthToBstNode, indexToPreviousIndex, maxLength);
    }
    ActiveDone(input, activeSequenceBst, lengthToBstNode, indexToPreviousIndex, maxLength);
    longest := Retrace(input, indexToPreviousIndex, activeSequenceBst[lengthToBstNode[maxLength]].index);
  }
}
