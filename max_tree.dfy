/** Ch_09_Binary_Trees/max_tree.cpp: `ConstructMaxTree` builds the max tree
    (Cartesian tree) of a sequence in one left-to-right pass, keeping a
    pointer to the last inserted node and walking `parent` pointers up the
    right spine.

    The nodes live in an arena: the node made for `input[k]` is node `k`, so
    its value is `input[k]`, and `left`, `right` and `parent` hold the
    `left_child`, `right_child` and `parent` pointers of every node, with -1
    for null. */
module MaxTrees {

  /** The node ids an in-order walk visits, starting at node `k`; `fuel`
      bounds the depth, and the number of nodes is always enough. */
  function InorderWalk(left: seq<int>, right: seq<int>, k: int, fuel: nat): seq<int>
    decreases fuel
  {
    if fuel == 0 || !(0 <= k < |left|) || |right| != |left| then []
    else
      (if left[k] != -1 then InorderWalk(left, right, left[k], fuel - 1) else [])
      + [k]
      + (if right[k] != -1 then InorderWalk(left, right, right[k], fuel - 1) else [])
  }

  /** The ids lo, lo + 1, ..., hi - 1. */
  function Interval(lo: int, hi: int): (r: seq<int>)
    requires lo <= hi
    ensures |r| == hi - lo
  {
    seq(hi - lo, j requires 0 <= j < hi - lo => lo + j)
  }

  /** A link field: null or a node of the arena. */
  predicate Link(x: int, n: int)
  {
    x == -1 || 0 <= x < n
  }

  /** What `ConstructMaxTree` promises for a non-empty input: one node per
      element, parent pointers that agree with the child pointers, heap
      order, and an in-order walk that visits the nodes in input order. */
  ghost predicate MaxTreeOf(input: seq<int>, root: int, left: seq<int>, right: seq<int>, parent: seq<int>)
  {
    var n := |input|;
    |left| == n && |right| == n && |parent| == n && 0 <= root < n &&
    (forall k :: 0 <= k < n ==> Link(left[k], n) && Link(right[k], n) && Link(parent[k], n)) &&
    // parent pointers
    (forall k :: 0 <= k < n ==> (parent[k] == -1 <==> k == root)) &&
    (forall k :: 0 <= k < n && parent[k] != -1 ==> left[parent[k]] == k || right[parent[k]] == k) &&
    (forall k :: 0 <= k < n && left[k] != -1 ==> parent[left[k]] == k) &&
    (forall k :: 0 <= k < n && right[k] != -1 ==> parent[right[k]] == k) &&
    // heap order
    (forall k :: 0 <= k < n && left[k] != -1 ==> input[left[k]] <= input[k]) &&
    (forall k :: 0 <= k < n && right[k] != -1 ==> input[right[k]] <= input[k]) &&
    (forall j :: 0 <= j < n ==> input[j] <= input[root]) &&
    // in-order
    InorderWalk(left, right, root, n) == Interval(0, n)
  }

  // ----- The loop invariant -----

  /** Node `k` of an arena of `n` nodes, with the ghost range [lo[k], hi[k])
      of the ids in its subtree: the left subtree holds the ids just below
      `k`, the right subtree those just above, and `k` is the largest value
      of its subtree. */
  ghost predicate NodeOk(input: seq<int>, n: nat, left: seq<int>, right: seq<int>, parent: seq<int>,
                         lo: seq<int>, hi: seq<int>, root: int, k: int)
    requires |input| >= n && |left| == |right| == |parent| == |lo| == |hi| == n && 0 <= k < n
  {
    0 <= lo[k] <= k < hi[k] <= n &&
    Link(left[k], n) && Link(right[k], n) && Link(parent[k], n) &&
    (left[k] == -1 ==> lo[k] == k) &&
    (left[k] != -1 ==> left[k] < k && lo[left[k]] == lo[k] && hi[left[k]] == k && parent[left[k]] == k) &&
    (right[k] == -1 ==> hi[k] == k + 1) &&
    (right[k] != -1 ==> k < right[k] && lo[right[k]] == k + 1 && hi[right[k]] == hi[k] && parent[right[k]] == k) &&
    (parent[k] == -1 <==> k == root) &&
    (parent[k] != -1 ==> left[parent[k]] == k || right[parent[k]] == k) &&
    (forall j :: lo[k] <= j < hi[k] ==> input[j] <= input[k])
  }

  ghost predicate Shape(input: seq<int>, n: nat, left: seq<int>, right: seq<int>, parent: seq<int>,
                        lo: seq<int>, hi: seq<int>, root: int)
  {
    1 <= n <= |input| && |left| == n && |right| == n && |parent| == n && |lo| == n && |hi| == n &&
    0 <= root < n && lo[root] == 0 && hi[root] == n &&
    forall k :: 0 <= k < n ==> NodeOk(input, n, left, right, parent, lo, hi, root, k)
  }

  /** The right spine, from the root down to the last inserted node `n - 1`;
      every subtree along it reaches the end of the arena. */
  ghost predicate Spine(n: nat, right: seq<int>, hi: seq<int>, root: int, spine: seq<int>)
    requires |right| == n && |hi| == n
  {
    |spine| >= 1 && spine[0] == root && spine[|spine| - 1] == n - 1 &&
    (forall t :: 0 <= t < |spine| ==> 0 <= spine[t] < n && hi[spine[t]] == n) &&
    (forall t :: 0 <= t < |spine| - 1 ==> right[spine[t]] == spine[t + 1])
  }

  lemma SpineIncreasing(input: seq<int>, n: nat, left: seq<int>, right: seq<int>, parent: seq<int>,
                        lo: seq<int>, hi: seq<int>, root: int, spine: seq<int>, s: int, t: int)
    requires Shape(input, n, left, right, parent, lo, hi, root) && Spine(n, right, hi, root, spine)
    requires 0 <= s < t < |spine|
    ensures spine[s] < spine[t] && lo[spine[s]] <= spine[t] < hi[spine[s]]
    decreases t - s
  {
    assert NodeOk(input, n, left, right, parent, lo, hi, root, spine[s]);
    if s + 1 < t {
      SpineIncreasing(input, n, left, right, parent, lo, hi, root, spine, s + 1, t);
      assert NodeOk(input, n, left, right, parent, lo, hi, root, spine[s + 1]);
    }
  }

  // ----- The two ways of inserting a node -----

  /** `current_node` walked off the top: the new node becomes the root and
      the old tree its left subtree. */
  lemma NewRoot(input: seq<int>, n: nat, left: seq<int>, right: seq<int>, parent: seq<int>,
                lo: seq<int>, hi: seq<int>, root: int)
    requires Shape(input, n, left, right, parent, lo, hi, root) && n < |input|
    requires input[root] < input[n]
    ensures Shape(input, n + 1, left + [root], right + [-1], parent[root := n] + [-1],
                  lo + [0], hi + [n + 1], n)
    ensures Spine(n + 1, right + [-1], hi + [n + 1], n, [n])
  {
    var left', right', parent' := left + [root], right + [-1], parent[root := n] + [-1];
    var lo', hi' := lo + [0], hi + [n + 1];
    var size := n + 1;
    forall k | 0 <= k < size
      ensures NodeOk(input, size, left', right', parent', lo', hi', n, k)
    {
      if k == n {
        assert NodeOk(input, n, left, right, parent, lo, hi, root, root);
        forall j | 0 <= j < n + 1
          ensures input[j] <= input[n]
        {
          if j < n {
            assert input[j] <= input[root];
          }
        }
      } else {
        assert NodeOk(input, n, left, right, parent, lo, hi, root, k);
        if left[k] != -1 {
          assert NodeOk(input, n, left, right, parent, lo, hi, root, left[k]);
        }
        if right[k] != -1 {
          assert NodeOk(input, n, left, right, parent, lo, hi, root, right[k]);
        }
      }
    }
  }

  /** `current_node` stopped at spine node `spine[t]`, whose value is at least
      the new one: the new node becomes its right child and takes over its old
      right child, if any, as its own left child. The subtrees along the
      spine down to `spine[t]` now reach one further. */
  ghost function Extended(hi: seq<int>, spine: seq<int>, t: int, n: nat): (h: seq<int>)
    requires |hi| == n && 0 <= t < |spine|
    ensures |h| == n + 1
  {
    seq(n + 1, k requires 0 <= k < n + 1 => if k == n || k in spine[..t + 1] then n + 1 else hi[k])
  }

  lemma SpineNotLeft(input: seq<int>, n: nat, left: seq<int>, right: seq<int>, parent: seq<int>,
                     lo: seq<int>, hi: seq<int>, root: int, spine: seq<int>, k: int, u: int)
    requires Shape(input, n, left, right, parent, lo, hi, root) && Spine(n, right, hi, root, spine)
    requires 0 <= k < n && 0 <= u < |spine|
    ensures left[k] != spine[u]
  {
    assert NodeOk(input, n, left, right, parent, lo, hi, root, k);
  }

  lemma SpineParent(input: seq<int>, n: nat, left: seq<int>, right: seq<int>, parent: seq<int>,
                    lo: seq<int>, hi: seq<int>, root: int, spine: seq<int>, k: int, u: int)
    requires Shape(input, n, left, right, parent, lo, hi, root) && Spine(n, right, hi, root, spine)
    requires 0 <= k < n && 0 <= u < |spine| && right[k] == spine[u]
    ensures u > 0 && k == spine[u - 1]
  {
    assert NodeOk(input, n, left, right, parent, lo, hi, root, k);
    if u == 0 {
      assert false;
    } else {
      assert NodeOk(input, n, left, right, parent, lo, hi, root, spine[u - 1]);
    }
  }

  /** Where the walk up stopped: at spine node `spine[t]`, with a value at
      least the new one, all spine nodes below it being smaller. */
  ghost predicate StopsAt(input: seq<int>, n: nat, left: seq<int>, right: seq<int>, parent: seq<int>,
                          lo: seq<int>, hi: seq<int>, root: int, spine: seq<int>, t: int)
  {
    Shape(input, n, left, right, parent, lo, hi, root) && Spine(n, right, hi, root, spine) &&
    n < |input| && 0 <= t < |spine| && input[n] <= input[spine[t]] &&
    forall u :: t < u < |spine| ==> input[spine[u]] < input[n]
  }

  /** The right child of the stopping node is the next spine node, or null
      when the stopping node is the last inserted one. */
  lemma StopChild(input: seq<int>, n: nat, left: seq<int>, right: seq<int>, parent: seq<int>,
                  lo: seq<int>, hi: seq<int>, root: int, spine: seq<int>, t: int)
    requires StopsAt(input, n, left, right, parent, lo, hi, root, spine, t)
    ensures Link(right[spine[t]], n)
    ensures right[spine[t]] == -1 <==> t == |spine| - 1
    ensures right[spine[t]] != -1 ==> right[spine[t]] == spine[t + 1]
    ensures right[spine[t]] != -1 ==> lo[right[spine[t]]] == spine[t] + 1 && hi[right[spine[t]]] == n
    ensures right[spine[t]] != -1 ==> forall j :: spine[t] + 1 <= j < n ==> input[j] < input[n]
  {
    var c := spine[t];
    assert NodeOk(input, n, left, right, parent, lo, hi, root, c);
    if right[c] != -1 {
      if t + 1 == |spine| {
        assert false;
      }
      assert right[c] == spine[t + 1];
      assert NodeOk(input, n, left, right, parent, lo, hi, root, right[c]);
      assert input[right[c]] < input[n];
    }
  }

  /** The new node, with the stopping node as parent and the stopping node's
      old right subtree as its left subtree. */
  lemma AppendRightNew(input: seq<int>, n: nat, left: seq<int>, right: seq<int>, parent: seq<int>,
                       lo: seq<int>, hi: seq<int>, root: int, spine: seq<int>, t: int,
                       left': seq<int>, right': seq<int>, parent': seq<int>, lo': seq<int>, hi': seq<int>)
    requires StopsAt(input, n, left, right, parent, lo, hi, root, spine, t)
    requires Link(right[spine[t]], n)
    requires left' == left + [right[spine[t]]] && right' == right[spine[t] := n] + [-1]
    requires parent' == (if right[spine[t]] != -1 then parent[right[spine[t]] := n] else parent) + [spine[t]]
    requires lo' == lo + [spine[t] + 1] && hi' == Extended(hi, spine, t, n)
    ensures NodeOk(input, n + 1, left', right', parent', lo', hi', root, n)
  {
    StopChild(input, n, left, right, parent, lo, hi, root, spine, t);
    var c := spine[t];
    assert NodeOk(input, n, left, right, parent, lo, hi, root, c);
    assert spine[..t + 1][t] == c;
    if right[c] != -1 {
      forall u | 0 <= u <= t
        ensures spine[u] != right[c]
      {
        if u < t {
          SpineIncreasing(input, n, left, right, parent, lo, hi, root, spine, u, t);
        }
      }
      assert right[c] !in spine[..t + 1];
    }
  }

  /** A spine node down to the stopping node: its subtree grows by the new node. */
  lemma AppendRightSpine(input: seq<int>, n: nat, left: seq<int>, right: seq<int>, parent: seq<int>,
                         lo: seq<int>, hi: seq<int>, root: int, spine: seq<int>, t: int,
                         left': seq<int>, right': seq<int>, parent': seq<int>, lo': seq<int>, hi': seq<int>, u: int)
    requires StopsAt(input, n, left, right, parent, lo, hi, root, spine, t)
    requires Link(right[spine[t]], n)
    requires left' == left + [right[spine[t]]] && right' == right[spine[t] := n] + [-1]
    requires parent' == (if right[spine[t]] != -1 then parent[right[spine[t]] := n] else parent) + [spine[t]]
    requires lo' == lo + [spine[t] + 1] && hi' == Extended(hi, spine, t, n)
    requires 0 <= u <= t
    ensures NodeOk(input, n + 1, left', right', parent', lo', hi', root, spine[u])
  {
    if u == t {
      AppendRightStop(input, n, left, right, parent, lo, hi, root, spine, t, left', right', parent', lo', hi', u);
    } else {
      AppendRightAbove(input, n, left, right, parent, lo, hi, root, spine, t, left', right', parent', lo', hi', u);
    }
  }

  /** What every spine node down to the stopping node keeps: its left
      subtree, its parent and its range start; its range now ends after the
      new node. */
  lemma AppendRightKeeps(input: seq<int>, n: nat, left: seq<int>, right: seq<int>, parent: seq<int>,
                         lo: seq<int>, hi: seq<int>, root: int, spine: seq<int>, t: int,
                         left': seq<int>, right': seq<int>, parent': seq<int>, lo': seq<int>, hi': seq<int>, u: int)
    requires StopsAt(input, n, left, right, parent, lo, hi, root, spine, t)
    requires Link(right[spine[t]], n)
    requires left' == left + [right[spine[t]]] && right' == right[spine[t] := n] + [-1]
    requires parent' == (if right[spine[t]] != -1 then parent[right[spine[t]] := n] else parent) + [spine[t]]
    requires lo' == lo + [spine[t] + 1] && hi' == Extended(hi, spine, t, n)
    requires 0 <= u <= t
    ensures var k := spine[u];
      && 0 <= k < n && NodeOk(input, n, left, right, parent, lo, hi, root, k)
      && left'[k] == left[k] && parent'[k] == parent[k] && lo'[k] == lo[k] && hi'[k] == n + 1
      && (left[k] != -1 ==> lo'[left[k]] == lo[left[k]] && hi'[left[k]] == hi[left[k]] && parent'[left[k]] == parent[left[k]])
      && (parent[k] != -1 ==> left'[parent[k]] == left[parent[k]])
      && (forall j :: lo[k] <= j < n + 1 ==> input[j] <= input[k])
  {
    StopChild(input, n, left, right, parent, lo, hi, root, spine, t);
    var c, k := spine[t], spine[u];
    var r := right[c];
    assert NodeOk(input, n, left, right, parent, lo, hi, root, k);
    assert k in spine[..t + 1];
    if u < t {
      SpineIncreasing(input, n, left, right, parent, lo, hi, root, spine, u, t);
    }
    if r != -1 {
      SpineIncreasing(input, n, left, right, parent, lo, hi, root, spine, u, t + 1);
    }
    assert parent'[k] == parent[k];
    assert input[c] <= input[k];
    if left[k] != -1 {
      assert NodeOk(input, n, left, right, parent, lo, hi, root, left[k]);
      forall v | 0 <= v <= t
        ensures spine[v] != left[k]
      {
        SpineNotLeft(input, n, left, right, parent, lo, hi, root, spine, k, v);
      }
      if r != -1 {
        SpineNotLeft(input, n, left, right, parent, lo, hi, root, spine, k, t + 1);
      }
    }
  }

  /** The stopping node: the new node becomes its right child. */
  lemma AppendRightStop(input: seq<int>, n: nat, left: seq<int>, right: seq<int>, parent: seq<int>,
                         lo: seq<int>, hi: seq<int>, root: int, spine: seq<int>, t: int,
                         left': seq<int>, right': seq<int>, parent': seq<int>, lo': seq<int>, hi': seq<int>, u: int)
    requires StopsAt(input, n, left, right, parent, lo, hi, root, spine, t)
    requires Link(right[spine[t]], n)
    requires left' == left + [right[spine[t]]] && right' == right[spine[t] := n] + [-1]
    requires parent' == (if right[spine[t]] != -1 then parent[right[spine[t]] := n] else parent) + [spine[t]]
    requires lo' == lo + [spine[t] + 1] && hi' == Extended(hi, spine, t, n)
    requires u == t
    ensures NodeOk(input, n + 1, left', right', parent', lo', hi', root, spine[u])
  {
    AppendRightKeeps(input, n, left, right, parent, lo, hi, root, spine, t, left', right', parent', lo', hi', u);
    var c := spine[t];
    assert NodeOk(input, n, left, right, parent, lo, hi, root, c);
    assert right'[c] == n && lo'[n] == c + 1 && hi'[n] == n + 1 && parent'[n] == c;
    if parent[c] != -1 {
      assert right'[parent[c]] == right[parent[c]];
    }
  }

  /** A spine node above the stopping node: its right child is still the
      next spine node. */
  lemma AppendRightAbove(input: seq<int>, n: nat, left: seq<int>, right: seq<int>, parent: seq<int>,
                         lo: seq<int>, hi: seq<int>, root: int, spine: seq<int>, t: int,
                         left': seq<int>, right': seq<int>, parent': seq<int>, lo': seq<int>, hi': seq<int>, u: int)
    requires StopsAt(input, n, left, right, parent, lo, hi, root, spine, t)
    requires Link(right[spine[t]], n)
    requires left' == left + [right[spine[t]]] && right' == right[spine[t] := n] + [-1]
    requires parent' == (if right[spine[t]] != -1 then parent[right[spine[t]] := n] else parent) + [spine[t]]
    requires lo' == lo + [spine[t] + 1] && hi' == Extended(hi, spine, t, n)
    requires 0 <= u < t
    ensures NodeOk(input, n + 1, left', right', parent', lo', hi', root, spine[u])
  {
    AppendRightKeeps(input, n, left, right, parent, lo, hi, root, spine, t, left', right', parent', lo', hi', u);
    StopChild(input, n, left, right, parent, lo, hi, root, spine, t);
    var c, k := spine[t], spine[u];
    var s := spine[u + 1];
    SpineIncreasing(input, n, left, right, parent, lo, hi, root, spine, u, t);
    assert NodeOk(input, n, left, right, parent, lo, hi, root, k);
    assert right'[k] == right[k] == s;
    assert NodeOk(input, n, left, right, parent, lo, hi, root, s);
    assert s in spine[..t + 1];
    assert lo'[s] == lo[s] && hi'[s] == n + 1;
    if right[c] != -1 {
      SpineIncreasing(input, n, left, right, parent, lo, hi, root, spine, u + 1, t + 1);
    }
    assert parent'[s] == parent[s];
    if parent[k] != -1 {
      var p := parent[k];
      if p == c {
        assert right[c] != k by {
          if right[c] == k {
            SpineIncreasing(input, n, left, right, parent, lo, hi, root, spine, u, t + 1);
          }
        }
      }
      assert right'[p] == k || left'[p] == k;
    }
  }

  /** Any other old node keeps its shape and its subtree. */
  lemma AppendRightOther(input: seq<int>, n: nat, left: seq<int>, right: seq<int>, parent: seq<int>,
                         lo: seq<int>, hi: seq<int>, root: int, spine: seq<int>, t: int,
                         left': seq<int>, right': seq<int>, parent': seq<int>, lo': seq<int>, hi': seq<int>, k: int)
    requires StopsAt(input, n, left, right, parent, lo, hi, root, spine, t)
    requires Link(right[spine[t]], n)
    requires left' == left + [right[spine[t]]] && right' == right[spine[t] := n] + [-1]
    requires parent' == (if right[spine[t]] != -1 then parent[right[spine[t]] := n] else parent) + [spine[t]]
    requires lo' == lo + [spine[t] + 1] && hi' == Extended(hi, spine, t, n)
    requires 0 <= k < n && k !in spine[..t + 1]
    ensures NodeOk(input, n + 1, left', right', parent', lo', hi', root, k)
  {
    StopChild(input, n, left, right, parent, lo, hi, root, spine, t);
    assert NodeOk(input, n, left, right, parent, lo, hi, root, k);
    if right[k] != -1 && right[k] in spine[..t + 1] {
      var u :| 0 <= u <= t && spine[u] == right[k];
      SpineParent(input, n, left, right, parent, lo, hi, root, spine, k, u);
      assert false;
    }
    forall u | 0 <= u <= t
      ensures spine[u] != left[k]
    {
      SpineNotLeft(input, n, left, right, parent, lo, hi, root, spine, k, u);
    }
    assert hi'[k] == hi[k] && left'[k] == left[k] && right'[k] == right[k] && lo'[k] == lo[k];
    if left[k] != -1 {
      assert NodeOk(input, n, left, right, parent, lo, hi, root, left[k]);
    }
    if right[k] != -1 {
      assert NodeOk(input, n, left, right, parent, lo, hi, root, right[k]);
    }
  }

  lemma AppendRight(input: seq<int>, n: nat, left: seq<int>, right: seq<int>, parent: seq<int>,
                    lo: seq<int>, hi: seq<int>, root: int, spine: seq<int>, t: int,
                    left': seq<int>, right': seq<int>, parent': seq<int>, lo': seq<int>, hi': seq<int>)
    requires StopsAt(input, n, left, right, parent, lo, hi, root, spine, t)
    requires Link(right[spine[t]], n)
    requires left' == left + [right[spine[t]]] && right' == right[spine[t] := n] + [-1]
    requires parent' == (if right[spine[t]] != -1 then parent[right[spine[t]] := n] else parent) + [spine[t]]
    requires lo' == lo + [spine[t] + 1] && hi' == Extended(hi, spine, t, n)
    ensures Shape(input, n + 1, left', right', parent', lo', hi', root)
    ensures Spine(n + 1, right', hi', root, spine[..t + 1] + [n])
  {
    var size := n + 1;
    forall k | 0 <= k < size
      ensures NodeOk(input, size, left', right', parent', lo', hi', root, k)
    {
      if k == n {
        AppendRightNew(input, n, left, right, parent, lo, hi, root, spine, t, left', right', parent', lo', hi');
      } else if k in spine[..t + 1] {
        var u :| 0 <= u <= t && spine[u] == k;
        AppendRightSpine(input, n, left, right, parent, lo, hi, root, spine, t, left', right', parent', lo', hi', u);
      } else {
        AppendRightOther(input, n, left, right, parent, lo, hi, root, spine, t, left', right', parent', lo', hi', k);
      }
    }
    var spine' := spine[..t + 1] + [n];
    forall u | 0 <= u < |spine'| - 1
      ensures right'[spine'[u]] == spine'[u + 1]
    {
      if u < t {
        SpineIncreasing(input, n, left, right, parent, lo, hi, root, spine, u, t);
      }
    }
    assert spine[0] in spine[..t + 1];
  }

  // ----- From the invariant to the promise -----

  /** The part of `NodeOk` the in-order walk depends on: node `k` covers
      the ids lo[k] .. hi[k] - 1, its left subtree those below `k` and its
      right subtree those above. */
  ghost predicate RangeOk(n: nat, left: seq<int>, right: seq<int>, lo: seq<int>, hi: seq<int>, k: int)
    requires |left| == |right| == |lo| == |hi| == n && 0 <= k < n
  {
    0 <= lo[k] <= k < hi[k] <= n &&
    (left[k] == -1 ==> lo[k] == k) &&
    (left[k] != -1 ==> 0 <= left[k] < k && lo[left[k]] == lo[k] && hi[left[k]] == k) &&
    (right[k] == -1 ==> hi[k] == k + 1) &&
    (right[k] != -1 ==> k < right[k] < n && lo[right[k]] == k + 1 && hi[right[k]] == hi[k])
  }

  ghost predicate Ranges(n: nat, left: seq<int>, right: seq<int>, lo: seq<int>, hi: seq<int>)
  {
    |left| == n && |right| == n && |lo| == n && |hi| == n &&
    forall k :: 0 <= k < n ==> RangeOk(n, left, right, lo, hi, k)
  }

  lemma ShapeRanges(input: seq<int>, n: nat, left: seq<int>, right: seq<int>, parent: seq<int>,
                    lo: seq<int>, hi: seq<int>, root: int)
    requires Shape(input, n, left, right, parent, lo, hi, root)
    ensures Ranges(n, left, right, lo, hi)
  {
    forall k | 0 <= k < n
      ensures RangeOk(n, left, right, lo, hi, k)
    {
      assert NodeOk(input, n, left, right, parent, lo, hi, root, k);
    }
  }

  /** The in-order walk below a child pointer: nothing for null. */
  function SideWalk(left: seq<int>, right: seq<int>, c: int, fuel: nat): seq<int>
  {
    if c != -1 then InorderWalk(left, right, c, fuel) else []
  }

  /** The in-order walk from a node lists the ids of its range in order. */
  lemma WalkCoversRange(n: nat, left: seq<int>, right: seq<int>, lo: seq<int>, hi: seq<int>, k: int, fuel: nat)
    requires Ranges(n, left, right, lo, hi) && 0 <= k < n
    requires fuel >= hi[k] - lo[k]
    ensures lo[k] <= hi[k] && InorderWalk(left, right, k, fuel) == Interval(lo[k], hi[k])
  {
    WalkSide(n, left, right, lo, hi, k, fuel, lo[k], hi[k]);
  }

  /** The walk below child pointer `c` lists the ids `a` .. `b` - 1. */
  ghost predicate Covers(left: seq<int>, right: seq<int>, c: int, fuel: nat, a: int, b: int)
  {
    a <= b && SideWalk(left, right, c, fuel) == Interval(a, b)
  }

  /** The walk below a child pointer lists the ids `a` .. `b` - 1 that the
      child's range covers, or none for a null pointer. */
  lemma {:induction false} WalkSide(n: nat, left: seq<int>, right: seq<int>, lo: seq<int>, hi: seq<int>,
                                    c: int, fuel: nat, a: int, b: int)
    requires Ranges(n, left, right, lo, hi) && Link(c, n)
    requires c == -1 ==> a == b
    requires c != -1 ==> lo[c] == a && hi[c] == b
    requires fuel >= b - a
    ensures Covers(left, right, c, fuel, a, b)
    decreases fuel
  {
    if c != -1 {
      assert RangeOk(n, left, right, lo, hi, c);
      WalkSide(n, left, right, lo, hi, left[c], fuel - 1, a, c);
      WalkSide(n, left, right, lo, hi, right[c], fuel - 1, c + 1, b);
      WalkAssemble(left, right, c, fuel, a, b);
    }
  }

  /** A node's walk is its left side's ids, the node, then its right side's. */
  lemma WalkAssemble(left: seq<int>, right: seq<int>, k: int, fuel: nat, a: int, b: int)
    requires 0 <= k < |left| == |right| && fuel >= 1 && a <= k < b
    requires Covers(left, right, left[k], fuel - 1, a, k)
    requires Covers(left, right, right[k], fuel - 1, k + 1, b)
    ensures Covers(left, right, k, fuel, a, b)
  {
    calc {
      InorderWalk(left, right, k, fuel);
      SideWalk(left, right, left[k], fuel - 1) + [k] + SideWalk(left, right, right[k], fuel - 1);
      Interval(a, k) + [k] + Interval(k + 1, b);
    == { IntervalSplit(a, k, b); }
      Interval(a, b);
    }
  }

  lemma IntervalSplit(a: int, m: int, b: int)
    requires a <= m < b
    ensures Interval(a, m) + [m] + Interval(m + 1, b) == Interval(a, b)
  {
  }

  /** A complete arena satisfying the invariant is the max tree of the input. */
  lemma ShapeIsMaxTree(input: seq<int>, left: seq<int>, right: seq<int>, parent: seq<int>,
                       lo: seq<int>, hi: seq<int>, root: int)
    requires Shape(input, |input|, left, right, parent, lo, hi, root)
    ensures MaxTreeOf(input, root, left, right, parent)
  {
    var n := |input|;
    forall k | 0 <= k < n
      ensures Link(left[k], n) && Link(right[k], n) && Link(parent[k], n)
      ensures parent[k] == -1 <==> k == root
      ensures parent[k] != -1 ==> left[parent[k]] == k || right[parent[k]] == k
      ensures left[k] != -1 ==> parent[left[k]] == k && input[left[k]] <= input[k]
      ensures right[k] != -1 ==> parent[right[k]] == k && input[right[k]] <= input[k]
    {
      assert NodeOk(input, n, left, right, parent, lo, hi, root, k);
      if left[k] != -1 {
        assert NodeOk(input, n, left, right, parent, lo, hi, root, left[k]);
      }
      if right[k] != -1 {
        assert NodeOk(input, n, left, right, parent, lo, hi, root, right[k]);
      }
    }
    assert NodeOk(input, n, left, right, parent, lo, hi, root, root);
    ShapeRanges(input, n, left, right, parent, lo, hi, root);
    WalkCoversRange(n, left, right, lo, hi, root, n);
  }

  // ----- ConstructMaxTree -----

  /** The inner loop of `ConstructMaxTree`: from the last inserted node,
      follow parent pointers up the right spine while the new value is
      greater. Stops at the spine node `spine[t]`, or at null (t = -1),
      past only spine nodes with smaller values. */
  method ClimbRightSpine(input: seq<int>, i: nat, ghost left: seq<int>, ghost right: seq<int>, parent: seq<int>,
                         ghost lo: seq<int>, ghost hi: seq<int>, ghost root: int, ghost spine: seq<int>, start: int)
    returns (currentNode: int, ghost t: int)
    requires Shape(input, i, left, right, parent, lo, hi, root) && Spine(i, right, hi, root, spine)
    requires i < |input| && start == i - 1
    ensures -1 <= t < |spine| && currentNode == if t == -1 then -1 else spine[t]
    ensures forall u :: t < u < |spine| ==> input[spine[u]] < input[i]
    ensures currentNode != -1 ==> input[i] <= input[currentNode]
  {
    var valueToInsert := input[i];
    currentNode := start;
    t := |spine| - 1;
    while currentNode != -1 && valueToInsert > input[currentNode]
      invariant -1 <= t < |spine|
      invariant currentNode == if t == -1 then -1 else spine[t]
      invariant forall u :: t < u < |spine| ==> input[spine[u]] < valueToInsert
      decreases t + 1
    {
      if t > 0 {
        assert NodeOk(input, i, left, right, parent, lo, hi, root, spine[t - 1]);
      } else {
        assert NodeOk(input, i, left, right, parent, lo, hi, root, root);
      }
      currentNode := parent[currentNode];
      t := t - 1;
    }
  }

  /** `ConstructMaxTree`: returns the root (-1 for null) and the arena's
      pointer fields. */
  method ConstructMaxTree(input: seq<int>) returns (root: int, left: seq<int>, right: seq<int>, parent: seq<int>)
    ensures |input| == 0 ==> root == -1 && left == [] && right == [] && parent == []
    ensures |input| > 0 ==> MaxTreeOf(input, root, left, right, parent)
  {
    if |input| == 0 {
      return -1, [], [], [];
    }
    root := 0;
    left, right, parent := [-1], [-1], [-1];
    var currentNode := root;
    ghost var lo, hi, spine := [0], [1], [0];
    assert NodeOk(input, 1, left, right, parent, lo, hi, root, 0);
    for i := 1 to |input|
      invariant Shape(input, i, left, right, parent, lo, hi, root)
      invariant Spine(i, right, hi, root, spine)
      invariant currentNode == i - 1
    {
      ghost var t;
      currentNode, t := ClimbRightSpine(input, i, left, right, parent, lo, hi, root, spine, currentNode);
      if currentNode == -1 {
        // the new node becomes the root, the old tree its left subtree
        NewRoot(input, i, left, right, parent, lo, hi, root);
        left, right, parent := left + [root], right + [-1], parent[root := i] + [-1];
        lo, hi, spine := lo + [0], hi + [i + 1], [i];
        root := i;
        currentNode := root;
      } else {
        assert StopsAt(input, i, left, right, parent, lo, hi, root, spine, t);
        StopChild(input, i, left, right, parent, lo, hi, root, spine, t);
        ghost var left', right' := left + [right[currentNode]], right[currentNode := i] + [-1];
        ghost var parent' := (if right[currentNode] != -1 then parent[right[currentNode] := i] else parent) + [currentNode];
        ghost var lo', hi' := lo + [currentNode + 1], Extended(hi, spine, t, i);
        AppendRight(input, i, left, right, parent, lo, hi, root, spine, t, left', right', parent', lo', hi');
        if right[currentNode] != -1 {
          // the new node takes over the old right child as its left child
          var oldRight := right[currentNode];
          left := left + [oldRight];
          parent := parent[oldRight := i];
        } else {
          left := left + [-1];
        }
        right := right[currentNode := i] + [-1];
        parent := parent + [currentNode];
        currentNode := right[currentNode];
        lo, hi, spine := lo', hi', spine[..t + 1] + [i];
      }
    }
    ShapeIsMaxTree(input, left, right, parent, lo, hi, root);
  }
}
