/** The `BinaryTree` class shared by Ch_09_Binary_Trees/iterative_binary_tree_traversals.cpp
    and Ch_14_Binary_Search_Trees/binary_search_tree_sequences.cpp.

    A node is identified by its level-order (heap) position: the root is 1 and
    the children of node p are 2p (left) and 2p + 1 (right). The linked tree
    of the C++ class is the map from the positions of its nodes to their
    values; `Subtree` reads it back as a `Tree` value for specifications. */
module BinaryTrees {

  datatype Tree = Nil | Node(left: Tree, value: int, right: Tree)

  function NodeCount(t: Tree): nat
  {
    match t
    case Nil => 0
    case Node(l, _, r) => NodeCount(l) + 1 + NodeCount(r)
  }

  /** The node values of a tree, with multiplicity. */
  function Values(t: Tree): multiset<int>
  {
    match t
    case Nil => multiset{}
    case Node(l, v, r) => Values(l) + multiset{v} + Values(r)
  }

  /** Root, left subtree, right subtree. */
  function Preorder(t: Tree): seq<int>
  {
    match t
    case Nil => []
    case Node(l, v, r) => [v] + Preorder(l) + Preorder(r)
  }

  /** Left subtree, root, right subtree. */
  function Inorder(t: Tree): seq<int>
  {
    match t
    case Nil => []
    case Node(l, v, r) => Inorder(l) + [v] + Inorder(r)
  }

  /** Left subtree, right subtree, root. */
  function Postorder(t: Tree): seq<int>
  {
    match t
    case Nil => []
    case Node(l, v, r) => Postorder(l) + Postorder(r) + [v]
  }

  /** Every traversal lists each node exactly once: its length is the node
      count and it is a permutation of the node values. */
  lemma {:induction false} TraversalsArePermutations(t: Tree)
    ensures |Preorder(t)| == |Inorder(t)| == |Postorder(t)| == NodeCount(t)
    ensures multiset(Preorder(t)) == multiset(Inorder(t)) == multiset(Postorder(t)) == Values(t)
  {
    PreorderCounts(t);
    InorderCounts(t);
    PostorderCounts(t);
  }

  lemma {:induction false} PreorderCounts(t: Tree)
    ensures |Preorder(t)| == NodeCount(t) && multiset(Preorder(t)) == Values(t)
  {
    match t
    case Nil =>
    case Node(l, v, r) =>
      PreorderCounts(l);
      PreorderCounts(r);
  }

  lemma {:induction false} InorderCounts(t: Tree)
    ensures |Inorder(t)| == NodeCount(t) && multiset(Inorder(t)) == Values(t)
  {
    match t
    case Nil =>
    case Node(l, v, r) =>
      InorderCounts(l);
      InorderCounts(r);
  }

  lemma {:induction false} PostorderCounts(t: Tree)
    ensures |Postorder(t)| == NodeCount(t) && multiset(Postorder(t)) == Values(t)
  {
    match t
    case Nil =>
    case Node(l, v, r) =>
      PostorderCounts(l);
      PostorderCounts(r);
  }

  // ----- Positions -----

  function Pow2(e: nat): (p: nat)
    ensures p >= 1
  {
    if e == 0 then 1 else 2 * Pow2(e - 1)
  }

  lemma MulMonotone(d: int, a: int, b: int)
    requires d >= 0 && a <= b
    ensures d * a <= d * b
  {
    assert d * b - d * a == d * (b - a);
  }

  /** The division algorithm determines quotient and remainder. */
  lemma DivUnique(n: int, d: int, q: int, r: int)
    requires d > 0 && n == d * q + r && 0 <= r < d
    ensures n / d == q && n % d == r
  {
    var q', r' := n / d, n % d;
    assert n == d * q' + r';
    if q' < q {
      MulMonotone(d, q' + 1, q);
      assert false;
    } else if q < q' {
      MulMonotone(d, q + 1, q');
      assert false;
    }
  }

  /** Halving twice the way the modulus loop does. */
  lemma DivTwice(n: nat, a: nat)
    requires a >= 1
    ensures (n / a) / 2 == n / (2 * a)
    ensures n / a == 2 * (n / (2 * a)) + (if n % (2 * a) < a then 0 else 1)
  {
    var q, r := n / (2 * a), n % (2 * a);
    assert n == 2 * a * q + r;
    if r < a {
      assert n == a * (2 * q) + r;
      DivUnique(n, a, 2 * q, r);
    } else {
      assert n == a * (2 * q + 1) + (r - a);
      DivUnique(n, a, 2 * q + 1, r - a);
    }
  }

  /** Halving first, then dividing by `a`. */
  lemma DivHalf(n: nat, a: nat)
    requires a >= 1
    ensures (n / 2) / a == n / (2 * a)
  {
    var q, r := n / (2 * a), n % (2 * a);
    assert n == 2 * a * q + r;
    assert n == 2 * (a * q + r / 2) + r % 2;
    DivUnique(n, 2, a * q + r / 2, r % 2);
    DivUnique(n / 2, a, q, r / 2);
  }

  lemma ModulusDoubles(n: nat, m: nat)
    requires m >= 1 && n / m > 1
    ensures 2 * m <= n
  {
    assert n == m * (n / m) + n % m;
    MulMonotone(m, 2, n / m);
  }

  lemma ModulusStops(n: nat, m: nat)
    requires 1 <= m <= n
    ensures n / m >= 1
  {
  }

  /** The root-first list of positions from the root to node `n`. The C++
      loop walks from the root when `n` is 0 as when it is 1. */
  function Path(n: nat): seq<nat>
  {
    if n <= 1 then [1] else Path(n / 2) + [n]
  }

  /** `Path(n)` has ⌊log2 n⌋ + 1 entries. */
  lemma {:induction false} PathLength(n: nat)
    requires n >= 1
    ensures Pow2(|Path(n)| - 1) <= n < Pow2(|Path(n)|)
  {
    if n >= 2 {
      PathLength(n / 2);
    }
  }

  /** The k-th entry of `Path(n)` is `n` without its last |Path(n)| - 1 - k bits. */
  lemma {:induction false} PathEntry(n: nat, k: nat)
    requires n >= 1 && k < |Path(n)|
    ensures Path(n)[k] == n / Pow2(|Path(n)| - 1 - k)
  {
    var p := Path(n);
    if k < |p| - 1 {
      var h := Path(n / 2);
      assert p == h + [n];
      var a := Pow2(|h| - 1 - k);
      PathEntry(n / 2, k);
      DivHalf(n, a);
      assert Pow2(|p| - 1 - k) == 2 * a;
    }
  }

  lemma PathEntries(n: nat)
    requires n >= 1
    ensures forall k :: 0 <= k < |Path(n)| ==> Path(n)[k] == n / Pow2(|Path(n)| - 1 - k)
  {
    forall k | 0 <= k < |Path(n)| {
      PathEntry(n, k);
    }
  }

  /** Each step of `Path(n)` goes to the left child on a 0 bit of `n` and to
      the right child on a 1 bit, reading the bits below the leading one from
      the most significant. */
  lemma PathSteps(n: nat)
    requires n >= 1
    ensures forall k :: 0 <= k < |Path(n)| - 1 ==>
      Path(n)[k + 1] == 2 * Path(n)[k] + (n / Pow2(|Path(n)| - 2 - k)) % 2
  {
    var p := Path(n);
    PathEntries(n);
    forall k | 0 <= k < |p| - 1
      ensures p[k + 1] == 2 * p[k] + (n / Pow2(|p| - 2 - k)) % 2
    {
      var a := Pow2(|p| - 2 - k);
      DivTwice(n, a);
      assert Pow2(|p| - 1 - k) == 2 * a;
      var q, r := (n / a) / 2, (n / a) % 2;
      assert n / a == 2 * q + r;
    }
  }

  /** One turn of the descent loop: halving the modulus appends the next bit
      of `n` to the position, which extends the path by one step. */
  lemma StepDown(n: nat, m: nat, e: nat)
    requires m == Pow2(e) && e >= 1 && (n >= 1 ==> n / m >= 1)
    ensures m == 2 * Pow2(e - 1) && m / 2 == Pow2(e - 1)
    ensures n / (m / 2) == 2 * (n / m) + (if n % m < m / 2 then 0 else 1)
    ensures n >= 1 ==> Path(n / (m / 2)) == Path(n / m) + [n / (m / 2)]
  {
    var h := Pow2(e - 1);
    assert m == 2 * h;
    DivTwice(n, h);
  }

  /** Every position on `Path(n)` is between 1 and `n`, and only the last is `n`. */
  lemma {:induction false} PathRange(n: nat)
    requires n >= 1
    ensures Path(n)[|Path(n)| - 1] == n
    ensures forall k :: 0 <= k < |Path(n)| - 1 ==> 1 <= Path(n)[k] < n
    ensures Path(n)[0] == 1
  {
    if n >= 2 {
      PathRange(n / 2);
    }
  }

  /** `q` lies in the subtree of `p`. */
  predicate Anc(p: nat, q: nat)
    decreases q
  {
    q == p || (q > p && Anc(p, q / 2))
  }

  lemma {:induction false} AncBelow(p: nat, q: nat)
    requires Anc(p, q)
    ensures p <= q
    decreases q
  {
    if q != p {
      AncBelow(p, q / 2);
    }
  }

  /** Below p ≥ 1 lie p itself and the subtrees of its two children. */
  lemma {:induction false} AncChildren(p: nat, q: nat)
    requires p >= 1
    ensures Anc(p, q) <==> q == p || Anc(2 * p, q) || Anc(2 * p + 1, q)
    decreases q
  {
    if q > p && q / 2 != p {
      AncChildren(p, q / 2);
      if Anc(2 * p, q / 2) { AncBelow(2 * p, q / 2); }
      if Anc(2 * p + 1, q / 2) { AncBelow(2 * p + 1, q / 2); }
    }
    if Anc(2 * p, q) { AncBelow(2 * p, q); }
    if Anc(2 * p + 1, q) { AncBelow(2 * p + 1, q); }
  }

  /** The ancestors of a position form a chain. */
  lemma {:induction false} AncChain(x: nat, y: nat, q: nat)
    requires Anc(x, q) && Anc(y, q) && x <= y
    ensures Anc(x, y)
    decreases q
  {
    if q != y {
      AncChain(x, y, q / 2);
    }
  }

  /** The two subtrees of a node share no position. */
  lemma ChildrenDisjoint(p: nat, q: nat)
    requires p >= 1
    ensures Anc(2 * p, q) ==> !Anc(2 * p + 1, q)
  {
    if Anc(2 * p, q) && Anc(2 * p + 1, q) {
      AncChain(2 * p, 2 * p + 1, q);
      assert false;
    }
  }

  lemma {:induction false} RootIsAncestor(q: nat)
    requires q >= 1
    ensures Anc(1, q)
    decreases q
  {
    if q > 1 {
      RootIsAncestor(q / 2);
    }
  }

  /** Membership, named so that the parent condition below has a trigger
      that its own body does not produce again. */
  predicate Present(keys: set<nat>, q: nat)
  {
    q in keys
  }

  /** Every node but the root has its parent in the map. */
  ghost predicate ParentClosed(keys: set<nat>)
  {
    forall q: nat :: Present(keys, q) ==> q >= 1 && (q > 1 ==> q / 2 in keys)
  }

  lemma {:induction false} AncestorPresent(keys: set<nat>, p: nat, q: nat)
    requires ParentClosed(keys) && p >= 1 && q in keys && Anc(p, q)
    ensures p in keys
    decreases q
  {
    if q != p {
      AncestorPresent(keys, p, q / 2);
    }
  }

  /** The positions in the subtree of `p`. */
  ghost function Descendants(keys: set<nat>, p: nat): set<nat>
  {
    set q | q in keys && Anc(p, q)
  }

  /** A position beyond every key. */
  ghost function Bound(keys: set<nat>): (b: nat)
    ensures forall q :: q in keys ==> q < b
    decreases keys
  {
    if keys == {} then 0
    else
      var k :| k in keys;
      var b := Bound(keys - {k});
      assert forall q :: q in keys ==> q == k || q in keys - {k};
      if k < b then b else k + 1
  }

  /** The subtree rooted at position `p` of the arena `nodes`. */
  ghost function Subtree(nodes: map<nat, int>, p: nat): Tree
    decreases var b := Bound(nodes.Keys); if p < b then b - p else 0
  {
    if p == 0 || p !in nodes then Nil
    else Node(Subtree(nodes, 2 * p), nodes[p], Subtree(nodes, 2 * p + 1))
  }

  /** In a parent-closed arena the subtree of `p` has one node per position below `p`. */
  lemma {:induction false} SubtreeCount(nodes: map<nat, int>, p: nat)
    requires ParentClosed(nodes.Keys) && p >= 1
    ensures NodeCount(Subtree(nodes, p)) == |Descendants(nodes.Keys, p)|
    decreases var b := Bound(nodes.Keys); if p < b then b - p else 0
  {
    if p !in nodes {
      DescendantsOfMissing(nodes.Keys, p);
    } else {
      assert NodeCount(Subtree(nodes, p)) == NodeCount(Subtree(nodes, 2 * p)) + 1 + NodeCount(Subtree(nodes, 2 * p + 1));
      SubtreeCount(nodes, 2 * p);
      SubtreeCount(nodes, 2 * p + 1);
      DescendantsSplit(nodes.Keys, p);
    }
  }

  /** A missing position has nothing below it in a parent-closed arena. */
  lemma DescendantsOfMissing(keys: set<nat>, p: nat)
    requires ParentClosed(keys) && p >= 1 && p !in keys
    ensures Descendants(keys, p) == {}
  {
    forall q | q in Descendants(keys, p)
      ensures false
    {
      AncestorPresent(keys, p, q);
    }
  }

  /** Below a present position lie the position itself and the disjoint
      subtrees of its children. */
  lemma DescendantsSplit(keys: set<nat>, p: nat)
    requires p >= 1 && p in keys
    ensures |Descendants(keys, p)| == 1 + |Descendants(keys, 2 * p)| + |Descendants(keys, 2 * p + 1)|
  {
    var d, dl, dr := Descendants(keys, p), Descendants(keys, 2 * p), Descendants(keys, 2 * p + 1);
    assert d == {p} + dl + dr by {
      forall q
        ensures q in d <==> q == p || q in dl || q in dr
      {
        AncChildren(p, q);
      }
    }
    assert p !in dl && p !in dr && dl * dr == {} by {
      forall q | q in dl
        ensures q !in dr && q != p
      {
        ChildrenDisjoint(p, q);
        AncBelow(2 * p, q);
      }
      forall q | q in dr ensures q != p { AncBelow(2 * p + 1, q); }
    }
    DisjointUnionSize(d, p, dl, dr);
  }

  /** A position and two disjoint sets without it make up as many elements as they have together. */
  lemma DisjointUnionSize(d: set<nat>, p: nat, dl: set<nat>, dr: set<nat>)
    requires d == {p} + dl + dr && p !in dl && p !in dr && dl * dr == {}
    ensures |d| == 1 + |dl| + |dr|
  {
    assert ({p} + dl) * dr == {};
    assert |{p} + dl| == 1 + |dl|;
  }

  /** A parent-closed arena holds exactly the nodes of the tree at position 1. */
  lemma ArenaCount(nodes: map<nat, int>)
    requires ParentClosed(nodes.Keys)
    ensures NodeCount(Subtree(nodes, 1)) == |nodes|
  {
    SubtreeCount(nodes, 1);
    forall q | q in nodes
      ensures Anc(1, q)
    {
      assert Present(nodes.Keys, q);
      RootIsAncestor(q);
    }
    assert Descendants(nodes.Keys, 1) == nodes.Keys;
  }

  /** The arena after the walk along `path` has created every missing node,
      in path order, with the default value 0 (`T{}` for `int`). */
  function Extend(nodes: map<nat, int>, path: seq<nat>): map<nat, int>
  {
    if path == [] then nodes
    else
      var m := Extend(nodes, path[..|path| - 1]);
      var p := path[|path| - 1];
      if p in m then m else m[p := 0]
  }

  /** `nodes` with node `p` created if it was missing. */
  function Grow(nodes: map<nat, int>, p: nat): map<nat, int>
  {
    if p in nodes then nodes else nodes[p := 0]
  }

  lemma ExtendSnoc(nodes: map<nat, int>, path: seq<nat>, p: nat)
    ensures Extend(nodes, path + [p]) == Grow(Extend(nodes, path), p)
  {
    assert (path + [p])[..|path|] == path;
  }

  /** Creating a child of an existing node keeps the arena parent-closed and
      adds one node if it was missing. */
  lemma GrowLinked(nodes: map<nat, int>, p: nat)
    requires ParentClosed(nodes.Keys) && p >= 1 && (p > 1 ==> p / 2 in nodes)
    ensures ParentClosed(Grow(nodes, p).Keys) && p in Grow(nodes, p)
    ensures |Grow(nodes, p)| == |nodes| + (if p in nodes then 0 else 1)
  {
    var grown := Grow(nodes, p);
    if p !in nodes {
      assert grown.Keys == nodes.Keys + {p};
    }
    forall q: nat | Present(grown.Keys, q)
      ensures q >= 1 && (q > 1 ==> q / 2 in grown.Keys)
    {
      if q != p {
        assert Present(nodes.Keys, q);
      }
    }
  }

  /** `BinaryTree`: `nodes` holds the linked tree (position to value) and
      `size` is `_size`. */
  class BinaryTree {
    var nodes: map<nat, int>
    var size: nat

    /** The link structure: every node hangs below the root, and `_size`
        counts the nodes. */
    ghost predicate Linked()
      reads this
    {
      ParentClosed(nodes.Keys) && size == |nodes|
    }

    /** What `insert` keeps: the nodes fill positions 1 .. size, level by level. */
    ghost predicate Valid()
      reads this
    {
      Linked() && forall p :: p in nodes <==> 1 <= p <= size
    }

    /** The tree under `_root`. */
    ghost function AsTree(): Tree
      reads this
    {
      Subtree(nodes, 1)
    }

    /** Node values in level order, the order `operator<<` prints them. */
    ghost function LevelOrder(): (s: seq<int>)
      reads this
      requires Valid()
      ensures |s| == size
    {
      LevelValues(nodes, size)
    }

    constructor()
      ensures Valid() && nodes == map[] && size == 0
    {
      nodes := map[];
      size := 0;
    }

    /** `size()`: the number of nodes of the tree. */
    function Size(): (s: nat)
      reads this
      requires Linked()
      ensures s == NodeCount(AsTree())
    {
      ArenaCount(nodes);
      size
    }

    /** `is_empty()`: whether `_root` is null. */
    function IsEmpty(): (e: bool)
      reads this
      requires Linked()
      ensures e <==> AsTree() == Nil
      ensures e <==> size == 0
    {
      ArenaCount(nodes);
      RootIsAncestorOfAll();
      1 !in nodes
    }

    lemma RootIsAncestorOfAll()
      requires Linked()
      ensures nodes != map[] ==> 1 in nodes
    {
      if nodes != map[] {
        var q :| q in nodes;
        assert Present(nodes.Keys, q);
        RootIsAncestor(q);
        AncestorPresent(nodes.Keys, 1, q);
      }
    }

    /** The first loop of `FindNthNodePath`: the largest power of two that
        is at most `n` (1 when `n` is 0). */
    static method StartingModulus(n: nat) returns (modulus: nat, ghost e: nat)
      ensures modulus == Pow2(e)
      ensures n >= 1 ==> modulus <= n < 2 * modulus
      ensures n == 0 ==> modulus == 1
    {
      modulus := 1;
      e := 0;
      while n / modulus > 1
        invariant modulus == Pow2(e)
        invariant n >= 1 ==> modulus <= n
        invariant n == 0 ==> modulus == 1
        decreases n - modulus
      {
        ModulusDoubles(n, modulus);
        modulus := modulus * 2;
        e := e + 1;
      }
      if n >= 1 {
        ModulusStops(n, modulus);
      }
    }

    /** Step from node `current` to its left or right child, creating the
        child (with value 0) if it is missing. */
    method Descend(current: nat, right: bool) returns (child: nat)
      requires Linked() && current in nodes
      modifies this
      ensures child == 2 * current + (if right then 1 else 0)
      ensures Linked() && child in nodes
      ensures nodes == Grow(old(nodes), child)
    {
      child := if right then 2 * current + 1 else 2 * current;
      assert Present(nodes.Keys, current);
      GrowLinked(nodes, child);
      if child !in nodes {
        nodes := nodes[child := 0];
        size := size + 1;
      }
    }

    /** `FindNthNodePath(n)`: walk from the root towards position `n`, taking
        the bits of `n` below its leading bit from the most significant one
        (0: left, 1: right), creating every missing node on the way, and
        return the positions visited, root first. */
    method FindNthNodePath(n: nat) returns (path: seq<nat>)
      requires Linked()
      modifies this
      ensures Linked()
      ensures path == Path(n)
      ensures nodes == Extend(old(nodes), Path(n))
    {
      var modulus;
      ghost var e;
      modulus, e := StartingModulus(n);
      path := [];
      var current := 1;
      if 1 !in nodes {
        GrowLinked(nodes, 1);
        nodes := nodes[1 := 0];
        size := size + 1;
      }
      path := path + [current];
      ExtendSnoc(old(nodes), [], 1);
      assert n >= 1 ==> n / modulus == 1 by {
        if n >= 1 {
          DivUnique(n, modulus, 1, n - modulus);
        }
      }
      while modulus > 1
        invariant modulus == Pow2(e)
        invariant n == 0 ==> modulus == 1
        invariant n >= 1 ==> current == n / modulus >= 1
        invariant path == Path(n / modulus) && path[|path| - 1] == current
        invariant nodes == Extend(old(nodes), path)
        invariant Linked() && current in nodes
        decreases modulus
      {
        assert e >= 1;
        StepDown(n, modulus, e);
        var half := modulus / 2;
        assert half == Pow2(e - 1);
        ghost var walked := path;
        current := Descend(current, !(n % modulus < half));
        path := path + [current];
        modulus := half;
        e := e - 1;
        assert nodes == Extend(old(nodes), path) by {
          ExtendSnoc(old(nodes), walked, current);
        }
      }
    }

    /** `insert(value)`: on a complete tree of `size` nodes, the value goes to
        the new node at level-order position size + 1. */
    method Insert(value: int)
      requires Valid()
      modifies this
      ensures Valid()
      ensures size == old(size) + 1
      ensures nodes == old(nodes)[old(size) + 1 := value]
      ensures LevelOrder() == old(LevelOrder()) + [value]
    {
      ghost var n := size;
      ghost var before := nodes;
      var path := FindNthNodePath(size + 1);
      assert path[|path| - 1] == n + 1 by {
        PathRange(n + 1);
      }
      assert nodes == before[n + 1 := 0] by {
        ExtendComplete(before, n);
      }
      nodes := nodes[path[|path| - 1] := value];
      assert nodes == before[n + 1 := value];
      CompleteInsert(before, n, value);
    }

    /** The driver's loop: inserting `values` one by one into an empty tree. */
    static method FromValues(values: seq<int>) returns (tree: BinaryTree)
      ensures fresh(tree) && tree.Valid()
      ensures tree.size == |values| && tree.LevelOrder() == values
    {
      tree := new BinaryTree();
      for k := 0 to |values|
        invariant tree.Valid() && tree.LevelOrder() == values[..k]
      {
        tree.Insert(values[k]);
        assert values[..k + 1] == values[..k] + [values[k]];
      }
      assert values[..|values|] == values;
    }
  }

  /** Node values at positions 1 .. n. */
  function LevelValues(nodes: map<nat, int>, n: nat): (s: seq<int>)
    ensures |s| == n
  {
    seq(n, i => if i + 1 in nodes then nodes[i + 1] else 0)
  }

  /** Filling position n + 1 of a complete arena of `n` nodes. */
  lemma CompleteInsert(nodes: map<nat, int>, n: nat, v: int)
    requires forall p :: p in nodes <==> 1 <= p <= n
    ensures var m := nodes[n + 1 := v];
      && (forall p :: p in m <==> 1 <= p <= n + 1)
      && ParentClosed(m.Keys) && |m| == n + 1
      && LevelValues(m, n + 1) == LevelValues(nodes, n) + [v]
  {
    var m := nodes[n + 1 := v];
    assert m.Keys == nodes.Keys + {n + 1};
    CompleteCount(m, n + 1);
  }

  /** A complete arena of `n` nodes is parent-closed and has `n` nodes. */
  lemma CompleteCount(nodes: map<nat, int>, n: nat)
    requires forall p :: p in nodes <==> 1 <= p <= n
    ensures ParentClosed(nodes.Keys) && |nodes| == n
  {
    RangeSize(nodes.Keys, n);
    forall q: nat | Present(nodes.Keys, q)
      ensures q >= 1 && (q > 1 ==> q / 2 in nodes.Keys)
    {
    }
  }

  /** The set {1, ..., n} has n elements. */
  lemma {:induction false} RangeSize(keys: set<nat>, n: nat)
    requires forall p :: p in keys <==> 1 <= p <= n
    ensures |keys| == n
  {
    if n > 0 {
      RangeSize(keys - {n}, n - 1);
    }
  }

  /** On a complete arena of `n` nodes, walking to position n + 1 creates
      exactly that node. */
  lemma ExtendComplete(nodes: map<nat, int>, n: nat)
    requires forall p :: p in nodes <==> 1 <= p <= n
    ensures Extend(nodes, Path(n + 1)) == nodes[n + 1 := 0]
  {
    var path := Path(n + 1);
    var front := path[..|path| - 1];
    assert front + [n + 1] == path by {
      PathRange(n + 1);
    }
    assert Extend(nodes, front) == nodes by {
      PathRange(n + 1);
      ExtendExisting(nodes, front);
    }
    ExtendSnoc(nodes, front, n + 1);
    assert n + 1 !in nodes;
  }

  /** Walking along positions that all exist creates nothing. */
  lemma {:induction false} ExtendExisting(nodes: map<nat, int>, path: seq<nat>)
    requires forall k :: 0 <= k < |path| ==> path[k] in nodes
    ensures Extend(nodes, path) == nodes
  {
    if path != [] {
      ExtendExisting(nodes, path[..|path| - 1]);
    }
  }
}
