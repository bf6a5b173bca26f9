/** Ch_09_Binary_Trees/iterative_binary_tree_traversals.cpp: preorder, inorder
    and postorder traversals of a `BinaryTree`, each driven by an explicit
    stack, and the recursive postorder traversal they are compared with. */
module Traversals {
  import opened BinaryTrees

  /** What a stack entry asks for: `kTraverse` (postorder) or `kEnter`
      (inorder) expands the node's subtree; `kVisit` emits its value. */
  datatype Action = Traverse | Visit

  datatype Entry = Entry(position: nat, action: Action)

  /** The values still to be emitted for a preorder frontier, top first. */
  ghost function PreorderPending(nodes: map<nat, int>, frontier: seq<nat>): seq<int>
  {
    if frontier == [] then []
    else Preorder(Subtree(nodes, frontier[|frontier| - 1])) + PreorderPending(nodes, frontier[..|frontier| - 1])
  }

  /** Every position on a work stack is a node of the tree. */
  ghost predicate OnTree(nodes: map<nat, int>, positions: seq<nat>)
  {
    forall i :: 0 <= i < |positions| ==> positions[i] in nodes && positions[i] >= 1
  }

  /** `frontier` with the children of `p` that exist pushed, right first. */
  function PushChildren(nodes: map<nat, int>, frontier: seq<nat>, p: nat): seq<nat>
  {
    var withRight := if 2 * p + 1 in nodes then frontier + [2 * p + 1] else frontier;
    if 2 * p in nodes then withRight + [2 * p] else withRight
  }

  /** Pushing `q`, when it is a node, puts its subtree's preorder in front
      of what was pending. */
  lemma PreorderPush(nodes: map<nat, int>, rest: seq<nat>, q: nat)
    ensures PreorderPending(nodes, if q in nodes then rest + [q] else rest) ==
      Preorder(Subtree(nodes, q)) + PreorderPending(nodes, rest)
  {
    if q in nodes {
      assert (rest + [q])[..|rest|] == rest;
    }
  }

  lemma PreorderNode(nodes: map<nat, int>, p: nat)
    requires p in nodes && p >= 1
    ensures Preorder(Subtree(nodes, p)) ==
      [nodes[p]] + Preorder(Subtree(nodes, 2 * p)) + Preorder(Subtree(nodes, 2 * p + 1))
  {
  }

  lemma PreorderStep(nodes: map<nat, int>, rest: seq<nat>, p: nat)
    requires p in nodes && p >= 1
    ensures PreorderPending(nodes, rest + [p]) == [nodes[p]] + PreorderPending(nodes, PushChildren(nodes, rest, p))
  {
    var left := Preorder(Subtree(nodes, 2 * p));
    var right := Preorder(Subtree(nodes, 2 * p + 1));
    var pending := PreorderPending(nodes, rest);
    var withRight := if 2 * p + 1 in nodes then rest + [2 * p + 1] else rest;
    calc {
      PreorderPending(nodes, rest + [p]);
      { PreorderPush(nodes, rest, p); }
      Preorder(Subtree(nodes, p)) + pending;
      { PreorderNode(nodes, p); }
      ([nodes[p]] + left + right) + pending;
      [nodes[p]] + (left + (right + pending));
      { PreorderPush(nodes, rest, 2 * p + 1); }
      [nodes[p]] + (left + PreorderPending(nodes, withRight));
      { PreorderPush(nodes, withRight, 2 * p); }
      [nodes[p]] + PreorderPending(nodes, PushChildren(nodes, rest, p));
    }
  }

  /** The loop invariant of `PreorderTraversal`: what has been emitted,
      followed by what the frontier still holds, is the whole preorder. */
  ghost predicate PreorderInvariant(nodes: map<nat, int>, frontier: seq<nat>, traversal: seq<int>)
  {
    OnTree(nodes, frontier) && traversal + PreorderPending(nodes, frontier) == Preorder(Subtree(nodes, 1))
  }

  /** One turn of the preorder loop keeps the invariant and shortens what is pending. */
  lemma PreorderTurn(nodes: map<nat, int>, frontier: seq<nat>, traversal: seq<int>)
    requires ParentClosed(nodes.Keys) && frontier != [] && PreorderInvariant(nodes, frontier, traversal)
    ensures var p := frontier[|frontier| - 1];
      var next := PushChildren(nodes, frontier[..|frontier| - 1], p);
      && PreorderInvariant(nodes, next, traversal + [nodes[p]])
      && |PreorderPending(nodes, next)| < |PreorderPending(nodes, frontier)|
  {
    var p := frontier[|frontier| - 1];
    var rest := frontier[..|frontier| - 1];
    assert frontier == rest + [p];
    PreorderStep(nodes, rest, p);
    var next := PushChildren(nodes, rest, p);
    assert OnTree(nodes, next) by {
      forall i | 0 <= i < |next|
        ensures next[i] in nodes && next[i] >= 1
      {
        if i >= |rest| {
          assert next[i] == 2 * p || next[i] == 2 * p + 1;
        }
      }
    }
    assert traversal + [nodes[p]] + PreorderPending(nodes, next) == traversal + ([nodes[p]] + PreorderPending(nodes, next));
  }

  /** `PreorderTraversal`. */
  method PreorderTraversal(tree: BinaryTree) returns (traversal: seq<int>)
    requires tree.Linked()
    ensures traversal == Preorder(tree.AsTree())
    ensures |traversal| == tree.Size() && multiset(traversal) == Values(tree.AsTree())
  {
    TraversalsArePermutations(tree.AsTree());
    if 1 !in tree.nodes {
      return [];
    }
    traversal := PreorderLoop(tree);
  }

  /** The loop of `PreorderTraversal`, on a non-empty tree. */
  method PreorderLoop(tree: BinaryTree) returns (traversal: seq<int>)
    requires tree.Linked() && 1 in tree.nodes
    ensures traversal == Preorder(tree.AsTree())
  {
    var nodes := tree.nodes;
    traversal := [];
    var frontier := [1];
    assert PreorderPending(nodes, frontier) == Preorder(tree.AsTree()) by {
      assert frontier[..0] == [];
    }
    while |frontier| > 0
      invariant PreorderInvariant(nodes, frontier, traversal)
      decreases |PreorderPending(nodes, frontier)|
    {
      PreorderTurn(nodes, frontier, traversal);
      var current := frontier[|frontier| - 1];
      frontier := frontier[..|frontier| - 1];
      ghost var rest := frontier;
      traversal := traversal + [nodes[current]];
      if 2 * current + 1 in nodes {
        frontier := frontier + [2 * current + 1];
      }
      if 2 * current in nodes {
        frontier := frontier + [2 * current];
      }
      assert frontier == PushChildren(nodes, rest, current);
    }
  }

  // ----- Stacks of node/action entries (postorder and inorder) -----

  /** What expanding the subtree at `p` emits in the order being computed. */
  ghost function Expansion(nodes: map<nat, int>, p: nat, inorder: bool): seq<int>
  {
    if inorder then Inorder(Subtree(nodes, p)) else Postorder(Subtree(nodes, p))
  }

  ghost function Emitted(nodes: map<nat, int>, e: Entry, inorder: bool): seq<int>
  {
    match e.action
    case Traverse => Expansion(nodes, e.position, inorder)
    case Visit => if e.position in nodes then [nodes[e.position]] else []
  }

  /** The values still to be emitted for a work stack, top first. */
  ghost function Pending(nodes: map<nat, int>, stack: seq<Entry>, inorder: bool): seq<int>
  {
    if stack == [] then []
    else Emitted(nodes, stack[|stack| - 1], inorder) + Pending(nodes, stack[..|stack| - 1], inorder)
  }

  /** A measure that every turn of the loop decreases: an expansion counts
      twice the nodes of its subtree, a visit counts one. */
  ghost function Work(nodes: map<nat, int>, stack: seq<Entry>): nat
  {
    if stack == [] then 0
    else
      var e := stack[|stack| - 1];
      (match e.action
       case Traverse => 2 * NodeCount(Subtree(nodes, e.position))
       case Visit => 1)
      + Work(nodes, stack[..|stack| - 1])
  }

  ghost predicate EntriesOnTree(nodes: map<nat, int>, stack: seq<Entry>)
  {
    forall i :: 0 <= i < |stack| ==> stack[i].position in nodes && stack[i].position >= 1
  }

  /** Push an expansion of `q` if node `q` exists. */
  function PushIfPresent(nodes: map<nat, int>, stack: seq<Entry>, q: nat): seq<Entry>
  {
    if q in nodes then stack + [Entry(q, Traverse)] else stack
  }

  lemma PushEntry(nodes: map<nat, int>, stack: seq<Entry>, e: Entry, inorder: bool)
    ensures Pending(nodes, stack + [e], inorder) == Emitted(nodes, e, inorder) + Pending(nodes, stack, inorder)
    ensures Work(nodes, stack + [e]) == Work(nodes, [e]) + Work(nodes, stack)
  {
    assert (stack + [e])[..|stack|] == stack;
    assert [e][..0] == [];
  }

  lemma PushPresent(nodes: map<nat, int>, stack: seq<Entry>, q: nat, inorder: bool)
    requires q >= 1
    ensures Pending(nodes, PushIfPresent(nodes, stack, q), inorder) == Expansion(nodes, q, inorder) + Pending(nodes, stack, inorder)
    ensures Work(nodes, PushIfPresent(nodes, stack, q)) == 2 * NodeCount(Subtree(nodes, q)) + Work(nodes, stack)
  {
    PushEntry(nodes, stack, Entry(q, Traverse), inorder);
  }

  /** The entries `kTraverse` pushes in `PostorderTraversal`: the node's visit,
      then its right and left children. */
  function PostorderExpand(nodes: map<nat, int>, rest: seq<Entry>, p: nat): seq<Entry>
  {
    PushIfPresent(nodes, PushIfPresent(nodes, rest + [Entry(p, Visit)], 2 * p + 1), 2 * p)
  }

  /** The entries `kEnter` pushes in `InorderTraversal`: the right child, the
      node's visit, then the left child. */
  function InorderExpand(nodes: map<nat, int>, rest: seq<Entry>, p: nat): seq<Entry>
  {
    PushIfPresent(nodes, PushIfPresent(nodes, rest, 2 * p + 1) + [Entry(p, Visit)], 2 * p)
  }

  /** The loop invariant of both traversals: what has been emitted, followed
      by what the stack still holds, is the whole traversal. */
  ghost predicate StackInvariant(nodes: map<nat, int>, stack: seq<Entry>, traversal: seq<int>, inorder: bool)
  {
    EntriesOnTree(nodes, stack) && traversal + Pending(nodes, stack, inorder) == Expansion(nodes, 1, inorder)
  }

  lemma ExpandOnTree(nodes: map<nat, int>, rest: seq<Entry>, p: nat, next: seq<Entry>)
    requires EntriesOnTree(nodes, rest) && p in nodes && p >= 1
    requires next == PostorderExpand(nodes, rest, p) || next == InorderExpand(nodes, rest, p)
    ensures EntriesOnTree(nodes, next)
  {
    forall i | 0 <= i < |next|
      ensures next[i].position in nodes && next[i].position >= 1
    {
      if i >= |rest| {
        assert next[i].position in {p, 2 * p, 2 * p + 1};
      }
    }
  }

  /** A visit turn emits the node's value. */
  lemma VisitTurn(nodes: map<nat, int>, stack: seq<Entry>, traversal: seq<int>, inorder: bool)
    requires stack != [] && stack[|stack| - 1].action == Visit
    requires StackInvariant(nodes, stack, traversal, inorder)
    ensures var rest, p := stack[..|stack| - 1], stack[|stack| - 1].position;
      && StackInvariant(nodes, rest, traversal + [nodes[p]], inorder)
      && Work(nodes, rest) < Work(nodes, stack)
  {
    var rest := stack[..|stack| - 1];
    assert stack == rest + [stack[|stack| - 1]];
    PushEntry(nodes, rest, stack[|stack| - 1], inorder);
    assert stack[|stack| - 1].position in nodes;
  }

  lemma Regroup<T>(a: seq<T>, b: seq<T>, c: seq<T>, d: seq<T>)
    ensures a + (b + (c + d)) == a + b + c + d
  {
  }

  lemma PostorderExpandPending(nodes: map<nat, int>, rest: seq<Entry>, p: nat)
    requires p in nodes && p >= 1
    ensures Pending(nodes, PostorderExpand(nodes, rest, p), false) == Postorder(Subtree(nodes, p)) + Pending(nodes, rest, false)
  {
    var withVisit := rest + [Entry(p, Visit)];
    var withRight := PushIfPresent(nodes, withVisit, 2 * p + 1);
    var l, r, v := Postorder(Subtree(nodes, 2 * p)), Postorder(Subtree(nodes, 2 * p + 1)), nodes[p];
    var pending := Pending(nodes, rest, false);
    assert Pending(nodes, withVisit, false) == [v] + pending by {
      PushEntry(nodes, rest, Entry(p, Visit), false);
    }
    assert Pending(nodes, withRight, false) == r + ([v] + pending) by {
      PushPresent(nodes, withVisit, 2 * p + 1, false);
    }
    assert Pending(nodes, PostorderExpand(nodes, rest, p), false) == l + (r + ([v] + pending)) by {
      PushPresent(nodes, withRight, 2 * p, false);
    }
    assert Postorder(Subtree(nodes, p)) == l + r + [v];
    Regroup(l, r, [v], pending);
  }

  lemma InorderExpandPending(nodes: map<nat, int>, rest: seq<Entry>, p: nat)
    requires p in nodes && p >= 1
    ensures Pending(nodes, InorderExpand(nodes, rest, p), true) == Inorder(Subtree(nodes, p)) + Pending(nodes, rest, true)
  {
    var withRight := PushIfPresent(nodes, rest, 2 * p + 1);
    var withVisit := withRight + [Entry(p, Visit)];
    var l, r, v := Inorder(Subtree(nodes, 2 * p)), Inorder(Subtree(nodes, 2 * p + 1)), nodes[p];
    var pending := Pending(nodes, rest, true);
    assert Pending(nodes, withRight, true) == r + pending by {
      PushPresent(nodes, rest, 2 * p + 1, true);
    }
    assert Pending(nodes, withVisit, true) == [v] + (r + pending) by {
      PushEntry(nodes, withRight, Entry(p, Visit), true);
    }
    assert Pending(nodes, InorderExpand(nodes, rest, p), true) == l + ([v] + (r + pending)) by {
      PushPresent(nodes, withVisit, 2 * p, true);
    }
    assert Inorder(Subtree(nodes, p)) == l + [v] + r;
    Regroup(l, [v], r, pending);
  }

  lemma ExpandWork(nodes: map<nat, int>, rest: seq<Entry>, p: nat, next: seq<Entry>)
    requires p in nodes && p >= 1
    requires next == PostorderExpand(nodes, rest, p) || next == InorderExpand(nodes, rest, p)
    ensures Work(nodes, next) < Work(nodes, rest + [Entry(p, Traverse)])
  {
    var l, r := NodeCount(Subtree(nodes, 2 * p)), NodeCount(Subtree(nodes, 2 * p + 1));
    var w := Work(nodes, rest);
    assert Work(nodes, rest + [Entry(p, Traverse)]) == 2 * (l + 1 + r) + w by {
      PushEntry(nodes, rest, Entry(p, Traverse), false);
      assert Work(nodes, [Entry(p, Traverse)]) == 2 * NodeCount(Subtree(nodes, p));
    }
    assert Work(nodes, [Entry(p, Visit)]) == 1;
    if next == PostorderExpand(nodes, rest, p) {
      var withVisit := rest + [Entry(p, Visit)];
      var withRight := PushIfPresent(nodes, withVisit, 2 * p + 1);
      assert Work(nodes, withVisit) == 1 + w by {
        PushEntry(nodes, rest, Entry(p, Visit), false);
      }
      assert Work(nodes, withRight) == 2 * r + 1 + w by {
        PushPresent(nodes, withVisit, 2 * p + 1, false);
      }
      PushPresent(nodes, withRight, 2 * p, false);
    } else {
      var withRight := PushIfPresent(nodes, rest, 2 * p + 1);
      assert Work(nodes, withRight) == 2 * r + w by {
        PushPresent(nodes, rest, 2 * p + 1, true);
      }
      assert Work(nodes, withRight + [Entry(p, Visit)]) == 1 + 2 * r + w by {
        PushEntry(nodes, withRight, Entry(p, Visit), true);
      }
      PushPresent(nodes, withRight + [Entry(p, Visit)], 2 * p, true);
    }
  }

  /** A `kTraverse` turn of `PostorderTraversal` replaces the subtree by its parts. */
  lemma PostorderTurn(nodes: map<nat, int>, stack: seq<Entry>, traversal: seq<int>)
    requires stack != [] && stack[|stack| - 1].action == Traverse
    requires StackInvariant(nodes, stack, traversal, false)
    ensures var rest, p := stack[..|stack| - 1], stack[|stack| - 1].position;
      && StackInvariant(nodes, PostorderExpand(nodes, rest, p), traversal, false)
      && Work(nodes, PostorderExpand(nodes, rest, p)) < Work(nodes, stack)
  {
    var rest, p := stack[..|stack| - 1], stack[|stack| - 1].position;
    assert stack == rest + [Entry(p, Traverse)];
    assert p in nodes && p >= 1;
    PushEntry(nodes, rest, Entry(p, Traverse), false);
    PostorderExpandPending(nodes, rest, p);
    ExpandOnTree(nodes, rest, p, PostorderExpand(nodes, rest, p));
    ExpandWork(nodes, rest, p, PostorderExpand(nodes, rest, p));
  }

  /** A `kEnter` turn of `InorderTraversal` replaces the subtree by its parts. */
  lemma InorderTurn(nodes: map<nat, int>, stack: seq<Entry>, traversal: seq<int>)
    requires stack != [] && stack[|stack| - 1].action == Traverse
    requires StackInvariant(nodes, stack, traversal, true)
    ensures var rest, p := stack[..|stack| - 1], stack[|stack| - 1].position;
      && StackInvariant(nodes, InorderExpand(nodes, rest, p), traversal, true)
      && Work(nodes, InorderExpand(nodes, rest, p)) < Work(nodes, stack)
  {
    var rest, p := stack[..|stack| - 1], stack[|stack| - 1].position;
    assert stack == rest + [Entry(p, Traverse)];
    assert p in nodes && p >= 1;
    PushEntry(nodes, rest, Entry(p, Traverse), true);
    InorderExpandPending(nodes, rest, p);
    ExpandOnTree(nodes, rest, p, InorderExpand(nodes, rest, p));
    ExpandWork(nodes, rest, p, InorderExpand(nodes, rest, p));
  }

  /** `PostorderTraversal`. */
  method PostorderTraversal(tree: BinaryTree) returns (traversal: seq<int>)
    requires tree.Linked()
    ensures traversal == Postorder(tree.AsTree())
    ensures |traversal| == tree.Size() && multiset(traversal) == Values(tree.AsTree())
  {
    TraversalsArePermutations(tree.AsTree());
    if 1 !in tree.nodes {
      return [];
    }
    traversal := PostorderLoop(tree);
  }

  /** The loop of `PostorderTraversal`, on a non-empty tree. */
  method PostorderLoop(tree: BinaryTree) returns (traversal: seq<int>)
    requires tree.Linked() && 1 in tree.nodes
    ensures traversal == Postorder(tree.AsTree())
  {
    var nodes := tree.nodes;
    traversal := [];
    var stack := [Entry(1, Traverse)];
    PushEntry(nodes, [], Entry(1, Traverse), false);
    assert [] + [Entry(1, Traverse)] == stack;
    while |stack| > 0
      invariant StackInvariant(nodes, stack, traversal, false)
      decreases Work(nodes, stack)
    {
      var top := stack[|stack| - 1];
      if top.action == Visit {
        VisitTurn(nodes, stack, traversal, false);
        stack := stack[..|stack| - 1];
        traversal := traversal + [nodes[top.position]];
      } else {
        PostorderTurn(nodes, stack, traversal);
        var current := top.position;
        stack := stack[..|stack| - 1];
        ghost var rest := stack;
        stack := stack + [Entry(current, Visit)];
        if 2 * current + 1 in nodes {
          stack := stack + [Entry(2 * current + 1, Traverse)];
        }
        if 2 * current in nodes {
          stack := stack + [Entry(2 * current, Traverse)];
        }
        assert stack == PostorderExpand(nodes, rest, current);
      }
    }
  }

  /** `InorderTraversal`. */
  method InorderTraversal(tree: BinaryTree) returns (traversal: seq<int>)
    requires tree.Linked()
    ensures traversal == Inorder(tree.AsTree())
    ensures |traversal| == tree.Size() && multiset(traversal) == Values(tree.AsTree())
  {
    TraversalsArePermutations(tree.AsTree());
    if 1 !in tree.nodes {
      return [];
    }
    traversal := InorderLoop(tree);
  }

  /** The loop of `InorderTraversal`, on a non-empty tree. */
  method InorderLoop(tree: BinaryTree) returns (traversal: seq<int>)
    requires tree.Linked() && 1 in tree.nodes
    ensures traversal == Inorder(tree.AsTree())
  {
    var nodes := tree.nodes;
    traversal := [];
    var stack := [Entry(1, Traverse)];
    PushEntry(nodes, [], Entry(1, Traverse), true);
    assert [] + [Entry(1, Traverse)] == stack;
    while |stack| > 0
      invariant StackInvariant(nodes, stack, traversal, true)
      decreases Work(nodes, stack)
    {
      var top := stack[|stack| - 1];
      if top.action == Visit {
        VisitTurn(nodes, stack, traversal, true);
        stack := stack[..|stack| - 1];
        traversal := traversal + [nodes[top.position]];
      } else {
        InorderTurn(nodes, stack, traversal);
        var current := top.position;
        stack := stack[..|stack| - 1];
        ghost var rest := stack;
        if 2 * current + 1 in nodes {
          stack := stack + [Entry(2 * current + 1, Traverse)];
        }
        stack := stack + [Entry(current, Visit)];
        if 2 * current in nodes {
          stack := stack + [Entry(2 * current, Traverse)];
        }
        assert stack == InorderExpand(nodes, rest, current);
      }
    }
  }

  /** `PostorderTraversalR`: append the postorder of the subtree at `current`
      to `traversal` (the C++ passes the vector by reference). */
  method PostorderTraversalR(tree: BinaryTree, current: nat, traversal: seq<int>) returns (result: seq<int>)
    requires tree.Linked() && current in tree.nodes
    ensures result == traversal + Postorder(Subtree(tree.nodes, current))
    decreases var b := Bound(tree.nodes.Keys); if current < b then b - current else 0
  {
    assert Present(tree.nodes.Keys, current);
    result := traversal;
    if 2 * current in tree.nodes {
      result := PostorderTraversalR(tree, 2 * current, result);
    }
    if 2 * current + 1 in tree.nodes {
      result := PostorderTraversalR(tree, 2 * current + 1, result);
    }
    result := result + [tree.nodes[current]];
  }
}
