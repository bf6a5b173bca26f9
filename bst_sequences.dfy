/** Ch_14_Binary_Search_Trees/binary_search_tree_sequences.cpp: all the
    order-preserving merges of two sequences, and all the insertion orders
    that rebuild a binary search tree. */
module BstSequences {
  import opened BinaryTrees

  /** Each sequence of `ss` with `prefix` put in front. */
  function PrefixAll(prefix: seq<int>, ss: seq<seq<int>>): (r: seq<seq<int>>)
    ensures |r| == |ss| && forall k :: 0 <= k < |ss| ==> r[k] == prefix + ss[k]
  {
    seq(|ss|, k requires 0 <= k < |ss| => prefix + ss[k])
  }

  /** What `GenerateInterleavedSequencesRecursive` appends, in its order: the
      merges that take the next element of `a` first, then those that take
      the next element of `b` first, then the empty merge once both are used up. */
  function Interleavings(a: seq<int>, b: seq<int>): seq<seq<int>>
    decreases |a| + |b|
  {
    (if a != [] then PrefixAll([a[0]], Interleavings(a[1..], b)) else [])
    + (if b != [] then PrefixAll([b[0]], Interleavings(a, b[1..])) else [])
    + (if a == [] && b == [] then [[]] else [])
  }

  // ----- Merges as choice sequences -----

  /** A merge is fixed by choosing, position by position, whether the next
      element comes from `a` (true) or from `b` (false). */
  ghost predicate ValidChoice(choice: seq<bool>, m: nat, n: nat)
  {
    |choice| == m + n && TrueCount(choice) == m
  }

  function TrueCount(c: seq<bool>): nat
  {
    if c == [] then 0 else (if c[0] then 1 else 0) + TrueCount(c[1..])
  }

  /** The merge of `a` and `b` that a choice sequence describes. */
  function Weave(a: seq<int>, b: seq<int>, choice: seq<bool>): seq<int>
    decreases |choice|
  {
    if choice == [] then []
    else if choice[0] && a != [] then [a[0]] + Weave(a[1..], b, choice[1..])
    else if !choice[0] && b != [] then [b[0]] + Weave(a, b[1..], choice[1..])
    else []
  }

  /** The elements of `w` at the positions where `choice` is `side`. */
  function Select(w: seq<int>, choice: seq<bool>, side: bool): seq<int>
    decreases |w|
  {
    if w == [] || choice == [] then []
    else (if choice[0] == side then [w[0]] else []) + Select(w[1..], choice[1..], side)
  }

  function PrependChoice(x: bool, cs: seq<seq<bool>>): (r: seq<seq<bool>>)
    ensures |r| == |cs| && forall k :: 0 <= k < |cs| ==> r[k] == [x] + cs[k]
  {
    seq(|cs|, k requires 0 <= k < |cs| => [x] + cs[k])
  }

  /** The choice sequences in the order the recursion explores them. */
  function Choices(m: nat, n: nat): seq<seq<bool>>
    decreases m + n
  {
    (if m > 0 then PrependChoice(true, Choices(m - 1, n)) else [])
    + (if n > 0 then PrependChoice(false, Choices(m, n - 1)) else [])
    + (if m == 0 && n == 0 then [[]] else [])
  }

  function Binomial(n: nat, k: nat): nat
    decreases n
  {
    if k == 0 || k == n then 1
    else if k > n then 0
    else Binomial(n - 1, k - 1) + Binomial(n - 1, k)
  }

  /** There are C(m + n, m) choice sequences. */
  lemma {:induction false} ChoicesCount(m: nat, n: nat)
    ensures |Choices(m, n)| == Binomial(m + n, m)
    decreases m + n
  {
    ChoicesParts(m, n);
    if m > 0 && n > 0 {
      ChoicesCount(m - 1, n);
      ChoicesCount(m, n - 1);
      assert |Choices(m, n)| == |Choices(m - 1, n)| + |Choices(m, n - 1)|;
    } else if m > 0 {
      ChoicesCount(m - 1, n);
      assert |Choices(m, n)| == |Choices(m - 1, n)|;
    } else if n > 0 {
      ChoicesCount(m, n - 1);
      assert |Choices(m, n)| == |Choices(m, n - 1)|;
    }
  }

  /** The three parts `Choices` is built from. */
  function Leading(m: nat, n: nat): seq<seq<bool>>
    decreases m + n, 1
  {
    if m > 0 then PrependChoice(true, Choices(m - 1, n)) else []
  }

  function Trailing(m: nat, n: nat): seq<seq<bool>>
    decreases m + n, 1
  {
    if n > 0 then PrependChoice(false, Choices(m, n - 1)) else []
  }

  lemma ChoicesParts(m: nat, n: nat)
    ensures Choices(m, n) == Leading(m, n) + Trailing(m, n) + (if m == 0 && n == 0 then [[]] else [])
  {
  }

  lemma IndexThree<T>(x: seq<T>, y: seq<T>, z: seq<T>, k: nat)
    requires k < |x| + |y| + |z|
    ensures k < |x| ==> (x + y + z)[k] == x[k]
    ensures |x| <= k < |x| + |y| ==> (x + y + z)[k] == y[k - |x|]
    ensures |x| + |y| <= k ==> (x + y + z)[k] == z[k - |x| - |y|]
  {
  }

  lemma TrueCountBound(c: seq<bool>)
    ensures TrueCount(c) <= |c|
  {
  }

  lemma CountCons(x: bool, c: seq<bool>)
    ensures TrueCount([x] + c) == TrueCount(c) + (if x then 1 else 0)
  {
    assert ([x] + c)[1..] == c;
  }

  /** Every choice sequence produced is valid. */
  lemma {:induction false} ChoicesValid(m: nat, n: nat)
    ensures forall k :: 0 <= k < |Choices(m, n)| ==> ValidChoice(Choices(m, n)[k], m, n)
    decreases m + n
  {
    ChoicesParts(m, n);
    var cs := Choices(m, n);
    var first, second := Leading(m, n), Trailing(m, n);
    var base: seq<seq<bool>> := if m == 0 && n == 0 then [[]] else [];
    if m > 0 { ChoicesValid(m - 1, n); }
    if n > 0 { ChoicesValid(m, n - 1); }
    forall k | 0 <= k < |cs|
      ensures ValidChoice(cs[k], m, n)
    {
      IndexThree(first, second, base, k);
      if k < |first| {
        CountCons(true, Choices(m - 1, n)[k]);
      } else if k < |first| + |second| {
        CountCons(false, Choices(m, n - 1)[k - |first|]);
      }
    }
  }

  lemma PrependMember(x: bool, cs: seq<seq<bool>>, c: seq<bool>)
    requires c in cs
    ensures [x] + c in PrependChoice(x, cs)
  {
    var k :| 0 <= k < |cs| && cs[k] == c;
    assert PrependChoice(x, cs)[k] == [x] + c;
  }

  /** Every valid choice sequence is produced. */
  lemma {:induction false} ChoicesComplete(m: nat, n: nat, choice: seq<bool>)
    requires ValidChoice(choice, m, n)
    ensures choice in Choices(m, n)
    decreases m + n
  {
    if choice == [] {
      assert Choices(0, 0) == [[]];
    } else {
      var rest := choice[1..];
      assert choice == [choice[0]] + rest;
      CountCons(choice[0], rest);
      if choice[0] {
        assert choice in Leading(m, n) by {
          ChoicesComplete(m - 1, n, rest);
          PrependMember(true, Choices(m - 1, n), rest);
        }
      } else {
        assert choice in Trailing(m, n) by {
          TrueCountBound(rest);
          ChoicesComplete(m, n - 1, rest);
          PrependMember(false, Choices(m, n - 1), rest);
        }
      }
      ChoicesParts(m, n);
    }
  }

  ghost predicate Distinct<T>(s: seq<T>)
  {
    forall i, j :: 0 <= i < j < |s| ==> s[i] != s[j]
  }

  lemma PrependDistinct(x: bool, cs: seq<seq<bool>>)
    requires Distinct(cs)
    ensures Distinct(PrependChoice(x, cs))
  {
    var p := PrependChoice(x, cs);
    forall i, j | 0 <= i < j < |p|
      ensures p[i] != p[j]
    {
      assert p[i][1..] == cs[i];
      assert p[j][1..] == cs[j];
    }
  }

  lemma ConcatDistinct(xs: seq<seq<bool>>, ys: seq<seq<bool>>)
    requires Distinct(xs) && Distinct(ys)
    requires forall i :: 0 <= i < |xs| ==> xs[i] != [] && xs[i][0]
    requires forall j :: 0 <= j < |ys| ==> ys[j] != [] && !ys[j][0]
    ensures Distinct(xs + ys)
  {
    var s := xs + ys;
    forall i, j | 0 <= i < j < |s|
      ensures s[i] != s[j]
    {
      if j < |xs| {
        assert s[i] == xs[i] && s[j] == xs[j];
      } else if i >= |xs| {
        assert s[i] == ys[i - |xs|] && s[j] == ys[j - |xs|];
      } else {
        assert s[i][0] && !s[j][0];
      }
    }
  }

  /** No choice sequence is produced twice. */
  lemma {:induction false} ChoicesDistinct(m: nat, n: nat)
    ensures Distinct(Choices(m, n))
    decreases m + n
  {
    if m == 0 && n == 0 {
      assert Choices(0, 0) == [[]];
    } else {
      var first, second := Leading(m, n), Trailing(m, n);
      assert Distinct(first) by {
        if m > 0 {
          ChoicesDistinct(m - 1, n);
          PrependDistinct(true, Choices(m - 1, n));
        }
      }
      assert Distinct(second) by {
        if n > 0 {
          ChoicesDistinct(m, n - 1);
          PrependDistinct(false, Choices(m, n - 1));
        }
      }
      ConcatDistinct(first, second);
      ChoicesParts(m, n);
      assert Choices(m, n) == first + second;
    }
  }

  // ----- The interleavings are exactly the merges -----

  /** `ws[k]` is the merge that `cs[k]` describes, for every `k`. */
  ghost predicate Describes(ws: seq<seq<int>>, cs: seq<seq<bool>>, a: seq<int>, b: seq<int>)
  {
    |ws| == |cs| && forall k :: 0 <= k < |ws| ==> ws[k] == Weave(a, b, cs[k])
  }

  lemma DescribesLeading(ws: seq<seq<int>>, cs: seq<seq<bool>>, a: seq<int>, b: seq<int>)
    requires a != [] && Describes(ws, cs, a[1..], b)
    ensures Describes(PrefixAll([a[0]], ws), PrependChoice(true, cs), a, b)
  {
    forall k | 0 <= k < |ws|
      ensures PrefixAll([a[0]], ws)[k] == Weave(a, b, PrependChoice(true, cs)[k])
    {
      assert ([true] + cs[k])[1..] == cs[k];
    }
  }

  lemma DescribesTrailing(ws: seq<seq<int>>, cs: seq<seq<bool>>, a: seq<int>, b: seq<int>)
    requires b != [] && Describes(ws, cs, a, b[1..])
    ensures Describes(PrefixAll([b[0]], ws), PrependChoice(false, cs), a, b)
  {
    forall k | 0 <= k < |ws|
      ensures PrefixAll([b[0]], ws)[k] == Weave(a, b, PrependChoice(false, cs)[k])
    {
      assert ([false] + cs[k])[1..] == cs[k];
    }
  }

  lemma DescribesConcat(ws: seq<seq<int>>, cs: seq<seq<bool>>, vs: seq<seq<int>>, ds: seq<seq<bool>>, a: seq<int>, b: seq<int>)
    requires Describes(ws, cs, a, b) && Describes(vs, ds, a, b)
    ensures Describes(ws + vs, cs + ds, a, b)
  {
    forall k | 0 <= k < |ws| + |vs|
      ensures (ws + vs)[k] == Weave(a, b, (cs + ds)[k])
    {
      if k >= |ws| {
        assert (ws + vs)[k] == vs[k - |ws|] && (cs + ds)[k] == ds[k - |ws|];
      }
    }
  }

  /** The k-th interleaving is the merge described by the k-th choice sequence. */
  lemma {:induction false} InterleavingsFollowChoices(a: seq<int>, b: seq<int>)
    ensures Describes(Interleavings(a, b), Choices(|a|, |b|), a, b)
    decreases |a| + |b|
  {
    var lead: seq<seq<int>> := if a != [] then PrefixAll([a[0]], Interleavings(a[1..], b)) else [];
    var trail: seq<seq<int>> := if b != [] then PrefixAll([b[0]], Interleavings(a, b[1..])) else [];
    var base: seq<seq<int>> := if a == [] && b == [] then [[]] else [];
    var cbase: seq<seq<bool>> := if a == [] && b == [] then [[]] else [];
    assert Describes(lead, Leading(|a|, |b|), a, b) by {
      if a != [] {
        assert |a[1..]| == |a| - 1;
        InterleavingsFollowChoices(a[1..], b);
        DescribesLeading(Interleavings(a[1..], b), Choices(|a| - 1, |b|), a, b);
      }
    }
    assert Describes(trail, Trailing(|a|, |b|), a, b) by {
      if b != [] {
        assert |b[1..]| == |b| - 1;
        InterleavingsFollowChoices(a, b[1..]);
        DescribesTrailing(Interleavings(a, b[1..]), Choices(|a|, |b| - 1), a, b);
      }
    }
    assert Describes(lead + trail + base, Leading(|a|, |b|) + Trailing(|a|, |b|) + cbase, a, b) by {
      assert Describes(base, cbase, a, b);
      DescribesConcat(lead, Leading(|a|, |b|), trail, Trailing(|a|, |b|), a, b);
      DescribesConcat(lead + trail, Leading(|a|, |b|) + Trailing(|a|, |b|), base, cbase, a, b);
    }
    ChoicesParts(|a|, |b|);
    assert Interleavings(a, b) == lead + trail + base;
  }

  /** One step of a merge: the first choice takes the first element of its side. */
  lemma WeaveStep(a: seq<int>, b: seq<int>, choice: seq<bool>)
    requires ValidChoice(choice, |a|, |b|) && choice != []
    ensures choice[0] ==>
      (a != [] && ValidChoice(choice[1..], |a| - 1, |b|) &&
       Weave(a, b, choice) == [a[0]] + Weave(a[1..], b, choice[1..]))
    ensures !choice[0] ==>
      (b != [] && ValidChoice(choice[1..], |a|, |b| - 1) &&
       Weave(a, b, choice) == [b[0]] + Weave(a, b[1..], choice[1..]))
  {
    assert choice == [choice[0]] + choice[1..];
    CountCons(choice[0], choice[1..]);
    TrueCountBound(choice[1..]);
  }

  /** A merge has the length and the elements of both inputs together. */
  lemma {:induction false} WeaveKeepsElements(a: seq<int>, b: seq<int>, choice: seq<bool>)
    requires ValidChoice(choice, |a|, |b|)
    ensures |Weave(a, b, choice)| == |a| + |b|
    ensures multiset(Weave(a, b, choice)) == multiset(a) + multiset(b)
    decreases |choice|
  {
    if choice != [] {
      WeaveStep(a, b, choice);
      if choice[0] {
        var rest := Weave(a[1..], b, choice[1..]);
        WeaveKeepsElements(a[1..], b, choice[1..]);
        assert a == [a[0]] + a[1..];
        assert multiset([a[0]] + rest) == multiset{a[0]} + multiset(rest);
        MultisetRegroup(a[0], multiset(a[1..]), multiset(b));
      } else {
        var rest := Weave(a, b[1..], choice[1..]);
        WeaveKeepsElements(a, b[1..], choice[1..]);
        assert b == [b[0]] + b[1..];
        assert multiset([b[0]] + rest) == multiset{b[0]} + multiset(rest);
        MultisetRegroup(b[0], multiset(a), multiset(b[1..]));
      }
    }
  }

  lemma MultisetRegroup(x: int, p: multiset<int>, q: multiset<int>)
    ensures multiset{x} + (p + q) == (multiset{x} + p) + q == p + (multiset{x} + q) == (p + multiset{x}) + q
  {
  }

  /** Taking back the positions the choice sequence gives to one side yields
      that side unchanged. */
  lemma {:induction false} WeaveSelect(a: seq<int>, b: seq<int>, choice: seq<bool>, side: bool)
    requires ValidChoice(choice, |a|, |b|)
    ensures Select(Weave(a, b, choice), choice, side) == if side then a else b
    decreases |choice|
  {
    if choice != [] {
      WeaveStep(a, b, choice);
      var w := Weave(a, b, choice);
      if choice[0] {
        var rest := Weave(a[1..], b, choice[1..]);
        assert w[0] == a[0] && w[1..] == rest;
        assert Select(w, choice, side) == (if side then [a[0]] else []) + Select(rest, choice[1..], side);
        WeaveSelect(a[1..], b, choice[1..], side);
        assert side ==> a == [a[0]] + a[1..];
      } else {
        var rest := Weave(a, b[1..], choice[1..]);
        assert w[0] == b[0] && w[1..] == rest;
        assert Select(w, choice, side) == (if side then [] else [b[0]]) + Select(rest, choice[1..], side);
        WeaveSelect(a, b[1..], choice[1..], side);
        assert !side ==> b == [b[0]] + b[1..];
      }
    }
  }

  /** A sequence is an interleaving of `a` and `b` exactly when some valid
      choice sequence describes it. */
  lemma InterleavingIsMerge(a: seq<int>, b: seq<int>, w: seq<int>)
    ensures w in Interleavings(a, b) <==> exists c :: ValidChoice(c, |a|, |b|) && w == Weave(a, b, c)
  {
    var ws, cs := Interleavings(a, b), Choices(|a|, |b|);
    assert Describes(ws, cs, a, b) by {
      InterleavingsFollowChoices(a, b);
    }
    if w in ws {
      var k :| 0 <= k < |ws| && ws[k] == w;
      assert ValidChoice(cs[k], |a|, |b|) by {
        ChoicesValid(|a|, |b|);
      }
      assert w == Weave(a, b, cs[k]);
    }
    if c :| ValidChoice(c, |a|, |b|) && w == Weave(a, b, c) {
      assert c in cs by {
        ChoicesComplete(|a|, |b|, c);
      }
      var k :| 0 <= k < |cs| && cs[k] == c;
      assert ws[k] == w;
    }
  }

  /** The merge a valid choice sequence describes keeps the length and the
      elements of both inputs and gives each input back at its positions. */
  ghost predicate MergeOf(w: seq<int>, c: seq<bool>, a: seq<int>, b: seq<int>)
  {
    |w| == |a| + |b| && multiset(w) == multiset(a) + multiset(b) &&
    Select(w, c, true) == a && Select(w, c, false) == b
  }

  lemma WeaveIsMerge(a: seq<int>, b: seq<int>, c: seq<bool>)
    requires ValidChoice(c, |a|, |b|)
    ensures MergeOf(Weave(a, b, c), c, a, b)
  {
    WeaveKeepsElements(a, b, c);
    WeaveSelect(a, b, c, true);
    WeaveSelect(a, b, c, false);
  }

  /** Every interleaving has length |a| + |b|, holds the elements of both,
      and gives back `a` and `b` at the positions its choice sequence marks. */
  lemma InterleavingsAreMerges(a: seq<int>, b: seq<int>)
    ensures |Interleavings(a, b)| == |Choices(|a|, |b|)|
    ensures forall k :: 0 <= k < |Interleavings(a, b)| ==>
      MergeOf(Interleavings(a, b)[k], Choices(|a|, |b|)[k], a, b)
  {
    var ws, cs := Interleavings(a, b), Choices(|a|, |b|);
    InterleavingsFollowChoices(a, b);
    ChoicesValid(|a|, |b|);
    DescribedMerges(ws, cs, a, b);
  }

  /** There are C(|a| + |b|, |a|) interleavings. */
  lemma InterleavingsCount(a: seq<int>, b: seq<int>)
    ensures |Interleavings(a, b)| == Binomial(|a| + |b|, |a|)
  {
    assert |Interleavings(a, b)| == |Choices(|a|, |b|)| by {
      InterleavingsFollowChoices(a, b);
    }
    ChoicesCount(|a|, |b|);
  }

  /** Two sequences that share no value. */
  ghost predicate Disjoint(a: seq<int>, b: seq<int>)
  {
    forall x, y :: x in a && y in b ==> x != y
  }

  /** When the two inputs share no value, the merge determines the choice
      sequence that produced it. */
  lemma {:induction false} WeaveInjective(a: seq<int>, b: seq<int>, c: seq<bool>, d: seq<bool>)
    requires Disjoint(a, b)
    requires ValidChoice(c, |a|, |b|) && ValidChoice(d, |a|, |b|)
    requires Weave(a, b, c) == Weave(a, b, d)
    ensures c == d
    decreases |c|
  {
    if c != [] {
      WeaveStep(a, b, c);
      WeaveStep(a, b, d);
      assert c[0] == d[0] by {
        assert Weave(a, b, c)[0] == Weave(a, b, d)[0];
        if a != [] && b != [] {
          assert a[0] in a && b[0] in b;
        }
      }
      if c[0] {
        assert forall x :: x in a[1..] ==> x in a;
        assert Weave(a[1..], b, c[1..]) == Weave(a, b, c)[1..];
        WeaveInjective(a[1..], b, c[1..], d[1..]);
      } else {
        assert forall y :: y in b[1..] ==> y in b;
        assert Weave(a, b[1..], c[1..]) == Weave(a, b, c)[1..];
        WeaveInjective(a, b[1..], c[1..], d[1..]);
      }
      assert c == [c[0]] + c[1..] && d == [d[0]] + d[1..];
    }
  }

  /** When the two inputs share no value, no merge is produced twice. */
  lemma InterleavingsDistinct(a: seq<int>, b: seq<int>)
    requires Disjoint(a, b)
    ensures Distinct(Interleavings(a, b))
  {
    var ws, cs := Interleavings(a, b), Choices(|a|, |b|);
    InterleavingsFollowChoices(a, b);
    ChoicesValid(|a|, |b|);
    ChoicesDistinct(|a|, |b|);
    forall i, j | 0 <= i < j < |ws|
      ensures ws[i] != ws[j]
    {
      if ws[i] == ws[j] {
        WeaveInjective(a, b, cs[i], cs[j]);
      }
    }
  }

  /** Merges described by valid choice sequences are merges. */
  lemma DescribedMerges(ws: seq<seq<int>>, cs: seq<seq<bool>>, a: seq<int>, b: seq<int>)
    requires Describes(ws, cs, a, b)
    requires forall k :: 0 <= k < |cs| ==> ValidChoice(cs[k], |a|, |b|)
    ensures forall k :: 0 <= k < |ws| ==> MergeOf(ws[k], cs[k], a, b)
  {
    forall k | 0 <= k < |ws|
      ensures MergeOf(ws[k], cs[k], a, b)
    {
      WeaveIsMerge(a, b, cs[k]);
    }
  }

  // ----- GenerateInterleavedSequences -----

  lemma PrefixAllTwice(p: seq<int>, q: seq<int>, ss: seq<seq<int>>)
    ensures PrefixAll(p + q, ss) == PrefixAll(p, PrefixAll(q, ss))
  {
    forall k | 0 <= k < |ss|
      ensures (p + q) + ss[k] == p + (q + ss[k])
    {
    }
  }

  lemma PrefixAllConcat(p: seq<int>, xs: seq<seq<int>>, ys: seq<seq<int>>)
    ensures PrefixAll(p, xs + ys) == PrefixAll(p, xs) + PrefixAll(p, ys)
  {
  }

  /** `GenerateInterleavedSequencesRecursive`: `current` is the backtracking
      buffer and `generated` the output vector, both passed by reference in
      the C++; the buffer comes back as it went in, and the output gains
      every merge of `a[i..]` and `b[j..]`, each after the buffer's contents. */
  method GenerateInterleavedSequencesRecursive(a: seq<int>, b: seq<int>, current: seq<int>, i: nat, j: nat,
                                               generated: seq<seq<int>>)
    returns (currentAfter: seq<int>, generatedAfter: seq<seq<int>>)
    requires i <= |a| && j <= |b|
    ensures currentAfter == current
    ensures generatedAfter == generated + PrefixAll(current, Interleavings(a[i..], b[j..]))
    decreases |a| - i + |b| - j
  {
    currentAfter, generatedAfter := current, generated;
    ghost var lead: seq<seq<int>> := [];
    ghost var trail: seq<seq<int>> := [];
    ghost var base: seq<seq<int>> := [];
    if i < |a| {
      currentAfter := currentAfter + [a[i]];
      currentAfter, generatedAfter := GenerateInterleavedSequencesRecursive(a, b, currentAfter, i + 1, j, generatedAfter);
      currentAfter := currentAfter[..|currentAfter| - 1];
      assert currentAfter == current;
      lead := PrefixAll([a[i]], Interleavings(a[i + 1..], b[j..]));
      PrefixAllTwice(current, [a[i]], Interleavings(a[i + 1..], b[j..]));
      assert a[i..][0] == a[i] && a[i..][1..] == a[i + 1..];
    }
    ghost var afterLead := generatedAfter;
    assert afterLead == generated + PrefixAll(current, lead);
    if j < |b| {
      currentAfter := currentAfter + [b[j]];
      currentAfter, generatedAfter := GenerateInterleavedSequencesRecursive(a, b, currentAfter, i, j + 1, generatedAfter);
      currentAfter := currentAfter[..|currentAfter| - 1];
      assert currentAfter == current;
      trail := PrefixAll([b[j]], Interleavings(a[i..], b[j + 1..]));
      PrefixAllTwice(current, [b[j]], Interleavings(a[i..], b[j + 1..]));
      assert b[j..][0] == b[j] && b[j..][1..] == b[j + 1..];
    }
    ghost var afterTrail := generatedAfter;
    assert afterTrail == afterLead + PrefixAll(current, trail);
    if i == |a| && j == |b| {
      generatedAfter := generatedAfter + [currentAfter];
      base := [[]];
      assert current + [] == current;
      assert PrefixAll(current, base) == [currentAfter];
    } else {
      assert generatedAfter == afterTrail + PrefixAll(current, base);
    }
    assert Interleavings(a[i..], b[j..]) == lead + trail + base;
    ThreeParts(generated, current, lead, trail, base, afterLead, afterTrail, generatedAfter);
  }

  /** The output after the three parts of the recursion. */
  lemma ThreeParts(generated: seq<seq<int>>, current: seq<int>, lead: seq<seq<int>>, trail: seq<seq<int>>,
                   base: seq<seq<int>>, afterLead: seq<seq<int>>, afterTrail: seq<seq<int>>, afterBase: seq<seq<int>>)
    requires afterLead == generated + PrefixAll(current, lead)
    requires afterTrail == afterLead + PrefixAll(current, trail)
    requires afterBase == afterTrail + PrefixAll(current, base)
    ensures afterBase == generated + PrefixAll(current, lead + trail + base)
  {
    PrefixAllConcat(current, lead, trail);
    PrefixAllConcat(current, lead + trail, base);
    AppendAssoc(generated, PrefixAll(current, lead), PrefixAll(current, trail));
    AppendAssoc(generated, PrefixAll(current, lead) + PrefixAll(current, trail), PrefixAll(current, base));
  }

  /** `GenerateInterleavedSequences`: every merge of the two sequences, in
      the order of `Interleavings`. */
  method GenerateInterleavedSequences(sequence: seq<int>, otherSequence: seq<int>) returns (generated: seq<seq<int>>)
    ensures generated == Interleavings(sequence, otherSequence)
  {
    var current: seq<int> := [];
    current, generated := GenerateInterleavedSequencesRecursive(sequence, otherSequence, current, 0, 0, []);
    assert sequence[0..] == sequence && otherSequence[0..] == otherSequence;
    forall k | 0 <= k < |generated|
      ensures generated[k] == Interleavings(sequence, otherSequence)[k]
    {
      assert [] + Interleavings(sequence, otherSequence)[k] == Interleavings(sequence, otherSequence)[k];
    }
  }

  // ----- BST sequences -----

  /** The inner loop of the two-children case: the merges of `left` with
      each of `rights` in turn. */
  function Row(left: seq<int>, rights: seq<seq<int>>): seq<seq<int>>
    decreases |rights|
  {
    if rights == [] then []
    else Row(left, rights[..|rights| - 1]) + Interleavings(left, rights[|rights| - 1])
  }

  /** The outer loop: a `Row` for each of `lefts` in turn. */
  function AllInterleavings(lefts: seq<seq<int>>, rights: seq<seq<int>>): seq<seq<int>>
    decreases |lefts|
  {
    if lefts == [] then []
    else AllInterleavings(lefts[..|lefts| - 1], rights) + Row(lefts[|lefts| - 1], rights)
  }

  /** What `BstSequencesRecursive` returns for a non-empty subtree. */
  function BstSeqs(t: Tree): seq<seq<int>>
    requires t != Nil
    decreases t
  {
    var Node(l, v, r) := t;
    if l == Nil && r == Nil then [[v]]
    else if r == Nil then PrefixAll([v], BstSeqs(l))
    else if l == Nil then PrefixAll([v], BstSeqs(r))
    else PrefixAll([v], AllInterleavings(BstSeqs(l), BstSeqs(r)))
  }

  lemma ConcatMember<T>(xs: seq<T>, ys: seq<T>, w: T)
    ensures w in xs + ys <==> w in xs || w in ys
  {
  }

  /** Which merge of the inner loop produced `w`. */
  lemma {:induction false} RowIndex(left: seq<int>, rights: seq<seq<int>>, w: seq<int>) returns (j: nat)
    requires w in Row(left, rights)
    ensures j < |rights| && w in Interleavings(left, rights[j])
    decreases |rights|
  {
    var init, last := rights[..|rights| - 1], rights[|rights| - 1];
    ConcatMember(Row(left, init), Interleavings(left, last), w);
    if w in Row(left, init) {
      j := RowIndex(left, init, w);
      assert rights[j] == init[j];
    } else {
      j := |rights| - 1;
    }
  }

  /** The inner loop produces every merge of `left` with each of `rights`. */
  lemma {:induction false} RowContains(left: seq<int>, rights: seq<seq<int>>, j: nat, w: seq<int>)
    requires j < |rights| && w in Interleavings(left, rights[j])
    ensures w in Row(left, rights)
    decreases |rights|
  {
    var init, last := rights[..|rights| - 1], rights[|rights| - 1];
    ConcatMember(Row(left, init), Interleavings(left, last), w);
    if j < |init| {
      assert init[j] == rights[j];
      RowContains(left, init, j, w);
    }
  }

  /** Which pair of a left and a right sequence produced `w`. */
  lemma {:induction false} AllInterleavingsIndex(lefts: seq<seq<int>>, rights: seq<seq<int>>, w: seq<int>)
    returns (i: nat, j: nat)
    requires w in AllInterleavings(lefts, rights)
    ensures i < |lefts| && j < |rights| && w in Interleavings(lefts[i], rights[j])
    decreases |lefts|
  {
    var init, last := lefts[..|lefts| - 1], lefts[|lefts| - 1];
    ConcatMember(AllInterleavings(init, rights), Row(last, rights), w);
    if w in AllInterleavings(init, rights) {
      i, j := AllInterleavingsIndex(init, rights, w);
      assert lefts[i] == init[i];
    } else {
      i := |lefts| - 1;
      j := RowIndex(last, rights, w);
    }
  }

  /** The two-children loops produce every merge of every left sequence with
      every right sequence. */
  lemma {:induction false} AllInterleavingsContains(lefts: seq<seq<int>>, rights: seq<seq<int>>, i: nat, j: nat, w: seq<int>)
    requires i < |lefts| && j < |rights| && w in Interleavings(lefts[i], rights[j])
    ensures w in AllInterleavings(lefts, rights)
    decreases |lefts|
  {
    var init, last := lefts[..|lefts| - 1], lefts[|lefts| - 1];
    ConcatMember(AllInterleavings(init, rights), Row(last, rights), w);
    if i < |init| {
      assert init[i] == lefts[i];
      AllInterleavingsContains(init, rights, i, j, w);
    } else {
      assert i == |lefts| - 1;
      RowContains(lefts[i], rights, j, w);
    }
  }

  /** A member of an interleaving keeps the elements of both inputs. */
  lemma InterleavingElements(a: seq<int>, b: seq<int>, w: seq<int>)
    requires w in Interleavings(a, b)
    ensures |w| == |a| + |b| && multiset(w) == multiset(a) + multiset(b)
  {
    InterleavingIsMerge(a, b, w);
    var c :| ValidChoice(c, |a|, |b|) && w == Weave(a, b, c);
    WeaveKeepsElements(a, b, c);
  }

  lemma PrefixMember(v: int, ss: seq<seq<int>>, w: seq<int>)
    requires w in PrefixAll([v], ss)
    ensures w != [] && w[0] == v && w[1..] in ss
  {
    var k :| 0 <= k < |ss| && PrefixAll([v], ss)[k] == w;
    assert w[1..] == ss[k];
  }

  /** Every sequence for a subtree starts with the subtree's root value and
      is a permutation of the subtree's values. */
  lemma {:induction false} BstSeqsArePermutations(t: Tree, w: seq<int>)
    requires t != Nil && w in BstSeqs(t)
    ensures w != [] && w[0] == t.value
    ensures |w| == NodeCount(t) && multiset(w) == Values(t)
    decreases t
  {
    var Node(l, v, r) := t;
    if l == Nil && r == Nil {
      assert w == [v];
    } else {
      var ss := if r == Nil then BstSeqs(l)
                else if l == Nil then BstSeqs(r)
                else AllInterleavings(BstSeqs(l), BstSeqs(r));
      PrefixMember(v, ss, w);
      var tail := w[1..];
      assert |tail| == NodeCount(l) + NodeCount(r) && multiset(tail) == Values(l) + Values(r) by {
        if r == Nil {
          BstSeqsArePermutations(l, tail);
        } else if l == Nil {
          BstSeqsArePermutations(r, tail);
        } else {
          var i, j := AllInterleavingsIndex(BstSeqs(l), BstSeqs(r), tail);
          BstSeqsArePermutations(l, BstSeqs(l)[i]);
          BstSeqsArePermutations(r, BstSeqs(r)[j]);
          InterleavingElements(BstSeqs(l)[i], BstSeqs(r)[j], tail);
        }
      }
      assert w == [v] + tail;
      assert multiset(w) == multiset{v} + multiset(tail);
      MultisetRegroup(v, Values(l), Values(r));
    }
  }

  // ----- Rebuilding the tree from a sequence -----

  /** Binary-search-tree order with distinct values: everything left of a
      node is smaller than it and everything right of it larger. */
  ghost predicate IsBst(t: Tree)
  {
    match t
    case Nil => true
    case Node(l, v, r) =>
      IsBst(l) && IsBst(r) && (forall x :: x in Values(l) ==> x < v) && (forall x :: x in Values(r) ==> v < x)
  }

  /** Insertion into a binary search tree as a new leaf. */
  function InsertBst(t: Tree, x: int): (r: Tree)
    ensures r != Nil
  {
    match t
    case Nil => Node(Nil, x, Nil)
    case Node(l, v, rt) =>
      if x < v then Node(InsertBst(l, x), v, rt) else Node(l, v, InsertBst(rt, x))
  }

  /** Insert the values of `s` one after another. */
  function InsertAll(t: Tree, s: seq<int>): Tree
    decreases |s|
  {
    if s == [] then t else InsertAll(InsertBst(t, s[0]), s[1..])
  }

  /** Values smaller than the root all go to its left subtree. */
  lemma {:induction false} InsertAllLeft(l: Tree, v: int, r: Tree, s: seq<int>)
    requires forall x :: x in s ==> x < v
    ensures InsertAll(Node(l, v, r), s) == Node(InsertAll(l, s), v, r)
    decreases |s|
  {
    if s != [] {
      assert s[0] in s;
      assert forall x :: x in s[1..] ==> x in s;
      InsertAllLeft(InsertBst(l, s[0]), v, r, s[1..]);
    }
  }

  /** Values larger than the root all go to its right subtree. */
  lemma {:induction false} InsertAllRight(l: Tree, v: int, r: Tree, s: seq<int>)
    requires forall x :: x in s ==> v < x
    ensures InsertAll(Node(l, v, r), s) == Node(l, v, InsertAll(r, s))
    decreases |s|
  {
    if s != [] {
      assert s[0] in s;
      assert forall x :: x in s[1..] ==> x in s;
      InsertAllRight(l, v, InsertBst(r, s[0]), s[1..]);
    }
  }

  /** Inserting a merge of a smaller and a larger sequence builds each side
      from its own sequence, whatever the merge. */
  lemma {:induction false} InsertWeave(l: Tree, v: int, r: Tree, a: seq<int>, b: seq<int>, c: seq<bool>)
    requires ValidChoice(c, |a|, |b|)
    requires forall x :: x in a ==> x < v
    requires forall x :: x in b ==> v < x
    ensures InsertAll(Node(l, v, r), Weave(a, b, c)) == Node(InsertAll(l, a), v, InsertAll(r, b))
    decreases |c|
  {
    if c == [] {
      assert a == [] && b == [];
    } else {
      WeaveStep(a, b, c);
      if c[0] {
        assert a[0] in a;
        assert forall x :: x in a[1..] ==> x in a;
        InsertWeave(InsertBst(l, a[0]), v, r, a[1..], b, c[1..]);
      } else {
        assert b[0] in b;
        assert forall x :: x in b[1..] ==> x in b;
        InsertWeave(l, v, InsertBst(r, b[0]), a, b[1..], c[1..]);
      }
    }
  }

  /** Inserting any of the sequences into an empty tree rebuilds `t`, when
      `t` is a binary search tree. */
  lemma {:induction false} BstSeqsRebuild(t: Tree, w: seq<int>)
    requires t != Nil && IsBst(t) && w in BstSeqs(t)
    ensures InsertAll(Nil, w) == t
    decreases t
  {
    var Node(l, v, r) := t;
    if l == Nil && r == Nil {
      assert w == [v];
    } else {
      var ss := if r == Nil then BstSeqs(l)
                else if l == Nil then BstSeqs(r)
                else AllInterleavings(BstSeqs(l), BstSeqs(r));
      PrefixMember(v, ss, w);
      var tail := w[1..];
      assert InsertAll(Nil, w) == InsertAll(Node(Nil, v, Nil), tail);
      if r == Nil {
        BstSeqsRebuild(l, tail);
        BstSeqsArePermutations(l, tail);
        assert forall x :: x in tail ==> x in multiset(tail);
        InsertAllLeft(Nil, v, Nil, tail);
      } else if l == Nil {
        BstSeqsRebuild(r, tail);
        BstSeqsArePermutations(r, tail);
        assert forall x :: x in tail ==> x in multiset(tail);
        InsertAllRight(Nil, v, Nil, tail);
      } else {
        var i, j := AllInterleavingsIndex(BstSeqs(l), BstSeqs(r), tail);
        var a, b := BstSeqs(l)[i], BstSeqs(r)[j];
        InterleavingIsMerge(a, b, tail);
        var c :| ValidChoice(c, |a|, |b|) && tail == Weave(a, b, c);
        BstSeqsRebuild(l, a);
        BstSeqsRebuild(r, b);
        BstSeqsArePermutations(l, a);
        BstSeqsArePermutations(r, b);
        assert forall x :: x in a ==> x in multiset(a);
        assert forall x :: x in b ==> x in multiset(b);
        InsertWeave(Nil, v, Nil, a, b, c);
      }
    }
  }

  /** Inserting values never moves the root. */
  lemma {:induction false} InsertAllRoot(l: Tree, v: int, r: Tree, s: seq<int>)
    ensures InsertAll(Node(l, v, r), s) != Nil && InsertAll(Node(l, v, r), s).value == v
    decreases |s|
  {
    if s != [] {
      var next := InsertBst(Node(l, v, r), s[0]);
      InsertAllRoot(next.left, v, next.right, s[1..]);
    }
  }

  /** Insertion adds exactly one node holding `x`. */
  lemma {:induction false} InsertBstValues(t: Tree, x: int)
    ensures Values(InsertBst(t, x)) == Values(t) + multiset{x}
    decreases t
  {
    match t
    case Nil =>
    case Node(l, v, r) =>
      AddInside(Values(l), multiset{v}, Values(r), multiset{x});
      if x < v {
        InsertBstValues(l, x);
      } else {
        InsertBstValues(r, x);
      }
  }

  /** Inserting a sequence adds exactly its values. */
  lemma {:induction false} InsertAllValues(t: Tree, s: seq<int>)
    ensures Values(InsertAll(t, s)) == Values(t) + multiset(s)
    decreases |s|
  {
    if s != [] {
      var next, rest := InsertBst(t, s[0]), s[1..];
      InsertBstValues(t, s[0]);
      InsertAllValues(next, rest);
      MultisetCons(s);
      Associate(Values(t), multiset{s[0]}, multiset(rest));
      assert InsertAll(t, s) == InsertAll(next, rest);
    }
  }

  /** Adding `m` to the left or the right part adds it to the whole. */
  lemma AddInside(p: multiset<int>, q: multiset<int>, r: multiset<int>, m: multiset<int>)
    ensures (p + m) + q + r == p + q + r + m
    ensures p + q + (r + m) == p + q + r + m
  {
  }

  lemma MultisetCons(s: seq<int>)
    requires s != []
    ensures multiset(s) == multiset{s[0]} + multiset(s[1..])
  {
    assert s == [s[0]] + s[1..];
  }

  lemma Associate(p: multiset<int>, q: multiset<int>, r: multiset<int>)
    ensures (p + q) + r == p + (q + r)
  {
  }

  /** The values of `s` smaller than `v`, in order. */
  function Below(s: seq<int>, v: int): (r: seq<int>)
    ensures forall x :: x in r ==> x < v
    decreases |s|
  {
    if s == [] then [] else (if s[0] < v then [s[0]] else []) + Below(s[1..], v)
  }

  /** The values of `s` larger than `v`, in order. */
  function Above(s: seq<int>, v: int): (r: seq<int>)
    ensures forall x :: x in r ==> v < x
    decreases |s|
  {
    if s == [] then [] else (if v < s[0] then [s[0]] else []) + Above(s[1..], v)
  }

  /** Which side of `v` each value of `s` falls on. */
  function Sides(s: seq<int>, v: int): (c: seq<bool>)
    ensures |c| == |s|
    decreases |s|
  {
    if s == [] then [] else [s[0] < v] + Sides(s[1..], v)
  }

  /** A sequence that avoids `v` is the merge of its values below `v` with
      its values above `v`. */
  lemma {:induction false} SplitAround(s: seq<int>, v: int)
    requires forall x :: x in s ==> x != v
    ensures ValidChoice(Sides(s, v), |Below(s, v)|, |Above(s, v)|)
    ensures Weave(Below(s, v), Above(s, v), Sides(s, v)) == s
    decreases |s|
  {
    if s != [] {
      var x, rest := s[0], s[1..];
      assert x in s;
      assert forall y :: y in rest ==> y in s;
      SplitAround(rest, v);
      var lo, hi, c := Below(rest, v), Above(rest, v), Sides(rest, v);
      assert Sides(s, v) == [x < v] + c;
      CountCons(x < v, c);
      if x < v {
        assert Below(s, v) == [x] + lo && Above(s, v) == hi;
        assert Weave([x] + lo, hi, [true] + c) == [x] + Weave(lo, hi, c);
      } else {
        assert Below(s, v) == lo && Above(s, v) == [x] + hi;
        assert Weave(lo, [x] + hi, [false] + c) == [x] + Weave(lo, hi, c);
      }
      assert s == [x] + rest;
    }
  }

  lemma PrefixContains(v: int, ss: seq<seq<int>>, s: seq<int>)
    requires s in ss
    ensures [v] + s in PrefixAll([v], ss)
  {
    var k :| 0 <= k < |ss| && ss[k] == s;
    assert PrefixAll([v], ss)[k] == [v] + s;
  }

  /** A sequence that rebuilds a tree starts with its root value; the rest
      holds the values of both subtrees and rebuilds them under that root. */
  lemma RootFirst(t: Tree, w: seq<int>)
    requires t != Nil && InsertAll(Nil, w) == t
    ensures w != [] && w[0] == t.value
    ensures multiset(w[1..]) == Values(t.left) + Values(t.right)
    ensures InsertAll(Node(Nil, t.value, Nil), w[1..]) == t
  {
    InsertAllValues(Nil, w);
    assert w != [] by {
      assert t.value in Values(t);
    }
    assert InsertAll(Nil, w) == InsertAll(Node(Nil, w[0], Nil), w[1..]);
    InsertAllRoot(Nil, w[0], Nil, w[1..]);
    RemoveRoot(t, w);
  }

  /** Taking the root value off both sides leaves the subtrees' values. */
  lemma RemoveRoot(t: Tree, w: seq<int>)
    requires t != Nil && w != [] && w[0] == t.value && multiset(w) == Values(t)
    ensures multiset(w[1..]) == Values(t.left) + Values(t.right)
  {
    var m, rest := Values(t.left) + Values(t.right), multiset(w[1..]);
    assert w == [w[0]] + w[1..];
    assert multiset(w) == multiset{t.value} + rest;
    assert Values(t) == multiset{t.value} + m by {
      MultisetRegroup(t.value, Values(t.left), Values(t.right));
    }
    forall x ensures rest[x] == m[x] {
      assert (multiset{t.value} + rest)[x] == (multiset{t.value} + m)[x];
    }
    assert rest == m;
  }

  /** Below a root with two subtrees, the rest of a rebuilding sequence is a
      merge of one that rebuilds the left subtree with one that rebuilds the
      right subtree. */
  lemma SplitTail(l: Tree, v: int, r: Tree, tail: seq<int>)
    requires IsBst(Node(l, v, r)) && multiset(tail) == Values(l) + Values(r)
    requires InsertAll(Node(Nil, v, Nil), tail) == Node(l, v, r)
    ensures InsertAll(Nil, Below(tail, v)) == l && InsertAll(Nil, Above(tail, v)) == r
    ensures tail in Interleavings(Below(tail, v), Above(tail, v))
  {
    var a, b, c := Below(tail, v), Above(tail, v), Sides(tail, v);
    assert forall x :: x in tail ==> x in multiset(tail);
    SplitAround(tail, v);
    InsertWeave(Nil, v, Nil, a, b, c);
    InterleavingIsMerge(a, b, tail);
  }

  /** Every order of insertion that rebuilds `t` is one of the sequences. */
  lemma {:induction false} BstSeqsComplete(t: Tree, w: seq<int>)
    requires t != Nil && IsBst(t) && InsertAll(Nil, w) == t
    ensures w in BstSeqs(t)
    decreases t
  {
    var Node(l, v, r) := t;
    RootFirst(t, w);
    var tail := w[1..];
    assert w == [v] + tail;
    assert forall x :: x in tail ==> x in multiset(tail);
    if l == Nil && r == Nil {
      assert |tail| == |multiset(tail)| == 0;
      assert w == [v] && BstSeqs(t) == [[v]];
    } else if r == Nil {
      InsertAllLeft(Nil, v, Nil, tail);
      BstSeqsComplete(l, tail);
      PrefixContains(v, BstSeqs(l), tail);
    } else if l == Nil {
      InsertAllRight(Nil, v, Nil, tail);
      BstSeqsComplete(r, tail);
      PrefixContains(v, BstSeqs(r), tail);
    } else {
      var a, b := Below(tail, v), Above(tail, v);
      SplitTail(l, v, r, tail);
      BstSeqsComplete(l, a);
      BstSeqsComplete(r, b);
      var i :| 0 <= i < |BstSeqs(l)| && BstSeqs(l)[i] == a;
      var j :| 0 <= j < |BstSeqs(r)| && BstSeqs(r)[j] == b;
      AllInterleavingsContains(BstSeqs(l), BstSeqs(r), i, j, tail);
      PrefixContains(v, AllInterleavings(BstSeqs(l), BstSeqs(r)), tail);
    }
  }

  // ----- BstSequences -----

  /** The loops that insert the root value at the front of each sequence. */
  method PrependValue(sequences: seq<seq<int>>, value: int) returns (result: seq<seq<int>>)
    ensures result == PrefixAll([value], sequences)
  {
    result := sequences;
    for k := 0 to |result|
      invariant |result| == |sequences|
      invariant forall m :: 0 <= m < k ==> result[m] == [value] + sequences[m]
      invariant forall m :: k <= m < |result| ==> result[m] == sequences[m]
    {
      result := result[k := [value] + result[k]];
    }
  }

  /** One pass of the inner loop appends the merges with the next right
      sequence. */
  lemma RowStep(before: seq<seq<int>>, all: seq<seq<int>>, left: seq<int>, rights: seq<seq<int>>, j: nat,
                all': seq<seq<int>>)
    requires j < |rights| && all == before + Row(left, rights[..j])
    requires all' == all + Interleavings(left, rights[j])
    ensures all' == before + Row(left, rights[..j + 1])
  {
    var upTo := rights[..j + 1];
    assert upTo[..|upTo| - 1] == rights[..j] && upTo[|upTo| - 1] == rights[j];
    AppendAssoc(before, Row(left, rights[..j]), Interleavings(left, rights[j]));
  }

  lemma AppendAssoc<T>(x: seq<T>, y: seq<T>, z: seq<T>)
    ensures (x + y) + z == x + (y + z)
  {
  }

  /** One pass of the outer loop appends the row of the next left sequence. */
  lemma AllInterleavingsStep(lefts: seq<seq<int>>, rights: seq<seq<int>>, i: nat, before: seq<seq<int>>,
                             all: seq<seq<int>>)
    requires i < |lefts| && before == AllInterleavings(lefts[..i], rights)
    requires all == before + Row(lefts[i], rights)
    ensures all == AllInterleavings(lefts[..i + 1], rights)
  {
    var upTo := lefts[..i + 1];
    assert upTo[..|upTo| - 1] == lefts[..i] && upTo[|upTo| - 1] == lefts[i];
  }

  /** The nested loops of the two-children case. */
  method InterleaveSubtrees(lefts: seq<seq<int>>, rights: seq<seq<int>>) returns (all: seq<seq<int>>)
    ensures all == AllInterleavings(lefts, rights)
  {
    all := [];
    for i := 0 to |lefts|
      invariant all == AllInterleavings(lefts[..i], rights)
    {
      ghost var before := all;
      for j := 0 to |rights|
        invariant all == before + Row(lefts[i], rights[..j])
      {
        var newSequences := GenerateInterleavedSequences(lefts[i], rights[j]);
        ghost var previous := all;
        all := all + newSequences;
        RowStep(before, previous, lefts[i], rights, j, all);
      }
      assert rights[..|rights|] == rights;
      AllInterleavingsStep(lefts, rights, i, before, all);
    }
    assert lefts[..|lefts|] == lefts;
  }

  /** `BstSequencesRecursive`: the node pointer is a position of the arena. */
  method BstSequencesRecursive(tree: BinaryTree, root: nat) returns (sequences: seq<seq<int>>)
    requires tree.Linked() && root >= 1 && root in tree.nodes
    ensures sequences == BstSeqs(Subtree(tree.nodes, root))
    decreases var b := Bound(tree.nodes.Keys); if root < b then b - root else 0
  {
    assert Present(tree.nodes.Keys, root);
    var value := tree.nodes[root];
    var hasLeftChild := 2 * root in tree.nodes;
    var hasRightChild := 2 * root + 1 in tree.nodes;
    if !hasLeftChild && !hasRightChild {
      return [[value]];
    } else if hasLeftChild && !hasRightChild {
      var leftSubtreeSequences := BstSequencesRecursive(tree, 2 * root);
      sequences := PrependValue(leftSubtreeSequences, value);
      return;
    } else if !hasLeftChild && hasRightChild {
      var rightSubtreeSequences := BstSequencesRecursive(tree, 2 * root + 1);
      sequences := PrependValue(rightSubtreeSequences, value);
      return;
    }
    var leftSubtreeSequences := BstSequencesRecursive(tree, 2 * root);
    var rightSubtreeSequences := BstSequencesRecursive(tree, 2 * root + 1);
    var allInterleavedSequences := InterleaveSubtrees(leftSubtreeSequences, rightSubtreeSequences);
    sequences := PrependValue(allInterleavedSequences, value);
  }

  /** `BstSequences`: the C++ dereferences the root, so the tree must not be empty. */
  method BstSequences(tree: BinaryTree) returns (sequences: seq<seq<int>>)
    requires tree.Linked() && 1 in tree.nodes
    ensures sequences == BstSeqs(tree.AsTree())
  {
    sequences := BstSequencesRecursive(tree, 1);
  }

  /** What `BstSequences` promises for a tree in binary-search-tree order:
      each sequence lists every node once, root first, and the sequences are
      exactly the insertion orders that give the tree back from an empty
      tree. */
  lemma BstSequencesRebuild(t: Tree)
    requires t != Nil && IsBst(t)
    ensures forall w :: w in BstSeqs(t) ==> w[0] == t.value && multiset(w) == Values(t)
    ensures forall w :: w in BstSeqs(t) <==> InsertAll(Nil, w) == t
  {
    forall w | w in BstSeqs(t)
      ensures w[0] == t.value && multiset(w) == Values(t) && InsertAll(Nil, w) == t
    {
      BstSeqsArePermutations(t, w);
      BstSeqsRebuild(t, w);
    }
    forall w | InsertAll(Nil, w) == t
      ensures w in BstSeqs(t)
    {
      BstSeqsComplete(t, w);
    }
  }
}
