/**
  build_huffman_tree: one leaf per table entry goes into a min-heap; while
  more than one node remains, the two smallest are popped, the first popped
  becomes the left child and the second the right child of their combination,
  which is pushed back. The heap is modelled as a sequence of trees (a
  forest) whose order carries no meaning: PopMin removes the minimum under
  the heap order, and BuildForestPermutation proves that the result depends
  only on the forest's contents.
 */
module Builder {
  import opened Base
  import opened Counter
  import opened Tree

  /**
    The heap invariant: every tree is valid and no two heap entries share a
    symbol.
   */
  predicate Forest(h: seq<Node>)
  {
    && (forall i :: 0 <= i < |h| ==> Valid(h[i]))
    && (forall i, j :: 0 <= i < |h| && 0 <= j < |h| && i != j ==> LeafSet(h[i]) !! LeafSet(h[j]))
  }

  /** All symbols held by the forest. */
  function ForestLeaves(h: seq<Node>): set<byte>
  {
    if |h| == 0 then {} else LeafSet(h[0]) + ForestLeaves(h[1..])
  }

  /** The summed weight of the forest's trees. */
  function ForestWeight(h: seq<Node>): nat
  {
    if |h| == 0 then 0 else h[0].weight + ForestWeight(h[1..])
  }

  lemma {:induction false} ForestConcat(a: seq<Node>, b: seq<Node>)
    ensures ForestLeaves(a + b) == ForestLeaves(a) + ForestLeaves(b)
    ensures ForestWeight(a + b) == ForestWeight(a) + ForestWeight(b)
    decreases |a|
  {
    if |a| > 0 {
      assert (a + b)[1..] == a[1..] + b;
      ForestConcat(a[1..], b);
    } else {
      assert a + b == b;
    }
  }

  /** Taking one tree out of the forest takes out its leaves and its weight. */
  lemma ForestRemoveAt(h: seq<Node>, i: nat)
    requires i < |h|
    ensures ForestLeaves(RemoveAt(h, i)) + LeafSet(h[i]) == ForestLeaves(h)
    ensures ForestWeight(RemoveAt(h, i)) + h[i].weight == ForestWeight(h)
  {
    var pre, x, post := h[..i], h[i], h[i + 1..];
    SplitAround(h, i);
    ForestConcat(pre, [x] + post);
    ForestConcat([x], post);
    ForestConcat(pre, post);
    assert ForestWeight([x]) == x.weight && ForestLeaves([x]) == LeafSet(x) by {
      assert [x][1..] == [];
    }
  }

  /** Removing a tree keeps the heap invariant, and the rest is disjoint from it. */
  lemma ForestRemoveAtDisjoint(h: seq<Node>, i: nat)
    requires Forest(h) && i < |h|
    ensures Forest(RemoveAt(h, i))
    ensures forall k :: 0 <= k < |h| - 1 ==> LeafSet(RemoveAt(h, i)[k]) !! LeafSet(h[i])
  {
    var r := RemoveAt(h, i);
    forall a, b | 0 <= a < |r| && 0 <= b < |r| && a != b
      ensures LeafSet(r[a]) !! LeafSet(r[b])
    {
      var a' := if a < i then a else a + 1;
      var b' := if b < i then b else b + 1;
      assert r[a] == h[a'] && r[b] == h[b'];
    }
    forall k | 0 <= k < |r|
      ensures LeafSet(r[k]) !! LeafSet(h[i])
    {
      var k' := if k < i then k else k + 1;
      assert r[k] == h[k'];
    }
  }

  /** The index of a minimum of the heap: no entry precedes it. */
  function MinIndex(h: seq<Node>): (i: nat)
    requires |h| > 0
    ensures i < |h|
    ensures forall j :: 0 <= j < |h| ==> !Precedes(h[j], h[i])
    decreases |h|
  {
    if |h| == 1 then 0
    else
      var k := MinIndex(h[..|h| - 1]);
      if Precedes(h[|h| - 1], h[k]) then |h| - 1 else k
  }

  /** On a forest, a minimum strictly precedes every other entry. */
  lemma MinPrecedesRest(h: seq<Node>, i: nat)
    requires i < |h|
    requires forall j :: 0 <= j < |h| ==> !Precedes(h[j], h[i])
    ensures Forest(h) ==> Forest(RemoveAt(h, i))
    ensures Forest(h) ==>
      forall k :: 0 <= k < |h| - 1 ==> LeafSet(RemoveAt(h, i)[k]) !! LeafSet(h[i]) && Precedes(h[i], RemoveAt(h, i)[k])
  {
    var rest := RemoveAt(h, i);
    if Forest(h) {
      ForestRemoveAtDisjoint(h, i);
      forall k | 0 <= k < |rest| ensures Precedes(h[i], rest[k]) {
        DisjointNeverEqual(h[i], rest[k]);
        assert rest[k] == h[if k < i then k else k + 1];
      }
    }
  }

  /**
    BinaryHeap::pop on the reversed heap: take out a minimum. On a forest the
    minimum precedes every other entry strictly, so the choice is forced.
   */
  function PopMin(h: seq<Node>): (r: (Node, seq<Node>))
    requires |h| > 0
    ensures r.0 in h
    ensures |r.1| == |h| - 1
    ensures multiset(r.1) + multiset{r.0} == multiset(h)
    ensures forall x :: x in h ==> !Precedes(x, r.0)
    ensures ForestLeaves(r.1) + LeafSet(r.0) == ForestLeaves(h)
    ensures ForestWeight(r.1) + r.0.weight == ForestWeight(h)
    ensures Forest(h) ==> Forest(r.1) && Valid(r.0)
  {
    var i := MinIndex(h);
    var rest := RemoveAt(h, i);
    ForestRemoveAt(h, i);
    assert Forest(h) ==> Forest(rest) && forall k :: 0 <= k < |rest| ==> LeafSet(rest[k]) !! LeafSet(h[i]) by {
      if Forest(h) {
        ForestRemoveAtDisjoint(h, i);
      }
    }
    (h[i], rest)
  }

  /** On a forest the popped entry strictly precedes, and shares no symbol with, every remaining one. */
  lemma PopMinStrict(h: seq<Node>)
    requires Forest(h) && |h| >= 1
    ensures forall k :: 0 <= k < |PopMin(h).1| ==>
      LeafSet(PopMin(h).1[k]) !! LeafSet(PopMin(h).0) && Precedes(PopMin(h).0, PopMin(h).1[k])
  {
    MinPrecedesRest(h, MinIndex(h));
  }

  /** The first pop takes out an entry that precedes every other entry. */
  lemma PopMinPrecedes(h: seq<Node>)
    requires Forest(h) && |h| >= 1
    ensures forall x :: x in h && x != PopMin(h).0 ==> x in PopMin(h).1 && Precedes(PopMin(h).0, x)
  {
    var (left, rest) := PopMin(h);
    PopMinStrict(h);
    forall x | x in h && x != left
      ensures x in rest && Precedes(left, x)
    {
      assert x in multiset(h);
      assert x in multiset(rest);
      var k :| 0 <= k < |rest| && rest[k] == x;
    }
  }

  /** What is left after a pop was in the heap before it. */
  lemma PopMinRestInHeap(h: seq<Node>)
    requires |h| >= 1
    ensures forall x :: x in PopMin(h).1 ==> x in h
  {
    var (left, rest) := PopMin(h);
    forall x | x in rest ensures x in h {
      assert x in multiset(rest);
      assert x in multiset(h);
    }
  }

  /** The two pops take out a strict minimum and then a strict minimum of the rest. */
  lemma MergeOrder(h: seq<Node>, left: Node, rest: seq<Node>, right: Node, rest2: seq<Node>)
    requires Forest(h) && |h| >= 2
    requires (left, rest) == PopMin(h) && (right, rest2) == PopMin(rest)
    ensures forall x :: x in h && x != left ==> Precedes(left, x)
    ensures forall x :: x in h && x != left && x != right ==> Precedes(right, x)
    ensures forall x :: x in rest2 ==> x in h
    ensures multiset(rest2) + multiset{left, right} == multiset(h)
  {
    PopMinPrecedes(h);
    PopMinPrecedes(rest);
    PopMinRestInHeap(h);
    PopMinRestInHeap(rest);
    TwoRemovals(multiset(h), multiset(rest), multiset(rest2), left, right);
  }

  /** Pushing a valid tree that shares no symbol with the heap keeps the heap invariant. */
  lemma ForestPush(h: seq<Node>, node: Node)
    requires Forest(h) && Valid(node)
    requires forall k :: 0 <= k < |h| ==> LeafSet(h[k]) !! LeafSet(node)
    ensures Forest(h + [node])
    ensures ForestLeaves(h + [node]) == ForestLeaves(h) + LeafSet(node)
    ensures ForestWeight(h + [node]) == ForestWeight(h) + node.weight
  {
    var r := h + [node];
    ForestConcat(h, [node]);
    assert [node][1..] == [];
    forall a, b | 0 <= a < |r| && 0 <= b < |r| && a != b
      ensures LeafSet(r[a]) !! LeafSet(r[b])
    {
      if a < |h| && b < |h| {
        assert r[a] == h[a] && r[b] == h[b];
      }
    }
  }

  /** Every entry left after a pop shares no symbol with the popped one. */
  lemma PopMinApart(h: seq<Node>)
    requires Forest(h) && |h| >= 1
    ensures forall x :: x in PopMin(h).1 ==> LeafSet(x) !! LeafSet(PopMin(h).0)
  {
    var (left, rest) := PopMin(h);
    PopMinStrict(h);
    forall x | x in rest ensures LeafSet(x) !! LeafSet(left) {
      var k :| 0 <= k < |rest| && rest[k] == x;
    }
  }

  /** Both popped entries are valid trees with disjoint symbols, and what is left is a forest. */
  lemma PopTwoValid(h: seq<Node>, left: Node, rest: seq<Node>, right: Node, rest2: seq<Node>)
    requires Forest(h) && |h| >= 2
    requires (left, rest) == PopMin(h) && (right, rest2) == PopMin(rest)
    ensures Forest(rest2) && Valid(left) && Valid(right)
    ensures LeafSet(left) !! LeafSet(right)
  {
    assert Forest(rest) && Valid(left);
    PopMinApart(h);
    assert right in rest;
  }

  /** No entry left after the two pops shares a symbol with either popped entry. */
  lemma PopTwoApart(h: seq<Node>, left: Node, rest: seq<Node>, right: Node, rest2: seq<Node>)
    requires Forest(h) && |h| >= 2
    requires (left, rest) == PopMin(h) && (right, rest2) == PopMin(rest)
    ensures forall k :: 0 <= k < |rest2| ==> LeafSet(rest2[k]) !! LeafSet(left) + LeafSet(right)
  {
    assert Forest(rest);
    PopMinApart(h);
    PopMinApart(rest);
    PopMinRestInHeap(rest);
    forall k | 0 <= k < |rest2|
      ensures LeafSet(rest2[k]) !! LeafSet(left) + LeafSet(right)
    {
      var x := rest2[k];
      assert x in rest2;
      assert x in rest;
      assert LeafSet(x) !! LeafSet(left);
      assert LeafSet(x) !! LeafSet(right);
    }
  }

  /** The pushed combination keeps the heap invariant, the symbols and the weight. */
  lemma MergeForest(h: seq<Node>, left: Node, rest: seq<Node>, right: Node, rest2: seq<Node>)
    requires Forest(h) && |h| >= 2 && ForestWeight(h) < U32_LIMIT
    requires (left, rest) == PopMin(h) && (right, rest2) == PopMin(rest)
    ensures left.weight + right.weight + ForestWeight(rest2) == ForestWeight(h)
    ensures LeafSet(left) !! LeafSet(right)
    ensures Forest(rest2 + [Combine(left, right)])
    ensures ForestLeaves(rest2 + [Combine(left, right)]) == ForestLeaves(h)
    ensures ForestWeight(rest2 + [Combine(left, right)]) == ForestWeight(h)
  {
    PopTwoValid(h, left, rest, right, rest2);
    PopTwoApart(h, left, rest, right, rest2);
    var node := Combine(left, right);
    ForestPush(rest2, node);
    var w1, w2, w3, w4 := ForestWeight(rest2 + [node]), ForestWeight(rest2), ForestWeight(rest), ForestWeight(h);
    assert w1 == w2 + node.weight;
    assert w2 + right.weight == w3;
    assert w3 + left.weight == w4;
    var s1, s2, s3, s4 := ForestLeaves(rest2 + [node]), ForestLeaves(rest2), ForestLeaves(rest), ForestLeaves(h);
    assert s1 == s2 + LeafSet(node);
    assert LeafSet(node) == LeafSet(left) + LeafSet(right);
    UnionRegroup(s4, s3, s2, LeafSet(left), LeafSet(right));
  }

  /**
    One iteration of the heap loop: pop the minimum (left), pop the next
    minimum (right), push their combination. The heap shrinks by one, keeps
    its invariant, its symbols and its total weight.
   */
  function MergeStep(h: seq<Node>): (r: seq<Node>)
    requires |h| >= 2 && Forest(h) && ForestWeight(h) < U32_LIMIT
    ensures |r| == |h| - 1
    ensures Forest(r)
    ensures ForestLeaves(r) == ForestLeaves(h)
    ensures ForestWeight(r) == ForestWeight(h)
    ensures r[|r| - 1].Branch?
    ensures r[|r| - 1].weight == r[|r| - 1].left.weight + r[|r| - 1].right.weight
    ensures multiset(r[..|r| - 1]) + multiset{r[|r| - 1].left, r[|r| - 1].right} == multiset(h)
    ensures forall x :: x in h && x != r[|r| - 1].left ==> Precedes(r[|r| - 1].left, x)
    ensures forall x :: x in h && x != r[|r| - 1].left && x != r[|r| - 1].right ==>
      Precedes(r[|r| - 1].right, x)
    ensures r[|r| - 1].left in h && r[|r| - 1].right in h
    ensures forall x :: x in r ==> x in h || x == r[|r| - 1]
  {
    var (left, rest) := PopMin(h);
    var (right, rest2) := PopMin(rest);
    MergeForest(h, left, rest, right, rest2);
    MergeOrder(h, left, rest, right, rest2);
    var node := Combine(left, right);
    assert (rest2 + [node])[..|rest2|] == rest2;
    rest2 + [node]
  }

  /**
    The heap loop (while heap.len() > 1) followed by the final pop: merge
    until one tree is left. The result is a valid tree over exactly the
    forest's symbols, weighing the forest's total.
   */
  function BuildForest(h: seq<Node>): (root: Node)
    requires |h| >= 1 && Forest(h) && ForestWeight(h) < U32_LIMIT
    ensures Valid(root)
    ensures LeafSet(root) == ForestLeaves(h)
    ensures root.weight == ForestWeight(h)
    decreases |h|
  {
    if |h| == 1 then
      assert h[1..] == [];
      h[0]
    else BuildForest(MergeStep(h))
  }

  /** The leaf weights of t are counts recorded in m. */
  predicate Agrees(t: Node, m: Table)
  {
    forall b :: b in LeafWeights(t) ==> b in m && LeafWeights(t)[b] == m[b]
  }

  /** An internal node carries counts from m when both its children do. */
  lemma AgreesBranch(t: Node, m: Table)
    requires t.Branch? && Agrees(t.left, m) && Agrees(t.right, m)
    ensures Agrees(t, m)
  {
  }

  /** A tree that carries counts from m and holds all of m's keys has exactly m as its leaf weights. */
  lemma AgreesOnAllKeys(t: Node, m: Table)
    requires Agrees(t, m) && LeafSet(t) == m.Keys
    ensures LeafWeights(t) == m
  {
  }

  /** If every tree of the forest carries counts from m, so does the built root. */
  lemma {:induction false} BuildForestAgrees(h: seq<Node>, m: Table)
    requires |h| >= 1 && Forest(h) && ForestWeight(h) < U32_LIMIT
    requires forall t :: t in h ==> Agrees(t, m)
    ensures Agrees(BuildForest(h), m)
    decreases |h|
  {
    if |h| > 1 {
      var r := MergeStep(h);
      var node := r[|r| - 1];
      AgreesBranch(node, m);
      BuildForestAgrees(r, m);
    }
  }

  /** No two entries of a forest compare Equal: the heap order is strict on it. */
  lemma HeapHasNoTies(h: seq<Node>, i: nat, j: nat)
    requires Forest(h) && i < |h| && j < |h| && i != j
    ensures Compare(h[i], h[j]) != Equal
    ensures Precedes(h[i], h[j]) <==> !Precedes(h[j], h[i])
  {
    DisjointNeverEqual(h[i], h[j]);
    CompareAntisymmetric(h[i], h[j]);
    CompareAntisymmetric(h[j], h[i]);
  }

  /** Two forests with the same contents have the same minimum and the same remainder. */
  lemma PopMinUnique(h1: seq<Node>, h2: seq<Node>)
    requires |h1| > 0 && Forest(h1) && multiset(h1) == multiset(h2)
    ensures |h2| > 0
    ensures PopMin(h1).0 == PopMin(h2).0
    ensures multiset(PopMin(h1).1) == multiset(PopMin(h2).1)
  {
    assert h1[0] in multiset(h2);
    var x := PopMin(h1).0;
    var y := PopMin(h2).0;
    assert x in multiset(h2) && y in multiset(h1);
    assert !Precedes(y, x) && !Precedes(x, y);
    assert x == y;
    assert multiset(PopMin(h1).1) == multiset(h1) - multiset{x};
    assert multiset(PopMin(h2).1) == multiset(h2) - multiset{y};
  }

  /**
    The built tree is a function of the heap's contents alone: the order in
    which the entries were pushed does not matter.
   */
  lemma {:induction false} BuildForestPermutation(h1: seq<Node>, h2: seq<Node>)
    requires |h1| >= 1 && Forest(h1) && ForestWeight(h1) < U32_LIMIT
    requires |h2| >= 1 && Forest(h2) && ForestWeight(h2) < U32_LIMIT
    requires multiset(h1) == multiset(h2)
    ensures BuildForest(h1) == BuildForest(h2)
    decreases |h1|
  {
    assert |h1| == |multiset(h1)| == |multiset(h2)| == |h2|;
    if |h1| == 1 {
      assert h1[0] in multiset(h2);
    } else {
      PopMinUnique(h1, h2);
      var (l1, rest1) := PopMin(h1);
      var (l2, rest2) := PopMin(h2);
      PopMinUnique(rest1, rest2);
      var (r1, tail1) := PopMin(rest1);
      var (r2, tail2) := PopMin(rest2);
      var m1 := MergeStep(h1);
      var m2 := MergeStep(h2);
      assert m1 == tail1 + [Combine(l1, r1)];
      assert m2 == tail2 + [Combine(l2, r2)];
      assert multiset(m1) == multiset(m2);
      BuildForestPermutation(m1, m2);
    }
  }

  /** Summed weight does not depend on the order of the forest. */
  lemma {:induction false} ForestWeightPermutation(a: seq<Node>, b: seq<Node>)
    requires multiset(a) == multiset(b)
    ensures ForestWeight(a) == ForestWeight(b)
    decreases |a|
  {
    if |a| == 0 {
      assert |b| == |multiset(b)| == 0;
    } else {
      var x := a[0];
      assert x in multiset(b);
      var i :| 0 <= i < |b| && b[i] == x;
      ForestRemoveAt(b, i);
      assert a == [x] + a[1..];
      assert multiset(a) == multiset{x} + multiset(a[1..]);
      assert multiset(a[1..]) == multiset(a) - multiset{x};
      assert multiset(RemoveAt(b, i)) == multiset(b) - multiset{x};
      ForestWeightPermutation(a[1..], RemoveAt(b, i));
    }
  }

  /** The initial heap: one leaf per listed key (Node::new_leaf per entry). */
  function Leaves(m: Table, ks: seq<byte>): (h: seq<Node>)
    requires forall k :: k in ks ==> k in m
    ensures |h| == |ks|
    ensures forall i :: 0 <= i < |ks| ==> h[i] == NewLeaf(ks[i], m[ks[i]])
  {
    seq(|ks|, i requires 0 <= i < |ks| => NewLeaf(ks[i], m[ks[i]]))
  }

  /** A duplicate-free listing of keys gives a forest of leaves carrying m's counts. */
  lemma LeavesForest(m: Table, ks: seq<byte>)
    requires forall k :: k in ks ==> k in m
    requires Distinct(ks)
    ensures Forest(Leaves(m, ks))
    ensures forall t :: t in Leaves(m, ks) ==> Agrees(t, m)
  {
    var h := Leaves(m, ks);
    forall i, j | 0 <= i < |h| && 0 <= j < |h| && i != j
      ensures LeafSet(h[i]) !! LeafSet(h[j])
    {
      assert LeafSet(h[i]) == {ks[i]} && LeafSet(h[j]) == {ks[j]};
    }
  }

  /** The leaves of a listing hold exactly the listed keys. */
  lemma {:induction false} LeavesCover(m: Table, ks: seq<byte>)
    requires forall k :: k in ks ==> k in m
    ensures ForestLeaves(Leaves(m, ks)) == set k | k in ks
    decreases |ks|
  {
    var h := Leaves(m, ks);
    if |ks| > 0 {
      var tail := ks[1..];
      assert h[1..] == Leaves(m, tail);
      LeavesCover(m, tail);
      assert ForestLeaves(h) == {ks[0]} + ForestLeaves(Leaves(m, tail));
      assert (set k | k in ks) == {ks[0]} + (set k | k in tail);
    } else {
      assert (set k: byte | k in ks) == {};
    }
  }

  /** The leaves of the ascending listing weigh the table's total. */
  lemma {:induction false} LeavesWeight(m: Table, lo: nat)
    requires lo <= 256
    ensures ForestWeight(Leaves(m, KeysFrom(m, lo))) == TotalFrom(m, lo)
    decreases 256 - lo
  {
    if lo < 256 {
      LeavesWeight(m, lo + 1);
      var rest := KeysFrom(m, lo + 1);
      var h := Leaves(m, KeysFrom(m, lo));
      if lo in m {
        assert KeysFrom(m, lo) == [lo] + rest;
        assert h[1..] == Leaves(m, rest);
        assert ForestWeight(h) == m[lo] + ForestWeight(Leaves(m, rest));
      } else {
        assert KeysFrom(m, lo) == rest;
      }
    }
  }

  /** Any two duplicate-free listings of the keys give heaps with the same contents. */
  lemma LeavesPermutation(m: Table, ks1: seq<byte>, ks2: seq<byte>)
    requires Distinct(ks1) && Distinct(ks2)
    requires forall k :: k in ks1 <==> k in m
    requires forall k :: k in ks2 <==> k in m
    ensures multiset(Leaves(m, ks1)) == multiset(Leaves(m, ks2))
  {
    var h1 := Leaves(m, ks1);
    var h2 := Leaves(m, ks2);
    forall x ensures x in h1 <==> x in h2 {
      if x in h1 {
        var i :| 0 <= i < |h1| && h1[i] == x;
        assert ks1[i] in ks2;
        var j :| 0 <= j < |ks2| && ks2[j] == ks1[i];
        assert h2[j] == x;
      }
      if x in h2 {
        var i :| 0 <= i < |h2| && h2[i] == x;
        assert ks2[i] in ks1;
        var j :| 0 <= j < |ks1| && ks1[j] == ks2[i];
        assert h1[j] == x;
      }
    }
    assert Distinct(h1) by {
      forall i, j | 0 <= i < j < |h1| ensures h1[i] != h1[j] {
        assert h1[i].symbol == ks1[i] && h1[j].symbol == ks1[j];
      }
    }
    assert Distinct(h2) by {
      forall i, j | 0 <= i < j < |h2| ensures h2[i] != h2[j] {
        assert h2[i].symbol == ks2[i] && h2[j].symbol == ks2[j];
      }
    }
    DistinctSameElements(h1, h2);
  }

  /**
    When a precedes every other entry and b every entry but a, one merge
    step combines a (left) with b (right) and keeps the rest.
   */
  lemma MergeStepPicks(h: seq<Node>, a: Node, b: Node)
    requires |h| >= 2 && Forest(h) && ForestWeight(h) < U32_LIMIT
    requires a in h && b in h && a != b
    requires forall x :: x in h && x != a ==> Precedes(a, x)
    requires forall x :: x in h && x != a && x != b ==> Precedes(b, x)
    ensures MergeStep(h)[|h| - 2] == Branch(a, b, a.weight + b.weight)
    ensures multiset(MergeStep(h)[..|h| - 2]) + multiset{a, b} == multiset(h)
  {
    var r := MergeStep(h);
    var top := r[|h| - 2];
    var l, rt := top.left, top.right;
    OnlyMinimum(h, a, l);
    assert rt != a by {
      assert Valid(top);
      assert LeftmostSymbol(a) in LeafSet(a);
    }
    OnlySecond(h, a, b, rt);
  }

  /** Two entries that each precede every other entry are the same entry. */
  lemma OnlyMinimum(h: seq<Node>, a: Node, l: Node)
    requires a in h && l in h
    requires forall x :: x in h && x != a ==> Precedes(a, x)
    requires forall x :: x in h && x != l ==> Precedes(l, x)
    ensures l == a
  {
    if l != a {
      CompareAntisymmetric(l, a);
    }
  }

  /** Apart from a, two entries that each precede all the others are the same entry. */
  lemma OnlySecond(h: seq<Node>, a: Node, b: Node, rt: Node)
    requires b in h && rt in h && b != a && rt != a
    requires forall x :: x in h && x != a && x != b ==> Precedes(b, x)
    requires forall x :: x in h && x != a && x != rt ==> Precedes(rt, x)
    ensures rt == b
  {
    if rt != b {
      CompareAntisymmetric(rt, b);
    }
  }

  /**
    build_huffman_tree on a frequency table with at least one entry whose
    counts sum below 2^32. The leaves are pushed in ascending byte order;
    BuildIndependentOfOrder shows every other order gives the same tree.
   */
  function BuildHuffmanTree(m: Table): (root: Node)
    requires |m| >= 1 && Total(m) < U32_LIMIT
    ensures Valid(root)
    ensures LeafWeights(root) == m
    ensures LeafCount(root) == |m|
    ensures root.weight == Total(m)
  {
    var ks := SortedKeys(m);
    LeavesForest(m, ks);
    LeavesCover(m, ks);
    ListingElements(m, ks);
    LeavesWeight(m, 0);
    var root := BuildForest(Leaves(m, ks));
    BuildHuffmanTreeFacts(m, Leaves(m, ks), root);
    root
  }

  /** The facts BuildHuffmanTree promises, from the facts about its initial heap. */
  lemma BuildHuffmanTreeFacts(m: Table, h: seq<Node>, root: Node)
    requires |h| >= 1 && Forest(h) && ForestWeight(h) < U32_LIMIT
    requires forall t :: t in h ==> Agrees(t, m)
    requires ForestLeaves(h) == m.Keys
    requires root == BuildForest(h)
    ensures LeafWeights(root) == m
    ensures LeafCount(root) == |m|
  {
    BuildForestAgrees(h, m);
    LeafCountIsLeafSetSize(root);
    AgreesOnAllKeys(root, m);
  }

  /** The elements of a listing of m's keys are m's keys. */
  lemma ListingElements(m: Table, ks: seq<byte>)
    requires forall k :: k in ks <==> k in m
    ensures (set k | k in ks) == m.Keys
  {
  }

  /**
    The tree does not depend on the HashMap's iteration order: pushing the
    leaves in any duplicate-free listing of the keys builds the same tree.
   */
  lemma BuildIndependentOfOrder(m: Table, ks: seq<byte>)
    requires |m| >= 1 && Total(m) < U32_LIMIT
    requires Distinct(ks) && forall k :: k in ks <==> k in m
    ensures |ks| >= 1
    ensures Forest(Leaves(m, ks)) && ForestWeight(Leaves(m, ks)) < U32_LIMIT
    ensures BuildForest(Leaves(m, ks)) == BuildHuffmanTree(m)
  {
    DistinctKeysCardinality(m, ks);
    var sorted := SortedKeys(m);
    LeavesForest(m, ks);
    LeavesForest(m, sorted);
    LeavesWeight(m, 0);
    LeavesPermutation(m, ks, sorted);
    ForestWeightPermutation(Leaves(m, ks), Leaves(m, sorted));
    BuildForestPermutation(Leaves(m, ks), Leaves(m, sorted));
  }
}
