/**
  A worked instance of build_huffman_tree that pins down the tie-break of
  the heap order on a concrete frequency table.
 */
module Scenario {
  import opened Base
  import opened Counter
  import opened Tree
  import opened Builder
  import opened Codes

  /** Counting the bytes 97, 98, 99 gives each a count of 1. */
  lemma ExampleCount()
    ensures CountBytes([97, 98, 99]) == map[97 := 1, 98 := 1, 99 := 1]
  {
    var data: seq<byte> := [97, 98, 99];
    assert data[..2] == [97, 98];
    assert data[..1] == [97];
    assert [97, 98][..1] == [97];
    var one: seq<byte> := [97];
    assert one[..0] == [];
  }

  /** A two-entry heap whose first entry holds just c and whose last entry is top. */
  lemma LastTwo(r: seq<Node>, c: Node, top: Node)
    requires |r| == 2 && r[1] == top && multiset(r[..1]) == multiset{c}
    ensures r == [c, top]
  {
    assert r[0] in multiset(r[..1]);
  }

  /** The three leaves form a forest of total weight 3. */
  lemma ExampleHeap(h: seq<Node>)
    requires h == [Leaf(97, 1), Leaf(98, 1), Leaf(99, 1)]
    ensures Forest(h) && ForestWeight(h) == 3
  {
    var b, c := Leaf(98, 1), Leaf(99, 1);
    assert h[1..] == [b, c];
    assert h[1..][1..] == [c];
    assert [c][1..] == [];
    assert ForestWeight([c]) == 1;
    assert ForestWeight([b, c]) == 2;
  }

  /** Three leaves of equal weight: the two lowest symbols merge first, lowest on the left. */
  lemma ExampleFirstMerge(h: seq<Node>)
    requires h == [Leaf(97, 1), Leaf(98, 1), Leaf(99, 1)]
    ensures Forest(h) && ForestWeight(h) == 3
    ensures MergeStep(h) == [Leaf(99, 1), Branch(Leaf(97, 1), Leaf(98, 1), 2)]
  {
    var a, b, c := Leaf(97, 1), Leaf(98, 1), Leaf(99, 1);
    ExampleHeap(h);
    MergeStepPicks(h, a, b);
    var r := MergeStep(h);
    assert multiset(r[..1]) == multiset{c};
    LastTwo(r, c, Branch(a, b, 2));
  }

  /** The remaining leaf weighs less than the new node, so it becomes the left child. */
  lemma ExampleSecondMerge(h: seq<Node>)
    requires h == [Leaf(99, 1), Branch(Leaf(97, 1), Leaf(98, 1), 2)]
    ensures Forest(h) && ForestWeight(h) == 3
    ensures MergeStep(h) == [Branch(Leaf(99, 1), Branch(Leaf(97, 1), Leaf(98, 1), 2), 3)]
  {
    var c, ab := Leaf(99, 1), Branch(Leaf(97, 1), Leaf(98, 1), 2);
    assert ForestWeight(h) == 3 by {
      assert h[1..] == [ab];
      assert [ab][1..] == [];
      assert ForestWeight([ab]) == 2;
    }
    MergeStepPicks(h, c, ab);
    var r := MergeStep(h);
    assert r[..0] == [];
  }

  /** The initial heap for the keys listed in ascending order. */
  lemma ExampleLeaves(m: Table, ks: seq<byte>)
    requires m == map[97 := 1, 98 := 1, 99 := 1] && ks == [97, 98, 99]
    ensures Leaves(m, ks) == [Leaf(97, 1), Leaf(98, 1), Leaf(99, 1)]
  {
  }

  /** Merging the three leaves until one tree is left. */
  lemma ExampleBuild(h: seq<Node>)
    requires h == [Leaf(97, 1), Leaf(98, 1), Leaf(99, 1)]
    ensures Forest(h) && ForestWeight(h) == 3
    ensures BuildForest(h) == Branch(Leaf(99, 1), Branch(Leaf(97, 1), Leaf(98, 1), 2), 3)
  {
    ExampleFirstMerge(h);
    var h1 := MergeStep(h);
    ExampleSecondMerge(h1);
    var h2 := MergeStep(h1);
    assert BuildForest(h) == BuildForest(h1);
    assert BuildForest(h1) == BuildForest(h2);
    assert BuildForest(h2) == h2[0];
  }

  /** The counts of the table sum to 3. */
  lemma ExampleTotal(m: Table)
    requires m == map[97 := 1, 98 := 1, 99 := 1]
    ensures Total(m) == 3
  {
    ExampleCount();
    TotalOfCount([97, 98, 99]);
  }

  /** The table has three keys, listed once each by 97, 98, 99. */
  lemma ExampleTable(m: Table, ks: seq<byte>)
    requires m == map[97 := 1, 98 := 1, 99 := 1] && ks == [97, 98, 99]
    ensures |m| == 3 && Total(m) == 3
    ensures Distinct(ks) && forall k :: k in ks <==> k in m
  {
    ExampleTotal(m);
    assert m.Keys == {97, 98, 99};
  }

  /**
    A concrete build: three symbols that each occur once. Equal weights are
    ordered by the leftmost symbol, so 97 and 98 merge first (97 on the
    left); the lone 99 then weighs less than that node and goes left of it.
   */
  lemma TieBreak(m: Table)
    requires m == map[97 := 1, 98 := 1, 99 := 1]
    ensures |m| == 3 && Total(m) == 3
    ensures BuildHuffmanTree(m) == Branch(Leaf(99, 1), Branch(Leaf(97, 1), Leaf(98, 1), 2), 3)
  {
    var ks: seq<byte> := [97, 98, 99];
    ExampleTable(m, ks);
    BuildIndependentOfOrder(m, ks);
    ExampleLeaves(m, ks);
    ExampleBuild(Leaves(m, ks));
  }

  /** The code table of that tree: 99 gets "0", 97 gets "10" and 98 gets "11". */
  lemma TieBreakCodes(t: Node)
    requires t == Branch(Leaf(99, 1), Branch(Leaf(97, 1), Leaf(98, 1), 2), 3)
    ensures EncodingMap(t) == map[99 := [false], 97 := [true, false], 98 := [true, true]]
  {
    var empty: Code := [];
    var ab := Branch(Leaf(97, 1), Leaf(98, 1), 2);
    assert empty + [false] == [false] && empty + [true] == [true];
    assert [true] + [false] == [true, false] && [true] + [true] == [true, true];
    assert CodesFrom(ab, empty + [true]) == map[97 := [true, false], 98 := [true, true]];
    assert CodesFrom(Leaf(99, 1), empty + [false]) == map[99 := [false]];
  }
}
