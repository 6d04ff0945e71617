/**
  Huffman tree nodes (Node<u8>), their construction (new_leaf, combine),
  the leftmost-leaf walk (get_leftmost_child) and the heap order
  (Ord for Node<u8>): weight first, then the symbol of the leftmost leaf.
 */
module Tree {
  import opened Base

  /**
    A node is a leaf holding one symbol or an internal node owning exactly
    two children; both carry a weight.
   */
  datatype Node =
    | Leaf(symbol: byte, weight: nat)
    | Branch(left: Node, right: Node, weight: nat)

  /** The symbols at the leaves of t. */
  function LeafSet(t: Node): set<byte>
  {
    match t
    case Leaf(s, _) => {s}
    case Branch(l, r, _) => LeafSet(l) + LeafSet(r)
  }

  /** The number of leaves of t. */
  function LeafCount(t: Node): nat
  {
    match t
    case Leaf(_, _) => 1
    case Branch(l, r, _) => LeafCount(l) + LeafCount(r)
  }

  /** The weight of each leaf, by symbol. */
  function LeafWeights(t: Node): (r: map<byte, nat>)
    ensures r.Keys == LeafSet(t)
  {
    match t
    case Leaf(s, w) => map[s := w]
    case Branch(l, r, _) => LeafWeights(l) + LeafWeights(r)
  }

  /**
    The shape every node built by the codec has: sibling subtrees share no
    symbol, and an internal node weighs the sum of its children.
   */
  predicate Valid(t: Node)
  {
    match t
    case Leaf(_, _) => true
    case Branch(l, r, w) =>
      && Valid(l) && Valid(r)
      && LeafSet(l) !! LeafSet(r)
      && w == l.weight + r.weight
  }

  /** new_leaf: a leaf for one table entry. */
  function NewLeaf(symbol: byte, weight: nat): (r: Node)
    ensures Valid(r) && LeafWeights(r) == map[symbol := weight]
    ensures LeftmostChild(r) == r
  {
    Leaf(symbol, weight)
  }

  /** get_leftmost_child: follow left children down to a leaf. */
  function LeftmostChild(t: Node): (r: Node)
    ensures r.Leaf?
    ensures r.symbol in LeafSet(t)
    ensures t.Branch? ==> r == LeftmostChild(t.left)
  {
    match t
    case Leaf(_, _) => t
    case Branch(l, _, _) => LeftmostChild(l)
  }

  /** The tie-break key: the symbol of the leftmost leaf. */
  function LeftmostSymbol(t: Node): byte
  {
    LeftmostChild(t).symbol
  }

  /**
    combine: the first node becomes the left child and the second the right
    child of a new node weighing their sum. The sum is a u32 addition, so it
    must not overflow.
   */
  function Combine(first: Node, second: Node): (r: Node)
    requires first.weight + second.weight < U32_LIMIT
    ensures r.Branch? && r.left == first && r.right == second
    ensures r.weight == first.weight + second.weight < U32_LIMIT
    ensures LeafSet(r) == LeafSet(first) + LeafSet(second)
    ensures LeftmostSymbol(r) == LeftmostSymbol(first)
    ensures Valid(first) && Valid(second) && LeafSet(first) !! LeafSet(second) ==> Valid(r)
  {
    Branch(first, second, first.weight + second.weight)
  }

  /** The result of a three-way comparison (std::cmp::Ordering). */
  datatype Ordering = Less | Equal | Greater

  /** Ord for Node<u8>: by weight, ties broken by the leftmost leaf's symbol. */
  function Compare(a: Node, b: Node): (r: Ordering)
    ensures r == Equal <==> a.weight == b.weight && LeftmostSymbol(a) == LeftmostSymbol(b)
    ensures r == Less <==>
      a.weight < b.weight || (a.weight == b.weight && LeftmostSymbol(a) < LeftmostSymbol(b))
  {
    if a.weight < b.weight then Less
    else if a.weight > b.weight then Greater
    else if LeftmostSymbol(a) < LeftmostSymbol(b) then Less
    else if LeftmostSymbol(a) > LeftmostSymbol(b) then Greater
    else Equal
  }

  /** a sorts strictly before b in the heap. */
  predicate Precedes(a: Node, b: Node)
  {
    Compare(a, b) == Less
  }

  /** Swapping the operands swaps Less and Greater. */
  lemma CompareAntisymmetric(a: Node, b: Node)
    ensures Compare(a, b) == Less <==> Compare(b, a) == Greater
  {
  }

  /** The heap order is transitive. */
  lemma PrecedesTransitive(a: Node, b: Node, c: Node)
    requires Precedes(a, b) && Precedes(b, c)
    ensures Precedes(a, c)
  {
  }

  /**
    Nodes whose leaf sets are disjoint never compare Equal: their leftmost
    symbols differ. This is why the heap's choice never depends on the
    order of insertion.
   */
  lemma DisjointNeverEqual(a: Node, b: Node)
    requires LeafSet(a) !! LeafSet(b)
    ensures Compare(a, b) != Equal
  {
    assert LeftmostSymbol(a) in LeafSet(a);
    assert LeftmostSymbol(b) in LeafSet(b);
  }

  /** In a valid tree every symbol labels exactly one leaf. */
  lemma {:induction false} LeafCountIsLeafSetSize(t: Node)
    requires Valid(t)
    ensures LeafCount(t) == |LeafSet(t)|
  {
    match t
    case Leaf(_, _) =>
    case Branch(l, r, _) =>
      LeafCountIsLeafSetSize(l);
      LeafCountIsLeafSetSize(r);
      assert |LeafSet(l) + LeafSet(r)| == |LeafSet(l)| + |LeafSet(r)|;
  }

  /** A valid internal node has at least two leaves: each child holds at least one symbol. */
  lemma BranchHasTwoLeaves(t: Node)
    requires Valid(t) && t.Branch?
    ensures LeafCount(t) >= 2
  {
    LeafCountIsLeafSetSize(t.left);
    LeafCountIsLeafSetSize(t.right);
    assert LeftmostSymbol(t.left) in LeafSet(t.left);
    assert LeftmostSymbol(t.right) in LeafSet(t.right);
  }

  /** In a valid tree the root weighs the sum of its leaf weights. */
  lemma {:induction false} WeightIsSumOfLeaves(t: Node)
    requires Valid(t)
    ensures t.weight == LeafWeightSum(t)
  {
    match t
    case Leaf(_, _) =>
    case Branch(l, r, _) =>
      WeightIsSumOfLeaves(l);
      WeightIsSumOfLeaves(r);
  }

  /** The sum of the weights stored at the leaves of t. */
  function LeafWeightSum(t: Node): nat
  {
    match t
    case Leaf(_, w) => w
    case Branch(l, r, _) => LeafWeightSum(l) + LeafWeightSum(r)
  }
}
