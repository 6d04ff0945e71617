/**
  build_encoding_map[_recursive]: a depth-first walk that records, for every
  leaf, the path from the root ('0' = left = false, '1' = right = true), and
  the inverted table used for decoding. Walk is the independent reference:
  following a bit string from the root and landing exactly on a leaf.
 */
module Codes {
  import opened Base
  import opened Tree

  /** A code: a bit string, false for '0' (go left) and true for '1' (go right). */
  type Code = seq<bool>

  /** The code table: symbol to code (encoding_map). */
  type CodeTable = map<byte, Code>

  /** The inverted table: code to symbol (decoding_map). */
  type DecodeTable = map<Code, byte>

  /**
    build_encoding_map_recursive: a leaf records the path so far; an internal
    node recurses left with '0' appended, then right with '1' appended (a
    later insert overwrites an earlier one for the same symbol).
   */
  function CodesFrom(t: Node, path: Code): (r: CodeTable)
    ensures r.Keys == LeafSet(t)
  {
    match t
    case Leaf(s, _) => map[s := path]
    case Branch(l, rt, _) => CodesFrom(l, path + [false]) + CodesFrom(rt, path + [true])
  }

  /** build_encoding_map: the walk from the root with the empty path. */
  function EncodingMap(t: Node): (r: CodeTable)
    ensures r.Keys == LeafSet(t)
    ensures t.Leaf? ==> r == map[t.symbol := []]
  {
    CodesFrom(t, [])
  }

  /** Follow bits from the root of t; the symbol of the leaf reached when the bits run out. */
  function Walk(t: Node, bits: Code): Option<byte>
    decreases |bits|
  {
    match t
    case Leaf(s, _) => if |bits| == 0 then Some(s) else None
    case Branch(l, r, _) => if |bits| == 0 then None else Walk(if bits[0] then r else l, bits[1..])
  }

  /** Every code recorded below a node extends the path the recursion started from. */
  lemma {:induction false} CodesFromExtends(t: Node, path: Code, b: byte)
    requires b in CodesFrom(t, path)
    ensures IsPrefix(path, CodesFrom(t, path)[b])
  {
    match t
    case Leaf(_, _) =>
    case Branch(l, rt, _) =>
      var dir := b in CodesFrom(rt, path + [true]);
      var child := if dir then rt else l;
      CodesFromExtends(child, path + [dir], b);
      PrefixOfPrefix(path, path + [dir], CodesFrom(child, path + [dir])[b]);
  }

  /** Walking from an internal node spends the first bit choosing a child. */
  lemma WalkBranch(t: Node, dir: bool, rest: Code)
    requires t.Branch?
    ensures Walk(t, [dir] + rest) == Walk(if dir then t.right else t.left, rest)
  {
    assert ([dir] + rest)[1..] == rest;
  }

  /** A code recorded below the child in direction dir starts with the path and then dir. */
  lemma CodeAfterStep(path: Code, dir: bool, c: Code)
    requires IsPrefix(path + [dir], c)
    ensures c[|path|..] == [dir] + c[|path| + 1..]
  {
    assert c[|path|] == (path + [dir])[|path|];
  }

  /** Every recorded code, minus the path it started from, walks to its symbol. */
  lemma {:induction false} CodesFromWalk(t: Node, path: Code, b: byte)
    requires b in CodesFrom(t, path)
    ensures IsPrefix(path, CodesFrom(t, path)[b])
    ensures Walk(t, CodesFrom(t, path)[b][|path|..]) == Some(b)
  {
    CodesFromExtends(t, path, b);
    var c := CodesFrom(t, path)[b];
    match t
    case Leaf(s, _) =>
      assert c[|path|..] == [];
    case Branch(l, rt, _) =>
      var dir := b in CodesFrom(rt, path + [true]);
      var child := if dir then rt else l;
      var sub := CodesFrom(child, path + [dir]);
      assert b in sub && c == sub[b];
      CodesFromExtends(child, path + [dir], b);
      CodesFromWalk(child, path + [dir], b);
      CodeAfterStep(path, dir, c);
      WalkBranch(t, dir, c[|path| + 1..]);
  }

  /** In a valid tree, every bit string that walks to a leaf is that leaf's recorded code. */
  lemma {:induction false} WalkCodesFrom(t: Node, path: Code, bits: Code, b: byte)
    requires Valid(t) && Walk(t, bits) == Some(b)
    ensures b in CodesFrom(t, path) && CodesFrom(t, path)[b] == path + bits
    decreases |bits|
  {
    if t.Leaf? {
      assert bits == [];
      assert path + bits == path;
    } else {
      var dir, tail := bits[0], bits[1..];
      var child := if dir then t.right else t.left;
      assert Walk(child, tail) == Some(b);
      WalkCodesFrom(child, path + [dir], tail, b);
      CodesFromChild(t, path, dir, b);
      AppendHead(path, bits);
    }
  }

  /** In a valid tree, a symbol below one child keeps the code recorded for it there. */
  lemma CodesFromChild(t: Node, path: Code, dir: bool, b: byte)
    requires Valid(t) && t.Branch?
    requires b in LeafSet(if dir then t.right else t.left)
    ensures b in CodesFrom(t, path)
    ensures CodesFrom(t, path)[b] == CodesFrom(if dir then t.right else t.left, path + [dir])[b]
  {
    if !dir {
      assert b !in LeafSet(t.right);
    }
  }

  /**
    The code table of a valid tree is exactly its root-to-leaf paths: c is
    the code of b if and only if walking c from the root ends at b's leaf.
   */
  lemma CodeIsPath(t: Node, b: byte, c: Code)
    requires Valid(t)
    ensures (b in EncodingMap(t) && EncodingMap(t)[b] == c) <==> Walk(t, c) == Some(b)
  {
    if b in EncodingMap(t) && EncodingMap(t)[b] == c {
      CodesFromWalk(t, [], b);
      assert c[0..] == c;
    }
    if Walk(t, c) == Some(b) {
      WalkCodesFrom(t, [], c, b);
      assert [] + c == c;
    }
  }

  /** If two walks both land on leaves and one path extends the other, they are the same path. */
  lemma {:induction false} WalkPrefixFree(t: Node, p: Code, q: Code)
    requires Walk(t, p).Some? && Walk(t, q).Some? && IsPrefix(p, q)
    ensures p == q
    decreases |p|
  {
    match t
    case Leaf(_, _) =>
    case Branch(l, r, _) =>
      assert p[0] == q[0];
      assert IsPrefix(p[1..], q[1..]);
      WalkPrefixFree(if p[0] then r else l, p[1..], q[1..]);
      assert p == [p[0]] + p[1..];
      assert q == [q[0]] + q[1..];
  }

  /** No code of the table is a prefix of a different symbol's code. */
  predicate PrefixFree(enc: CodeTable)
  {
    forall a, b :: a in enc && b in enc && a != b ==> !IsPrefix(enc[a], enc[b])
  }

  /** Different symbols have different codes. */
  predicate Injective(enc: CodeTable)
  {
    forall a, b :: a in enc && b in enc && a != b ==> enc[a] != enc[b]
  }

  /** Two different symbols never have one code a prefix of the other. */
  lemma CodesNotPrefixes(t: Node, a: byte, b: byte)
    requires Valid(t)
    requires a in EncodingMap(t) && b in EncodingMap(t) && a != b
    ensures !IsPrefix(EncodingMap(t)[a], EncodingMap(t)[b])
  {
    var ca, cb := EncodingMap(t)[a], EncodingMap(t)[b];
    CodeIsPath(t, a, ca);
    CodeIsPath(t, b, cb);
    if IsPrefix(ca, cb) {
      WalkPrefixFree(t, ca, cb);
    }
  }

  /** Below an internal root every code spends at least one bit. */
  lemma CodeNonEmpty(t: Node, b: byte)
    requires Valid(t) && t.Branch? && b in EncodingMap(t)
    ensures |EncodingMap(t)[b]| >= 1
  {
    CodeIsPath(t, b, EncodingMap(t)[b]);
  }

  /**
    The code table of a valid tree is prefix-free and has one entry per
    leaf; when the root is internal every code is non-empty.
   */
  lemma EncodingMapPrefixFree(t: Node)
    requires Valid(t)
    ensures PrefixFree(EncodingMap(t))
    ensures Injective(EncodingMap(t))
    ensures |EncodingMap(t)| == LeafCount(t)
    ensures t.Branch? ==> forall b :: b in EncodingMap(t) ==> |EncodingMap(t)[b]| >= 1
  {
    var enc := EncodingMap(t);
    forall a, b | a in enc && b in enc && a != b
      ensures !IsPrefix(enc[a], enc[b])
    {
      CodesNotPrefixes(t, a, b);
    }
    forall a, b | a in enc && b in enc && a != b
      ensures enc[a] != enc[b]
    {
      assert !IsPrefix(enc[a], enc[b]);
    }
    if t.Branch? {
      forall b | b in enc ensures |enc[b]| >= 1 {
        CodeNonEmpty(t, b);
      }
    }
    LeafCountIsLeafSetSize(t);
    assert enc.Keys == LeafSet(t);
  }

  /** Inverting the code table (decoding_map): code to symbol. */
  function DecodingMap(enc: CodeTable): (dec: DecodeTable)
    requires Injective(enc)
    ensures forall b :: b in enc ==> enc[b] in dec && dec[enc[b]] == b
    ensures forall c :: c in dec ==> dec[c] in enc && enc[dec[c]] == c
  {
    map b | b in enc :: enc[b] := b
  }
}
