/**
  Shared vocabulary of the Huffman codec: bytes, bit strings, the 32-bit
  bound on counts and weights, the end-of-stream symbol and an Option type
  for the operations that panic in the original program.
 */
module Base {

  /** A byte value, 0 to 255. */
  type byte = x: int | 0 <= x < 256

  /** The exclusive upper bound of a u32. */
  const U32_LIMIT: nat := 0x1_0000_0000

  /** The end-of-stream symbol appended before encoding (EOF_CHARACTER). */
  const EOS: byte := 0x00

  /** The result of an operation that can fail (a panic in the original). */
  datatype Option<+T> = None | Some(value: T)

  /** p is a (not necessarily proper) prefix of q. */
  predicate IsPrefix<T(==)>(p: seq<T>, q: seq<T>)
  {
    |p| <= |q| && q[..|p|] == p
  }

  /** Being a prefix is transitive. */
  lemma PrefixOfPrefix<T>(p: seq<T>, q: seq<T>, r: seq<T>)
    requires IsPrefix(p, q) && IsPrefix(q, r)
    ensures IsPrefix(p, r)
  {
    assert r[..|p|] == r[..|q|][..|p|];
  }

  /** Taking the first element off the rest keeps the concatenation. */
  lemma AppendHead<T>(path: seq<T>, bits: seq<T>)
    requires |bits| > 0
    ensures path + [bits[0]] + bits[1..] == path + bits
  {
  }

  /** A sequence that p is a prefix of is p followed by the rest. */
  lemma PrefixSplit<T>(p: seq<T>, q: seq<T>)
    requires IsPrefix(p, q)
    ensures q == p + q[|p|..]
  {
  }

  /** A sequence is a prefix of itself followed by anything. */
  lemma PrefixOfAppend<T>(p: seq<T>, rest: seq<T>)
    ensures IsPrefix(p, p + rest)
  {
    assert (p + rest)[..|p|] == p;
  }

  /** Dividing by a and then by b is dividing by a * b. */
  lemma DivDiv(v: nat, a: nat, b: nat)
    requires a > 0 && b > 0
    ensures v / a / b == v / (a * b)
  {
    var q, r := v / a, v % a;
    var q2, r2 := q / b, q % b;
    assert v == a * q + r;
    assert q == b * q2 + r2;
    Distribute(a, b, q2, r2);
    MulGap(r2, b, a);
    DivUnique(v, a * b, q2, a * r2 + r);
  }

  /** Multiplying out a * (b * q + r). */
  lemma Distribute(a: nat, b: nat, q: nat, r: nat)
    ensures a * (b * q + r) == (a * b) * q + a * r
  {
  }

  /** A larger factor adds at least one more c. */
  lemma {:induction false} MulGap(x: nat, y: nat, c: nat)
    requires x < y
    ensures x * c + c <= y * c
    decreases y
  {
    if y == x + 1 {
      assert (x + 1) * c == x * c + c;
    } else {
      MulGap(x, y - 1, c);
      assert (y - 1) * c + c == y * c;
    }
  }

  /** The quotient is the only k with v = k * c + r and 0 <= r < c. */
  lemma DivUnique(v: nat, c: nat, k: nat, r: nat)
    requires c > 0 && v == k * c + r && r < c
    ensures v / c == k
  {
    var q := v / c;
    assert v == q * c + v % c;
    if q < k {
      MulGap(q, k, c);
    } else if q > k {
      MulGap(k, q, c);
    }
  }

  /** A slice that lies inside the first part of a concatenation is a slice of that part. */
  lemma SliceOfAppend<T>(a: seq<T>, b: seq<T>, x: nat, y: nat)
    requires x <= y <= |a|
    ensures (a + b)[x..y] == a[x..y]
  {
  }

  /** A slice that lies inside the second part of a concatenation is a slice of that part. */
  lemma SliceAfterAppend<T>(a: seq<T>, b: seq<T>, x: nat, y: nat)
    requires |a| <= x <= y <= |a| + |b|
    ensures (a + b)[x..y] == b[x - |a|..y - |a|]
  {
  }

  /** Splitting off the head of s before appending t. */
  lemma ConsAppend<T>(s: seq<T>, t: seq<T>)
    requires |s| > 0
    ensures s + t == [s[0]] + (s[1..] + t)
  {
    assert s == [s[0]] + s[1..];
  }

  /** A sequence is its part before i, its element at i and its part after i. */
  lemma SplitAround<T>(s: seq<T>, i: nat)
    requires i < |s|
    ensures s == s[..i] + ([s[i]] + s[i + 1..])
  {
  }

  /** No two elements of s are equal. */
  predicate Distinct<T(==)>(s: seq<T>)
  {
    forall i, j :: 0 <= i < j < |s| ==> s[i] != s[j]
  }

  /** n zero (false) bits. */
  function Zeros(n: nat): (r: seq<bool>)
    ensures |r| == n
    ensures forall i :: 0 <= i < n ==> !r[i]
  {
    if n == 0 then [] else Zeros(n - 1) + [false]
  }

  /** Sequence s with the element at index i taken out. */
  function RemoveAt<T>(s: seq<T>, i: nat): (r: seq<T>)
    requires i < |s|
    ensures |r| == |s| - 1
    ensures forall k :: 0 <= k < i ==> r[k] == s[k]
    ensures forall k :: i <= k < |r| ==> r[k] == s[k + 1]
    ensures multiset(r) + multiset{s[i]} == multiset(s)
  {
    assert s == s[..i] + [s[i]] + s[i + 1..];
    s[..i] + s[i + 1..]
  }

  /** Taking out a and then b takes out the multiset {a, b}. */
  lemma TwoRemovals<T>(s: multiset<T>, s1: multiset<T>, s2: multiset<T>, a: T, b: T)
    requires s1 + multiset{a} == s
    requires s2 + multiset{b} == s1
    ensures s2 + multiset{a, b} == s
  {
    assert multiset{a, b} == multiset{b} + multiset{a};
  }

  /** Removing a then b from a set and adding back their union restores it. */
  lemma UnionRegroup<T>(s: set<T>, s1: set<T>, s2: set<T>, a: set<T>, b: set<T>)
    requires s1 + a == s
    requires s2 + b == s1
    ensures s2 + (a + b) == s
  {
  }

  /** A set with one element has no two different members. */
  lemma SingletonMembers<T>(s: set<T>, x: T, y: T)
    requires |s| == 1 && x in s && y in s
    ensures x == y
  {
    var rest := s - {x};
    assert |rest| == 0;
    assert rest == {};
  }

  /** In a sequence without duplicates every element occurs exactly once. */
  lemma {:induction false} DistinctMultiplicity<T>(s: seq<T>, x: T)
    requires Distinct(s)
    ensures multiset(s)[x] == if x in s then 1 else 0
  {
    if |s| > 0 {
      assert s == [s[0]] + s[1..];
      assert Distinct(s[1..]);
      DistinctMultiplicity(s[1..], x);
      assert s[0] !in s[1..];
    }
  }

  /** Two duplicate-free sequences with the same elements are permutations of each other. */
  lemma DistinctSameElements<T>(a: seq<T>, b: seq<T>)
    requires Distinct(a) && Distinct(b)
    requires forall x :: x in a <==> x in b
    ensures multiset(a) == multiset(b)
  {
    forall x ensures multiset(a)[x] == multiset(b)[x] {
      DistinctMultiplicity(a, x);
      DistinctMultiplicity(b, x);
    }
  }
}
