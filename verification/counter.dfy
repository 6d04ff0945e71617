/**
  The frequency counter (count_bytes) and the two views of a frequency
  table that the rest of the codec needs: its keys in ascending byte order
  (the order of the header) and the sum of its counts (the root weight).
 */
module Counter {
  import opened Base

  /** A frequency table: byte value to occurrence count. */
  type Table = map<byte, nat>

  /**
    count_bytes: one pass over the data, incrementing the entry of each byte
    or inserting it with count 1. Exactly the bytes that occur are keys, each
    with its number of occurrences.
   */
  function CountBytes(data: seq<byte>): (r: Table)
    ensures forall b :: b in r <==> b in data
    ensures forall b :: b in r ==> r[b] == multiset(data)[b] && r[b] >= 1
    decreases |data|
  {
    if |data| == 0 then map[]
    else
      var prefix := data[..|data| - 1];
      var b := data[|data| - 1];
      assert data == prefix + [b];
      var counter := CountBytes(prefix);
      if b in counter then counter[b := counter[b] + 1] else counter[b := 1]
  }

  /** Data made of one repeated byte counts that byte as often as the data is long. */
  lemma {:induction false} CountRepeated(data: seq<byte>, x: byte)
    requires |data| >= 1
    requires forall i :: 0 <= i < |data| ==> data[i] == x
    ensures CountBytes(data) == map[x := |data|]
  {
    var r := CountBytes(data);
    MultisetRepeated(data, x);
    forall b | b in r ensures b == x {
      assert b in data;
    }
    assert x in data by { assert data[0] == x; }
    assert r.Keys == {x};
  }

  /** A sequence of copies of x holds x as many times as its length. */
  lemma {:induction false} MultisetRepeated(s: seq<byte>, x: byte)
    requires forall i :: 0 <= i < |s| ==> s[i] == x
    ensures multiset(s)[x] == |s|
    decreases |s|
  {
    if |s| > 0 {
      assert s == s[..|s| - 1] + [s[|s| - 1]];
      MultisetRepeated(s[..|s| - 1], x);
    }
  }

  /** The keys of m that are at least lo, in ascending order. */
  function KeysFrom(m: Table, lo: nat): (r: seq<byte>)
    requires lo <= 256
    ensures forall b :: b in r <==> b in m && lo <= b
    ensures forall i, j :: 0 <= i < j < |r| ==> r[i] < r[j]
    decreases 256 - lo
  {
    if lo == 256 then []
    else if lo in m then
      var rest := KeysFrom(m, lo + 1);
      forall k | 0 <= k < |rest| ensures lo < rest[k] {
        assert rest[k] in rest;
      }
      [lo] + rest
    else KeysFrom(m, lo + 1)
  }

  /** The keys of m in ascending byte order (the sorted header order). */
  function SortedKeys(m: Table): (r: seq<byte>)
    ensures forall b :: b in r <==> b in m
    ensures forall i, j :: 0 <= i < j < |r| ==> r[i] < r[j]
    ensures Distinct(r)
    ensures |r| == |m|
  {
    var r := KeysFrom(m, 0);
    DistinctKeysCardinality(m, r);
    r
  }

  /** A duplicate-free listing of the keys of m has exactly |m| elements. */
  lemma DistinctKeysCardinality(m: Table, ks: seq<byte>)
    requires Distinct(ks)
    requires forall b :: b in ks <==> b in m
    ensures |ks| == |m|
  {
    DistinctCardinality(ks);
    assert (set b: byte | b in ks) == m.Keys;
  }

  /** A duplicate-free sequence has as many elements as its set of elements. */
  lemma {:induction false} DistinctCardinality(ks: seq<byte>)
    requires Distinct(ks)
    ensures |set b: byte | b in ks| == |ks|
  {
    if |ks| > 0 {
      var tail := ks[1..];
      assert Distinct(tail);
      DistinctCardinality(tail);
      assert ks[0] !in tail;
      var whole := set b: byte | b in ks;
      var rest := set b: byte | b in tail;
      assert whole == rest + {ks[0]};
      assert ks[0] !in rest;
    } else {
      assert (set b: byte | b in ks) == {};
    }
  }

  /** The sum of the counts of the keys of m that are at least lo. */
  function TotalFrom(m: Table, lo: nat): nat
    requires lo <= 256
    decreases 256 - lo
  {
    if lo == 256 then 0
    else (if lo in m then m[lo] else 0) + TotalFrom(m, lo + 1)
  }

  /** The sum of all counts of m. */
  function Total(m: Table): nat
  {
    TotalFrom(m, 0)
  }

  /** Every count is at most the total. */
  lemma {:induction false} CountBelowTotalFrom(m: Table, lo: nat, b: byte)
    requires lo <= b && b in m
    ensures m[b] <= TotalFrom(m, lo)
    decreases 256 - lo
  {
    if lo < b {
      CountBelowTotalFrom(m, lo + 1, b);
    }
  }

  /** Raising the count of x by one raises every partial total that includes x by one. */
  lemma {:induction false} TotalFromBump(m: Table, x: byte, lo: nat)
    requires lo <= 256
    ensures TotalFrom(m[x := (if x in m then m[x] else 0) + 1], lo)
         == TotalFrom(m, lo) + (if lo <= x then 1 else 0)
    decreases 256 - lo
  {
    if lo < 256 {
      TotalFromBump(m, x, lo + 1);
    }
  }

  /** The empty table has total 0. */
  lemma {:induction false} TotalFromEmpty(lo: nat)
    requires lo <= 256
    ensures TotalFrom(map[], lo) == 0
    decreases 256 - lo
  {
    if lo < 256 {
      TotalFromEmpty(lo + 1);
    }
  }

  /** The counts of a counted buffer sum to its length. */
  lemma {:induction false} TotalOfCount(data: seq<byte>)
    ensures Total(CountBytes(data)) == |data|
    decreases |data|
  {
    if |data| > 0 {
      var prefix := data[..|data| - 1];
      var b := data[|data| - 1];
      assert data == prefix + [b];
      var counter := CountBytes(prefix);
      assert CountBytes(data) == counter[b := (if b in counter then counter[b] else 0) + 1];
      TotalOfCount(prefix);
      TotalFromBump(counter, b, 0);
    } else {
      TotalFromEmpty(0);
    }
  }
}
