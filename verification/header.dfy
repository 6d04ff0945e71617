/**
  The header of a compressed stream: the frequency table written as 5-byte
  entries (symbol, then its count as a 4-byte big-endian u32) in ascending
  symbol order, closed by five zero bytes; and the parser that reads entries
  back until it meets a symbol 0 with count 0.
 */
module HeaderFormat {
  import opened Base
  import opened Counter

  /** 256 to the power n. */
  function Pow256(n: nat): (r: nat)
    ensures r >= 1
  {
    if n == 0 then 1 else 256 * Pow256(n - 1)
  }

  /** The u32 limit is 256^4: a count fits in four bytes. */
  lemma Pow256Four()
    ensures Pow256(4) == U32_LIMIT
  {
  }

  /**
    The n low bytes of v, most significant first (u32::to_be_bytes when n
    is 4): byte i is the base-256 digit of weight 256^(n - 1 - i).
   */
  function BeBytes(v: nat, n: nat): (r: seq<byte>)
    ensures |r| == n
    ensures forall i :: 0 <= i < n ==> r[i] == v / Pow256(n - 1 - i) % 256
  {
    if n == 0 then []
    else
      var rest := BeBytes(v / 256, n - 1);
      assert forall i :: 0 <= i < n - 1 ==> rest[i] == v / Pow256(n - 1 - i) % 256 by {
        forall i | 0 <= i < n - 1
          ensures rest[i] == v / Pow256(n - 1 - i) % 256
        {
          DivDiv(v, 256, Pow256(n - 2 - i));
        }
      }
      rest + [v % 256]
  }

  /**
    Bytes read as a big-endian number: decompress shifts the count read so
    far left by 8 and ors in the next byte, which for a byte is adding it to
    256 times the count.
   */
  function BeValue(bytes: seq<byte>): (r: nat)
    ensures r < Pow256(|bytes|)
    decreases |bytes|
  {
    if |bytes| == 0 then 0
    else BeValue(bytes[..|bytes| - 1]) * 256 + bytes[|bytes| - 1]
  }

  /** Writing a number below 256^n as n bytes and reading them back gives the number. */
  lemma {:induction false} BeValueOfBytes(v: nat, n: nat)
    requires v < Pow256(n)
    ensures BeValue(BeBytes(v, n)) == v
  {
    if n > 0 {
      var bytes := BeBytes(v, n);
      assert bytes[..n - 1] == BeBytes(v / 256, n - 1);
      BeValueOfBytes(v / 256, n - 1);
    }
  }

  /** Reading n bytes as a number and writing it back as n bytes gives the bytes. */
  lemma {:induction false} BeBytesOfValue(bytes: seq<byte>)
    ensures BeBytes(BeValue(bytes), |bytes|) == bytes
    decreases |bytes|
  {
    var n := |bytes|;
    if n > 0 {
      var init := bytes[..n - 1];
      var v := BeValue(bytes);
      assert v / 256 == BeValue(init);
      assert v % 256 == bytes[n - 1];
      BeBytesOfValue(init);
      assert bytes == init + [bytes[n - 1]];
    }
  }

  /** Every count of m fits in a u32, the value type of the counter. */
  predicate FitsU32(m: Table)
  {
    forall b :: b in m ==> m[b] < U32_LIMIT
  }

  /** The entries of the symbols ks, in that order: the symbol, then its count in big-endian. */
  function Entries(m: Table, ks: seq<byte>): (r: seq<byte>)
    requires FitsU32(m)
    requires forall i :: 0 <= i < |ks| ==> ks[i] in m
    ensures |r| == 5 * |ks|
  {
    if |ks| == 0 then [] else [ks[0]] + BeBytes(m[ks[0]], 4) + Entries(m, ks[1..])
  }

  /** Entry i of the listing is the symbol ks[i] followed by its count in four big-endian bytes. */
  lemma {:induction false} EntriesLayout(m: Table, ks: seq<byte>, i: nat)
    requires FitsU32(m)
    requires forall j :: 0 <= j < |ks| ==> ks[j] in m
    requires i < |ks|
    ensures Entries(m, ks)[5 * i] == ks[i]
    ensures Entries(m, ks)[5 * i + 1..5 * i + 5] == BeBytes(m[ks[i]], 4)
  {
    var head := [ks[0]] + BeBytes(m[ks[0]], 4);
    var rest := Entries(m, ks[1..]);
    assert Entries(m, ks) == head + rest;
    if i > 0 {
      EntriesLayout(m, ks[1..], i - 1);
      SliceAfterAppend(head, rest, 5 * i + 1, 5 * i + 5);
    }
  }

  /** The header terminator: symbol 0 with count 0. */
  const TERMINATOR: seq<byte> := [0, 0, 0, 0, 0]

  /** The header written by compress: one entry per key in ascending order, then the terminator. */
  function Header(m: Table): (r: seq<byte>)
    requires FitsU32(m)
    ensures |r| == 5 * |m| + 5
    ensures r[5 * |m|..] == TERMINATOR
  {
    Entries(m, SortedKeys(m)) + TERMINATOR
  }

  /** The five bytes of entry i are unchanged by appending bytes after the listing. */
  lemma EntryOfAppend(es: seq<byte>, suffix: seq<byte>, i: nat)
    requires 5 * i + 5 <= |es|
    ensures (es + suffix)[5 * i] == es[5 * i]
    ensures (es + suffix)[5 * i + 1..5 * i + 5] == es[5 * i + 1..5 * i + 5]
  {
    SliceOfAppend(es, suffix, 5 * i + 1, 5 * i + 5);
  }

  /** Entry i of the header is the i-th smallest key followed by its count in four big-endian bytes. */
  lemma HeaderEntry(m: Table, i: nat)
    requires FitsU32(m)
    requires i < |m|
    ensures Header(m)[5 * i] == SortedKeys(m)[i]
    ensures Header(m)[5 * i + 1..5 * i + 5] == BeBytes(m[SortedKeys(m)[i]], 4)
  {
    var ks := SortedKeys(m);
    EntriesLayout(m, ks, i);
    EntryOfAppend(Entries(m, ks), TERMINATOR, i);
  }

  /**
    The header lists the keys of m with their counts, and the symbols of
    its entries strictly ascend.
   */
  lemma HeaderLayout(m: Table, i: nat)
    requires FitsU32(m)
    requires i < |m|
    ensures Header(m)[5 * i] in m
    ensures Header(m)[5 * i + 1..5 * i + 5] == BeBytes(m[Header(m)[5 * i]], 4)
    ensures forall j :: i < j < |m| ==> Header(m)[5 * i] < Header(m)[5 * j]
  {
    var ks := SortedKeys(m);
    HeaderEntry(m, i);
    assert ks[i] in ks;
    forall j | i < j < |m|
      ensures Header(m)[5 * i] < Header(m)[5 * j]
    {
      HeaderEntry(m, j);
    }
  }

  /**
    The header loop of decompress: read a symbol and a 4-byte count (running
    out of bytes is a panic, here None); a symbol 0 with count 0 ends the
    header and the rest of the bytes is the payload; any other entry is
    inserted into the table, overwriting an earlier entry for the symbol.
   */
  function ParseEntries(bytes: seq<byte>, acc: Table): (r: Option<(Table, seq<byte>)>)
    ensures r.Some? ==> |r.value.1| + 5 <= |bytes| && r.value.1 == bytes[|bytes| - |r.value.1|..]
    ensures r.Some? ==> acc.Keys <= r.value.0.Keys
    ensures r.Some? && FitsU32(acc) ==> FitsU32(r.value.0)
    decreases |bytes|
  {
    if |bytes| < 5 then None
    else
      var symbol := bytes[0];
      var count := BeValue(bytes[1..5]);
      assert count < U32_LIMIT by { Pow256Four(); }
      if symbol == 0 && count == 0 then Some((acc, bytes[5..]))
      else ParseEntries(bytes[5..], acc[symbol := count])
  }

  /** Parse a header from the start of a compressed stream into a table and the payload. */
  function ParseHeader(bytes: seq<byte>): (r: Option<(Table, seq<byte>)>)
    ensures r.Some? ==> FitsU32(r.value.0)
    ensures r.Some? ==> |r.value.1| + 5 <= |bytes| && r.value.1 == bytes[|bytes| - |r.value.1|..]
  {
    ParseEntries(bytes, map[])
  }

  /** The part of m whose keys are listed in ks. */
  function Restrict(m: Table, ks: seq<byte>): (r: Table)
    ensures forall b :: b in r <==> b in m && b in ks
  {
    map b | b in ks && b in m :: m[b]
  }

  /** Reading back the terminator ends the header and leaves the rest. */
  lemma ParseTerminator(acc: Table, rest: seq<byte>)
    ensures ParseEntries(TERMINATOR + rest, acc) == Some((acc, rest))
  {
    var bytes := TERMINATOR + rest;
    assert bytes[1..5] == [0, 0, 0, 0];
    assert bytes[5..] == rest;
    assert [0, 0, 0, 0][..3] == [0, 0, 0];
    assert [0, 0, 0][..2] == [0, 0];
    assert [0, 0][..1] == [0];
    assert BeValue([0, 0, 0, 0]) == 0;
  }

  /** Reading back one written entry inserts it and continues after it. */
  lemma ParseEntry(m: Table, ks: seq<byte>, acc: Table, rest: seq<byte>)
    requires FitsU32(m) && |ks| > 0
    requires forall i :: 0 <= i < |ks| ==> ks[i] in m
    requires ks[0] != 0 || m[ks[0]] != 0
    ensures ParseEntries(Entries(m, ks) + TERMINATOR + rest, acc)
         == ParseEntries(Entries(m, ks[1..]) + TERMINATOR + rest, acc[ks[0] := m[ks[0]]])
  {
    var k := ks[0];
    var tail := Entries(m, ks[1..]) + TERMINATOR + rest;
    var bytes := Entries(m, ks) + TERMINATOR + rest;
    assert bytes == [k] + BeBytes(m[k], 4) + tail;
    assert bytes[1..5] == BeBytes(m[k], 4);
    assert bytes[5..] == tail;
    Pow256Four();
    BeValueOfBytes(m[k], 4);
  }

  /** Reading back written entries inserts each of them and stops at the terminator. */
  lemma {:induction false} ParseEntriesRoundTrip(m: Table, ks: seq<byte>, acc: Table, rest: seq<byte>)
    requires FitsU32(m)
    requires forall i :: 0 <= i < |ks| ==> ks[i] in m
    requires forall i :: 0 <= i < |ks| ==> ks[i] != 0 || m[ks[i]] != 0
    ensures ParseEntries(Entries(m, ks) + TERMINATOR + rest, acc) == Some((acc + Restrict(m, ks), rest))
    decreases |ks|
  {
    if |ks| == 0 {
      ParseTerminator(acc, rest);
      assert Entries(m, ks) + TERMINATOR + rest == TERMINATOR + rest;
      assert Restrict(m, ks) == map[];
      assert acc + map[] == acc;
    } else {
      ParseEntry(m, ks, acc, rest);
      ParseEntriesRoundTrip(m, ks[1..], acc[ks[0] := m[ks[0]]], rest);
      RestrictCons(m, ks, acc);
    }
  }

  /** Inserting the first listed entry and then the rest is inserting them all. */
  lemma RestrictCons(m: Table, ks: seq<byte>, acc: Table)
    requires |ks| > 0 && ks[0] in m
    ensures acc[ks[0] := m[ks[0]]] + Restrict(m, ks[1..]) == acc + Restrict(m, ks)
  {
    var lhs := acc[ks[0] := m[ks[0]]] + Restrict(m, ks[1..]);
    var rhs := acc + Restrict(m, ks);
    assert forall b :: b in ks <==> b == ks[0] || b in ks[1..];
    assert lhs.Keys == rhs.Keys;
    forall b | b in lhs ensures lhs[b] == rhs[b] {
    }
  }

  /** Restricting a table to a listing of all its keys gives the table. */
  lemma RestrictAll(m: Table, ks: seq<byte>)
    requires forall b :: b in ks <==> b in m
    ensures map[] + Restrict(m, ks) == m
  {
    var r := map[] + Restrict(m, ks);
    assert r.Keys == m.Keys;
    forall b | b in r ensures r[b] == m[b] {
    }
  }

  /**
    The header round trip: parsing a written header gives back the table
    and leaves the bytes after it, provided the entry for symbol 0 (if any)
    cannot be mistaken for the terminator.
   */
  lemma HeaderRoundTrip(m: Table, rest: seq<byte>)
    requires FitsU32(m)
    requires 0 in m ==> m[0] != 0
    ensures ParseHeader(Header(m) + rest) == Some((m, rest))
  {
    var ks := SortedKeys(m);
    ParseEntriesRoundTrip(m, ks, map[], rest);
    RestrictAll(m, ks);
  }
}
