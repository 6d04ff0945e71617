/**
  The bit-level layer of the codec: a bit string is packed most significant
  bit first into bytes, the last byte padded with zero bits, and a byte is
  unpacked into its eight bits by testing the masks 1 << 7 down to 1 << 0.
 */
module Bits {
  import opened Base

  /** 2 to the power n. */
  function Pow2(n: nat): (r: nat)
    ensures r >= 1
  {
    if n == 0 then 1 else 2 * Pow2(n - 1)
  }

  /**
    The value of a bit string read as a binary numeral, most significant
    bit first (u8::from_str_radix(_, 2)): each further digit doubles the
    value read so far and adds itself.
   */
  function BitsToNat(bits: seq<bool>): (r: nat)
    ensures r < Pow2(|bits|)
    decreases |bits|
  {
    if |bits| == 0 then 0
    else 2 * BitsToNat(bits[..|bits| - 1]) + (if bits[|bits| - 1] then 1 else 0)
  }

  /** Whether bit k of v (the one of weight 2^k) is set: the test v & (1 << k) > 0. */
  function Bit(v: nat, k: nat): bool
  {
    if k == 0 then v % 2 == 1 else Bit(v / 2, k - 1)
  }

  /** The n low bits of v, most significant first. */
  function BitsOf(v: nat, n: nat): (r: seq<bool>)
    ensures |r| == n
  {
    seq(n, i requires 0 <= i < n => Bit(v, n - 1 - i))
  }

  /** Bit k of v is the parity of v divided by 2^k: the mask 1 << k picks it out. */
  lemma {:induction false} BitIsDigit(v: nat, k: nat)
    ensures Bit(v, k) <==> v / Pow2(k) % 2 == 1
  {
    if k > 0 {
      BitIsDigit(v / 2, k - 1);
      DivDiv(v, 2, Pow2(k - 1));
    }
  }

  /**
    The eight bits of a byte, most significant first (the loop over
    1 << (7 - i)): bit i is set exactly when the mask 1 << (7 - i) meets b.
   */
  function ByteToBits(b: byte): (r: seq<bool>)
    ensures |r| == 8
    ensures forall i :: 0 <= i < 8 ==> (r[i] <==> b / Pow2(7 - i) % 2 == 1)
  {
    var r := BitsOf(b, 8);
    assert forall i :: 0 <= i < 8 ==> (r[i] <==> b / Pow2(7 - i) % 2 == 1) by {
      forall i | 0 <= i < 8
        ensures r[i] <==> b / Pow2(7 - i) % 2 == 1
      {
        BitIsDigit(b, 7 - i);
      }
    }
    r
  }

  /**
    An 8-character chunk of '0'/'1' parsed as a byte (from_str_radix with
    radix 2): the byte whose eight bits are the chunk.
   */
  function BitsToByte(bits: seq<bool>): (r: byte)
    requires |bits| == 8
    ensures ByteToBits(r) == bits
  {
    assert Pow2(8) == 256 by { Pow2Eight(); }
    BitsOfBitsToNat(bits);
    BitsToNat(bits)
  }

  /** A byte holds values below 2^8. */
  lemma Pow2Eight()
    ensures Pow2(8) == 256
  {
    assert Pow2(4) == 16;
  }

  /** Reading a bit string as a number and writing that number back gives the bits again. */
  lemma {:induction false} BitsOfBitsToNat(bits: seq<bool>)
    ensures BitsOf(BitsToNat(bits), |bits|) == bits
    decreases |bits|
  {
    var n := |bits|;
    if n > 0 {
      var init := bits[..n - 1];
      var v := BitsToNat(bits);
      var w := BitsToNat(init);
      BitsOfBitsToNat(init);
      assert v / 2 == w;
      forall i | 0 <= i < n
        ensures BitsOf(v, n)[i] == bits[i]
      {
        if i < n - 1 {
          assert Bit(v, n - 1 - i) == Bit(w, n - 2 - i);
          assert BitsOf(w, n - 1)[i] == init[i];
        } else {
          assert BitsOf(v, n)[i] == Bit(v, 0);
          assert v % 2 == (if bits[n - 1] then 1 else 0);
        }
      }
    }
  }

  /** Writing a number below 2^n as n bits and reading them back gives the number again. */
  lemma {:induction false} BitsToNatBitsOf(v: nat, n: nat)
    requires v < Pow2(n)
    ensures BitsToNat(BitsOf(v, n)) == v
  {
    if n > 0 {
      var bits := BitsOf(v, n);
      var init := BitsOf(v / 2, n - 1);
      assert bits[..n - 1] == init by {
        forall i | 0 <= i < n - 1
          ensures bits[i] == init[i]
        {
          assert Bit(v, n - 1 - i) == Bit(v / 2, n - 2 - i);
        }
      }
      BitsToNatBitsOf(v / 2, n - 1);
      assert bits[n - 1] == Bit(v, 0);
      assert bits == init + [bits[n - 1]];
    }
  }

  /** Unpacking a byte and packing its bits back gives the byte. */
  lemma ByteRoundTrip(b: byte)
    ensures BitsToByte(ByteToBits(b)) == b
  {
    Pow2Eight();
    BitsToNatBitsOf(b, 8);
  }

  /**
    The packing loop of compress: every full group of 8 bits becomes one
    byte; the last group (possibly empty) is padded with '0' to 8 bits and
    always pushed, so an empty bit string still yields one zero byte.
   */
  function Pack(bits: seq<bool>): (r: seq<byte>)
    ensures |r| == if |bits| == 0 then 1 else (|bits| + 7) / 8
    ensures |bits| <= 8 * |r|
    ensures |bits| > 0 ==> 8 * |r| < |bits| + 8
    decreases |bits|
  {
    if |bits| <= 8 then [BitsToByte(bits + Zeros(8 - |bits|))]
    else [BitsToByte(bits[..8])] + Pack(bits[8..])
  }

  /** The unpacking of decompress: every byte becomes its eight bits, most significant first. */
  function Unpack(bytes: seq<byte>): (r: seq<bool>)
    ensures |r| == 8 * |bytes|
  {
    if |bytes| == 0 then [] else ByteToBits(bytes[0]) + Unpack(bytes[1..])
  }

  /** Bits that are all zero read as the number 0. */
  lemma {:induction false} BitsToNatAllZero(bits: seq<bool>)
    requires forall i :: 0 <= i < |bits| ==> !bits[i]
    ensures BitsToNat(bits) == 0
    decreases |bits|
  {
    if |bits| > 0 {
      BitsToNatAllZero(bits[..|bits| - 1]);
    }
  }

  /** An empty bit string packs into a single zero byte. */
  lemma PackEmpty()
    ensures Pack([]) == [0]
  {
    BitsToNatAllZero(Zeros(8));
    assert [] + Zeros(8) == Zeros(8);
  }

  /** Unpacking a byte list that starts with b starts with the bits of b. */
  lemma UnpackCons(b: byte, rest: seq<byte>)
    ensures Unpack([b] + rest) == ByteToBits(b) + Unpack(rest)
  {
    assert ([b] + rest)[1..] == rest;
  }

  /** Unpacking the packed bits gives the bits followed by the zero padding. */
  lemma {:induction false} UnpackPack(bits: seq<bool>)
    ensures Unpack(Pack(bits)) == bits + Zeros(8 * |Pack(bits)| - |bits|)
    decreases |bits|
  {
    if |bits| <= 8 {
      var chunk := bits + Zeros(8 - |bits|);
      UnpackCons(BitsToByte(chunk), []);
    } else {
      var head, tail := bits[..8], bits[8..];
      UnpackCons(BitsToByte(head), Pack(tail));
      UnpackPack(tail);
      assert bits == head + tail;
    }
  }

  /** The packed bits are read back first, whatever the padding. */
  lemma UnpackPackPrefix(bits: seq<bool>)
    ensures IsPrefix(bits, Unpack(Pack(bits)))
  {
    UnpackPack(bits);
    PrefixOfAppend(bits, Zeros(8 * |Pack(bits)| - |bits|));
  }

  /** Bit i of byte k of the payload is read at position 8k + i: bytes in order, each most significant bit first. */
  lemma {:induction false} UnpackAt(bytes: seq<byte>, k: nat, i: nat)
    requires k < |bytes| && i < 8
    ensures Unpack(bytes)[8 * k + i] == ByteToBits(bytes[k])[i]
    decreases k
  {
    if k > 0 {
      UnpackAt(bytes[1..], k - 1, i);
    }
  }

  /**
    Bit i of packed byte k, most significant first, is bit 8k + i of the
    bit string, or a '0' of the padding past its end.
   */
  lemma PackMsbFirst(bits: seq<bool>, k: nat, i: nat)
    requires k < |Pack(bits)| && i < 8
    ensures ByteToBits(Pack(bits)[k])[i] == (8 * k + i < |bits| && bits[8 * k + i])
  {
    UnpackAt(Pack(bits), k, i);
    UnpackPack(bits);
  }

  /** Packing the unpacked bits of a non-empty byte list gives the bytes back. */
  lemma {:induction false} PackUnpack(bytes: seq<byte>)
    requires |bytes| >= 1
    ensures Pack(Unpack(bytes)) == bytes
    decreases |bytes|
  {
    var bits := Unpack(bytes);
    var head := ByteToBits(bytes[0]);
    assert bits == head + Unpack(bytes[1..]);
    ByteRoundTrip(bytes[0]);
    if |bytes| == 1 {
      assert bits + Zeros(0) == head;
    } else {
      assert bits[..8] == head;
      assert bits[8..] == Unpack(bytes[1..]);
      PackUnpack(bytes[1..]);
      assert bytes == [bytes[0]] + bytes[1..];
    }
  }
}
