/**
  Encoding a byte string as the concatenation of its codes, and the greedy
  decoding loop of decompress: grow a pattern one bit at a time, and as soon
  as it is a code emit its symbol (or stop, when the symbol is the
  end-of-stream byte) and start a new pattern.
 */
module Decoder {
  import opened Base
  import opened Codes

  /**
    The bit string of s: the codes of its symbols, concatenated
    (encoded_chunks.join). It starts with the code of the first symbol, and
    when every code is non-empty it has at least one bit per symbol.
   */
  function Encode(enc: CodeTable, s: seq<byte>): (r: Code)
    requires forall i :: 0 <= i < |s| ==> s[i] in enc
    ensures |s| == 0 ==> r == []
    ensures |s| > 0 ==> IsPrefix(enc[s[0]], r)
  {
    if |s| == 0 then []
    else
      PrefixOfAppend(enc[s[0]], Encode(enc, s[1..]));
      enc[s[0]] + Encode(enc, s[1..])
  }

  /** Encoding a concatenation concatenates the encodings: codes are written one symbol at a time. */
  lemma {:induction false} EncodeAppend(enc: CodeTable, s: seq<byte>, t: seq<byte>)
    requires forall i :: 0 <= i < |s| ==> s[i] in enc
    requires forall i :: 0 <= i < |t| ==> t[i] in enc
    ensures forall i :: 0 <= i < |s + t| ==> (s + t)[i] in enc
    ensures Encode(enc, s + t) == Encode(enc, s) + Encode(enc, t)
    decreases |s|
  {
    if |s| > 0 {
      assert (s + t)[1..] == s[1..] + t;
      EncodeAppend(enc, s[1..], t);
    } else {
      assert s + t == t;
    }
  }

  /** Appending a symbol to s appends its code to the encoding of s. */
  lemma EncodeSnoc(enc: CodeTable, s: seq<byte>, b: byte)
    requires forall i :: 0 <= i < |s| ==> s[i] in enc
    requires b in enc
    ensures forall i :: 0 <= i < |s + [b]| ==> (s + [b])[i] in enc
    ensures Encode(enc, s + [b]) == Encode(enc, s) + enc[b]
  {
    EncodeAppend(enc, s, [b]);
    assert [b][1..] == [];
  }

  /** When every code is empty, so is the encoding of anything. */
  lemma {:induction false} EncodeEmptyCodes(enc: CodeTable, s: seq<byte>)
    requires forall i :: 0 <= i < |s| ==> s[i] in enc
    requires forall b :: b in enc ==> enc[b] == []
    ensures Encode(enc, s) == []
    decreases |s|
  {
    if |s| > 0 {
      EncodeEmptyCodes(enc, s[1..]);
    }
  }

  /**
    The data up to, not including, the first end-of-stream byte: what
    decompress can give back of it.
   */
  function UntilEos(d: seq<byte>): (r: seq<byte>)
    ensures IsPrefix(r, d)
    ensures EOS !in r
    ensures |r| < |d| ==> d[|r|] == EOS
  {
    if |d| == 0 || d[0] == EOS then [] else [d[0]] + UntilEos(d[1..])
  }

  /** Data without an end-of-stream byte is kept whole. */
  lemma UntilEosWithoutEos(d: seq<byte>)
    requires EOS !in d
    ensures UntilEos(d) == d
  {
    PrefixSplit(UntilEos(d), d);
  }

  /**
    The decoding loop: push the next bit onto the pattern; if the pattern is
    a code, stop on the end-of-stream symbol or emit the symbol and clear the
    pattern; running out of bits ends the output.
   */
  function Decode(dec: DecodeTable, bits: Code, pattern: Code): (r: seq<byte>)
    ensures EOS !in r
    ensures forall i :: 0 <= i < |r| ==> r[i] in dec.Values
    decreases |bits|
  {
    if |bits| == 0 then []
    else
      var p := pattern + [bits[0]];
      if p in dec then
        if dec[p] == EOS then [] else [dec[p]] + Decode(dec, bits[1..], [])
      else Decode(dec, bits[1..], p)
  }

  /** The tables the decoder is run with: the inverse of a prefix-free code table. */
  predicate Decodes(enc: CodeTable, dec: DecodeTable)
  {
    && PrefixFree(enc)
    && Injective(enc)
    && dec == DecodingMap(enc)
  }

  /** A proper prefix of a code is not itself a code. */
  lemma ProperPrefixNotCode(enc: CodeTable, dec: DecodeTable, b: byte, q: Code)
    requires Decodes(enc, dec)
    requires b in enc && IsPrefix(q, enc[b]) && |q| < |enc[b]|
    ensures q !in dec
  {
    forall a | a in enc && a != b
      ensures enc[a] != q
    {
      assert !IsPrefix(enc[a], enc[b]);
    }
  }

  /**
    Decoding from a pattern that the next bits complete to the code of b
    reads exactly those bits, then emits b and goes on with a fresh pattern
    (or stops, if b is the end-of-stream symbol).
   */
  lemma {:induction false} DecodeCode(enc: CodeTable, dec: DecodeTable, b: byte, p: Code, c: Code, rest: Code)
    requires Decodes(enc, dec)
    requires b in enc && p + c == enc[b] && |c| >= 1
    ensures Decode(dec, c + rest, p) == if b == EOS then [] else [b] + Decode(dec, rest, [])
    decreases |c|
  {
    var bits := c + rest;
    var q := p + [c[0]];
    assert bits[0] == c[0];
    assert bits[1..] == c[1..] + rest;
    if |c| == 1 {
      assert q == enc[b];
    } else {
      assert q + c[1..] == enc[b];
      assert enc[b][..|q|] == q;
      ProperPrefixNotCode(enc, dec, b, q);
      DecodeCode(enc, dec, b, q, c[1..], rest);
    }
  }

  /**
    Decoding the encoding of s, whatever bits follow it, gives s up to its
    first end-of-stream symbol, provided s contains one and every code is
    non-empty.
   */
  lemma {:induction false} DecodeEncode(enc: CodeTable, dec: DecodeTable, s: seq<byte>, tail: Code)
    requires Decodes(enc, dec)
    requires forall b :: b in enc ==> |enc[b]| >= 1
    requires forall i :: 0 <= i < |s| ==> s[i] in enc
    requires EOS in s
    ensures Decode(dec, Encode(enc, s) + tail, []) == UntilEos(s)
    decreases |s|
  {
    if s[0] == EOS {
      DecodeFirstEos(enc, dec, s, tail);
    } else {
      var rest := s[1..];
      assert EOS in rest && forall i :: 0 <= i < |rest| ==> rest[i] in enc by {
        assert forall i :: 0 <= i < |rest| ==> rest[i] == s[i + 1];
        assert s == [s[0]] + rest;
      }
      DecodeFirstCode(enc, dec, s, tail);
      DecodeEncode(enc, dec, rest, tail);
    }
  }

  /**
    Without an end-of-stream symbol in s, the loop decodes the codes of s,
    emits s and carries on into whatever bits follow with a fresh pattern.
   */
  lemma {:induction false} DecodeEncodeThen(enc: CodeTable, dec: DecodeTable, s: seq<byte>, tail: Code)
    requires Decodes(enc, dec)
    requires forall b :: b in enc ==> |enc[b]| >= 1
    requires forall i :: 0 <= i < |s| ==> s[i] in enc
    requires EOS !in s
    ensures Decode(dec, Encode(enc, s) + tail, []) == s + Decode(dec, tail, [])
    decreases |s|
  {
    if |s| == 0 {
      assert Encode(enc, s) + tail == tail;
    } else {
      var rest := s[1..];
      assert EOS !in rest && forall i :: 0 <= i < |rest| ==> rest[i] in enc by {
        assert forall i :: 0 <= i < |rest| ==> rest[i] == s[i + 1];
      }
      DecodeFirstCode(enc, dec, s, tail);
      DecodeEncodeThen(enc, dec, rest, tail);
      ConsAppend(s, Decode(dec, tail, []));
    }
  }

  /** The code of the end-of-stream byte, as the first code, stops the loop with nothing emitted. */
  lemma DecodeFirstEos(enc: CodeTable, dec: DecodeTable, s: seq<byte>, tail: Code)
    requires Decodes(enc, dec)
    requires forall b :: b in enc ==> |enc[b]| >= 1
    requires forall i :: 0 <= i < |s| ==> s[i] in enc
    requires |s| > 0 && s[0] == EOS
    ensures Decode(dec, Encode(enc, s) + tail, []) == []
  {
    var more := Encode(enc, s[1..]) + tail;
    assert Encode(enc, s) + tail == enc[EOS] + more;
    assert [] + enc[EOS] == enc[EOS];
    DecodeCode(enc, dec, EOS, [], enc[EOS], more);
  }

  /** The code of a first symbol other than the end-of-stream byte decodes to that symbol. */
  lemma DecodeFirstCode(enc: CodeTable, dec: DecodeTable, s: seq<byte>, tail: Code)
    requires Decodes(enc, dec)
    requires forall b :: b in enc ==> |enc[b]| >= 1
    requires forall i :: 0 <= i < |s| ==> s[i] in enc
    requires |s| > 0 && s[0] != EOS
    ensures Decode(dec, Encode(enc, s) + tail, []) == [s[0]] + Decode(dec, Encode(enc, s[1..]) + tail, [])
  {
    var b := s[0];
    var more := Encode(enc, s[1..]) + tail;
    assert Encode(enc, s) + tail == enc[b] + more;
    assert [] + enc[b] == enc[b];
    DecodeCode(enc, dec, b, [], enc[b], more);
  }

  /**
    Bits that stop inside a code decode to nothing: every pattern they
    build is a proper prefix of that code, so none of them matches.
   */
  lemma {:induction false} DecodeInsideCode(enc: CodeTable, dec: DecodeTable, b: byte, p: Code, q: Code)
    requires Decodes(enc, dec)
    requires b in enc && IsPrefix(p + q, enc[b]) && |p + q| < |enc[b]|
    ensures Decode(dec, q, p) == []
    decreases |q|
  {
    if |q| > 0 {
      var p1 := p + [q[0]];
      AppendHead(p, q);
      assert IsPrefix(p1, p + q);
      PrefixOfPrefix(p1, p + q, enc[b]);
      ProperPrefixNotCode(enc, dec, b, p1);
      DecodeInsideCode(enc, dec, b, p1, q[1..]);
    }
  }

  /**
    A stream cut off in the middle of a code, after the codes of s without
    an end-of-stream symbol, decodes to s: the loop returns what it has
    decoded when the bits run out.
   */
  lemma DecodeTruncated(enc: CodeTable, dec: DecodeTable, s: seq<byte>, b: byte, q: Code)
    requires Decodes(enc, dec)
    requires forall a :: a in enc ==> |enc[a]| >= 1
    requires forall i :: 0 <= i < |s| ==> s[i] in enc
    requires EOS !in s
    requires b in enc && IsPrefix(q, enc[b]) && |q| < |enc[b]|
    ensures Decode(dec, Encode(enc, s) + q, []) == s
  {
    DecodeEncodeThen(enc, dec, s, q);
    assert [] + q == q;
    DecodeInsideCode(enc, dec, b, [], q);
  }

  /**
    When the bits end before any end-of-stream code, the loop stops with
    what it has decoded: the encoding of s without an end-of-stream symbol
    decodes to s.
   */
  lemma DecodeEncodeWithoutEos(enc: CodeTable, dec: DecodeTable, s: seq<byte>)
    requires Decodes(enc, dec)
    requires forall b :: b in enc ==> |enc[b]| >= 1
    requires forall i :: 0 <= i < |s| ==> s[i] in enc
    requires EOS !in s
    ensures Decode(dec, Encode(enc, s), []) == s
  {
    DecodeEncodeThen(enc, dec, s, []);
    assert Encode(enc, s) + [] == Encode(enc, s);
  }

  /** A table whose only code is empty never matches: the pattern always holds a bit. */
  lemma {:induction false} DecodeEmptyCodes(dec: DecodeTable, bits: Code, pattern: Code)
    requires forall c :: c in dec ==> |c| == 0
    ensures Decode(dec, bits, pattern) == []
    decreases |bits|
  {
    if |bits| > 0 {
      DecodeEmptyCodes(dec, bits[1..], pattern + [bits[0]]);
    }
  }
}
