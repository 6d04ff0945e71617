/**
  compress and decompress: the frequency table of the data plus an
  end-of-stream byte is written as the header, followed by the packed codes
  of the data and the end-of-stream byte; decompress reads the header,
  rebuilds the same tree and decodes greedily until the end-of-stream code.
 */
module Codec {
  import opened Base
  import opened Counter
  import opened Tree
  import opened Builder
  import opened Codes
  import opened Bits
  import opened HeaderFormat
  import opened Decoder

  /**
    The code table both sides derive from a frequency table: the codes of
    the tree built from it. It is prefix-free; its codes are non-empty when
    there are two symbols or more and empty when there is only one.
   */
  function CodeTableOf(m: Table): (enc: CodeTable)
    requires |m| >= 1 && Total(m) < U32_LIMIT
    ensures enc.Keys == m.Keys
    ensures PrefixFree(enc) && Injective(enc)
    ensures |m| >= 2 ==> forall b :: b in enc ==> |enc[b]| >= 1
    ensures |m| == 1 ==> forall b :: b in enc ==> enc[b] == []
  {
    var tree := BuildHuffmanTree(m);
    EncodingMapPrefixFree(tree);
    assert tree.Branch? ==> LeafCount(tree) >= 2 by {
      if tree.Branch? {
        BranchHasTwoLeaves(tree);
      }
    }
    EncodingMap(tree)
  }

  /** What counting the data and the end-of-stream byte gives: used to build the counted table. */
  lemma CounterFacts(data: seq<byte>, input: seq<byte>, counter: Table)
    requires |data| + 1 < U32_LIMIT
    requires input == data + [EOS] && counter == CountBytes(input)
    ensures |counter| >= 1 && Total(counter) == |input| && FitsU32(counter)
    ensures EOS in counter && counter[EOS] >= 1
    ensures forall i :: 0 <= i < |input| ==> input[i] in counter
    ensures forall b :: b in counter ==> b == EOS || b in data
  {
    assert input[|data|] == EOS;
    assert EOS in counter;
    TotalOfCount(input);
    forall b | b in counter ensures counter[b] < U32_LIMIT {
      CountBelowTotalFrom(counter, 0, b);
    }
    forall i | 0 <= i < |input| ensures input[i] in counter {
      assert input[i] in input;
    }
    forall b | b in counter ensures b == EOS || b in data {
      assert b in input;
    }
  }

  /**
    The frequency table compress writes: the counts of the data with the
    end-of-stream byte appended. It has a key for every byte of that input
    and no other, its counts are positive, and they sum to the input length,
    which keeps every count and the total within a u32.
   */
  function Counted(data: seq<byte>): (counter: Table)
    requires |data| + 1 < U32_LIMIT
    ensures |counter| >= 1 && Total(counter) == |data| + 1 && FitsU32(counter)
    ensures EOS in counter && counter[EOS] >= 1
    ensures forall b :: b in counter ==> counter[b] >= 1
    ensures forall i :: 0 <= i < |data| + 1 ==> (data + [EOS])[i] in counter
    ensures forall b :: b in counter ==> b == EOS || b in data
  {
    CounterFacts(data, data + [EOS], CountBytes(data + [EOS]));
    CountBytes(data + [EOS])
  }

  /** Every byte of the data, and the end-of-stream byte, has a code in the table compress builds. */
  lemma DataHasCodes(data: seq<byte>)
    requires |data| + 1 < U32_LIMIT
    ensures forall i :: 0 <= i < |data| ==> data[i] in CodeTableOf(Counted(data))
    ensures EOS in CodeTableOf(Counted(data))
  {
    var enc := CodeTableOf(Counted(data));
    forall i | 0 <= i < |data| ensures data[i] in enc {
      assert (data + [EOS])[i] == data[i];
    }
  }

  /**
    The bits compress packs (encoded_bits): the codes of the data followed
    by the code of the end-of-stream byte.
   */
  function CompressedBits(data: seq<byte>): (r: Code)
    requires |data| + 1 < U32_LIMIT
    ensures forall i :: 0 <= i < |data| ==> data[i] in CodeTableOf(Counted(data))
    ensures EOS in CodeTableOf(Counted(data))
    ensures r == Encode(CodeTableOf(Counted(data)), data) + CodeTableOf(Counted(data))[EOS]
  {
    var enc := CodeTableOf(Counted(data));
    DataHasCodes(data);
    EncodeSnoc(enc, data, EOS);
    Encode(enc, data + [EOS])
  }

  /**
    compress: append the end-of-stream byte, count, build the tree and its
    code table, then write the header followed by the packed codes. The
    header reads back as the counted table, and the payload is never empty.
   */
  function Compress(data: seq<byte>): (r: seq<byte>)
    requires |data| + 1 < U32_LIMIT
    ensures ParseHeader(r).Some?
    ensures ParseHeader(r).value.0 == CountBytes(data + [EOS])
    ensures |ParseHeader(r).value.1| >= 1
  {
    var counter := Counted(data);
    var payload := Pack(CompressedBits(data));
    HeaderRoundTrip(counter, payload);
    Header(counter) + payload
  }

  /**
    decompress: parse the header, rebuild the tree from the parsed table,
    unpack the payload and decode it. A header that runs out of bytes, an
    empty table (no tree to pop) and a total weight that overflows a u32
    are the cases where the original panics; here they give None. The
    output never contains the end-of-stream byte and only holds symbols
    listed in the header.
   */
  function Decompress(compressed: seq<byte>): (r: Option<seq<byte>>)
    ensures r.Some? ==> EOS !in r.value
    ensures r.Some? ==> ParseHeader(compressed).Some?
    ensures r.Some? ==> forall i :: 0 <= i < |r.value| ==> r.value[i] in ParseHeader(compressed).value.0
  {
    match ParseHeader(compressed)
    case None => None
    case Some((counter, payload)) =>
      if |counter| == 0 || Total(counter) >= U32_LIMIT then None
      else
        var enc := CodeTableOf(counter);
        Some(Decode(DecodingMap(enc), Unpack(payload), []))
  }

  /** Appending the end-of-stream byte does not change what precedes the first one. */
  lemma {:induction false} UntilEosAppend(data: seq<byte>)
    ensures UntilEos(data + [EOS]) == UntilEos(data)
    decreases |data|
  {
    if |data| > 0 && data[0] != EOS {
      assert (data + [EOS])[1..] == data[1..] + [EOS];
      UntilEosAppend(data[1..]);
    }
  }

  /** When the counted table has one key, the data holds nothing before its first zero byte. */
  lemma SingleKeyNothingBeforeEos(data: seq<byte>)
    requires |data| + 1 < U32_LIMIT
    requires |Counted(data)| == 1
    ensures UntilEos(data) == []
  {
    var counter := Counted(data);
    if |data| > 0 {
      assert (data + [EOS])[0] == data[0];
      SingletonMembers(counter.Keys, EOS, data[0]);
    }
  }

  /** Decompressing a written header followed by a payload decodes the payload with that table's codes. */
  lemma DecompressAfterHeader(counter: Table, payload: seq<byte>)
    requires |counter| >= 1 && Total(counter) < U32_LIMIT && FitsU32(counter)
    requires EOS in counter ==> counter[EOS] != 0
    ensures Decompress(Header(counter) + payload)
         == Some(Decode(DecodingMap(CodeTableOf(counter)), Unpack(payload), []))
  {
    HeaderRoundTrip(counter, payload);
  }

  /** Decoding the compressed bits, whatever padding follows, gives the data up to its first zero byte. */
  lemma DecodeCompressedBits(data: seq<byte>, stream: Code)
    requires |data| + 1 < U32_LIMIT
    requires IsPrefix(CompressedBits(data), stream)
    ensures Decode(DecodingMap(CodeTableOf(Counted(data))), stream, []) == UntilEos(data)
  {
    var bits := CompressedBits(data);
    PrefixSplit(bits, stream);
    UntilEosAppend(data);
    if |Counted(data)| >= 2 {
      DecodeManySymbols(data, stream[|bits|..]);
    } else {
      SingleKeyNothingBeforeEos(data);
      DecodeEmptyCodes(DecodingMap(CodeTableOf(Counted(data))), stream, []);
    }
  }

  /** With two symbols or more every code is non-empty, and decoding stops at the end-of-stream code. */
  lemma DecodeManySymbols(data: seq<byte>, pad: Code)
    requires |data| + 1 < U32_LIMIT
    requires |Counted(data)| >= 2
    ensures Decode(DecodingMap(CodeTableOf(Counted(data))), CompressedBits(data) + pad, []) == UntilEos(data + [EOS])
  {
    var input := data + [EOS];
    var enc := CodeTableOf(Counted(data));
    assert EOS in input by { assert input[|data|] == EOS; }
    DecodeEncode(enc, DecodingMap(enc), input, pad);
  }

  /**
    End to end: decompressing the compressed data gives back the data up to
    its first zero byte, which compress also uses as its end-of-stream mark.
   */
  lemma RoundTrip(data: seq<byte>)
    requires |data| + 1 < U32_LIMIT
    ensures Decompress(Compress(data)) == Some(UntilEos(data))
  {
    DecompressCompressed(data);
    DecodePayload(data);
  }

  /** Decoding the unpacked payload compress wrote gives the data up to its first zero byte. */
  lemma DecodePayload(data: seq<byte>)
    requires |data| + 1 < U32_LIMIT
    ensures Decode(DecodingMap(CodeTableOf(Counted(data))), Unpack(Pack(CompressedBits(data))), []) == UntilEos(data)
  {
    var bits := CompressedBits(data);
    var stream := Unpack(Pack(bits));
    UnpackPackPrefix(bits);
    DecodeCompressedBits(data, stream);
  }

  /** Decompress reads back the header compress wrote and decodes the unpacked payload with its codes. */
  lemma DecompressCompressed(data: seq<byte>)
    requires |data| + 1 < U32_LIMIT
    ensures Decompress(Compress(data))
         == Some(Decode(DecodingMap(CodeTableOf(Counted(data))), Unpack(Pack(CompressedBits(data))), []))
  {
    var counter := Counted(data);
    var payload := Pack(CompressedBits(data));
    assert Compress(data) == Header(counter) + payload;
    DecompressAfterHeader(counter, payload);
  }

  /**
    Data made only of zero bytes (the empty data included) counts a single
    symbol, whose code is empty: the header has one entry and the payload
    is one zero byte.
   */
  lemma CompressOnlyZeros(data: seq<byte>)
    requires |data| + 1 < U32_LIMIT
    requires forall i :: 0 <= i < |data| ==> data[i] == EOS
    ensures Compress(data) == Header(map[EOS := |data| + 1]) + [0]
  {
    ZerosCounted(data);
    SingleKeyNoBits(data);
    PackEmpty();
  }

  /** Data made only of 0x00 bytes counts as 0x00 alone, once per byte plus the appended one. */
  lemma ZerosCounted(data: seq<byte>)
    requires |data| + 1 < U32_LIMIT
    requires forall i :: 0 <= i < |data| ==> data[i] == EOS
    ensures Counted(data) == map[EOS := |data| + 1]
  {
    var input := data + [EOS];
    assert forall i :: 0 <= i < |input| ==> input[i] == EOS;
    CountRepeated(input, EOS);
  }

  /** With a single counted symbol every code is empty, and so are the bits to pack. */
  lemma SingleKeyNoBits(data: seq<byte>)
    requires |data| + 1 < U32_LIMIT
    requires |Counted(data)| == 1
    ensures CompressedBits(data) == []
  {
    var enc := CodeTableOf(Counted(data));
    EncodeEmptyCodes(enc, data);
  }

  /** For data without a zero byte the round trip gives back the data itself. */
  lemma RoundTripWithoutZero(data: seq<byte>)
    requires |data| + 1 < U32_LIMIT
    requires EOS !in data
    ensures Decompress(Compress(data)) == Some(data)
  {
    RoundTrip(data);
    UntilEosWithoutEos(data);
  }
}
