# Huffman codec model

A Dafny model of the Huffman codec in `src/lib.rs` of huffman-coding. `compress` turns a byte
buffer into a self-describing stream, and `decompress` reads that stream back.

`compress` works in four steps:

1. It appends the end-of-stream byte 0x00 (`EOF_CHARACTER`) and counts every byte value
   (`count_bytes`).
2. It builds a Huffman tree with a min-heap (`build_huffman_tree`). The heap orders nodes by weight,
   and breaks ties by the symbol of the leftmost leaf.
3. It derives each symbol's code as the root-to-leaf path in the tree, with left = 0 and
   right = 1 (`build_encoding_map`).
4. It writes a header, then the payload:
   - the header lists the (symbol, count) entries in ascending symbol order, each as 1 byte plus a
     4-byte big-endian count, and ends with five zero bytes;
   - the payload is the concatenated codes, packed most significant bit first, with the last byte
     zero-padded.

`decompress` parses the header and rebuilds the same tree. It then inverts the code table, unpacks
the payload into bits and decodes greedily until it meets the end-of-stream code.

The model has one module per stage:

| module | file | stage |
|---|---|---|
| `Base` | `base.dfy` | bytes, the u32 bound, `EOS`, `Option`, and sequence helpers |
| `Counter` | `counter.dfy` | `count_bytes`, the ascending key order of the header, and the total of the counts |
| `Tree` | `tree.dfy` | `Node`, `new_leaf`, `get_leftmost_child`, `combine`, and `Ord for Node<u8>` |
| `Builder` | `builder.dfy` | `build_huffman_tree` |
| `Codes` | `codes.dfy` | `build_encoding_map[_recursive]` and the inverted decoding map |
| `Bits` | `bits.dfy` | bit packing in `compress` and bit unpacking in `decompress` |
| `HeaderFormat` | `header.dfy` | the header writer in `compress` and the header parser in `decompress` |
| `Decoder` | `decoder.dfy` | concatenating codes, and the greedy decoding loop |
| `Codec` | `codec.dfy` | `compress`, `decompress` and the end-to-end round trip |
| `Scenario` | `scenario.dfy` | a worked `build_huffman_tree` on three equally frequent bytes, fixing the tie-break |

Representation choices:

- **Values.** Bytes are `int`s from 0 to 255, and bits are `seq<bool>` (false is '0'). Counts and
  weights are `nat`, with the u32 bound stated explicitly wherever the source relies on it.
- **The heap.** It is a sequence of trees (a "forest"), and `PopMin` removes the minimum under the
  source's ordering. The forest's trees never share a symbol, so that ordering is strict on it. As a
  result, the built tree depends only on the heap's contents (`Builder.BuildForestPermutation`). That
  is why HashMap iteration order, modelled as an arbitrary duplicate-free listing of the keys, cannot
  change the tree (`Builder.BuildIndependentOfOrder`).
- **Panics.** The original panics when a header runs out of bytes (`unwrap`), when the table is empty
  (`pop().unwrap()` on an empty heap), and when a weight sum overflows u32 in a debug build. In the
  model, `Codec.Decompress` returns `None` in those three cases.

## Model

| member | source | states |
|---|---|---|
| Counter.CountBytes | src/lib.rs:67-78 | the keys are exactly the bytes that occur in the data; each count is that byte's number of occurrences and is at least 1 |
| Counter.TotalOfCount | src/lib.rs:67-78 | the counts of a counted buffer sum to its length, so with the appended end-of-stream byte the root weight is the data length plus one |
| Counter.SortedKeys | src/lib.rs:144-145 | the header order lists every key of the table exactly once, in strictly ascending byte order |
| Counter.CountRepeated | src/lib.rs:67-78 | a buffer made of one repeated byte counts that byte once per element and nothing else |
| Tree.NewLeaf | src/lib.rs:14-21 | a new leaf is a valid tree carrying exactly the given symbol with the given weight, and is its own leftmost child |
| Tree.LeftmostChild | src/lib.rs:23-30 | following left children ends at a leaf of the tree; for an internal node this is the leftmost leaf of its left child |
| Tree.Combine | src/lib.rs:32-39 | the first node becomes the left child and the second the right child; the weight is their u32 sum; the leaf symbols are the union; the tie-break symbol is the first node's; disjoint valid children give a valid node |
| Tree.Compare | src/lib.rs:41-54 | two nodes compare Equal exactly when their weights and leftmost symbols agree, and Less exactly when the weight is smaller, or equal with a smaller leftmost symbol |
| Tree.CompareAntisymmetric | src/lib.rs:41-54 | swapping the operands swaps Less and Greater |
| Tree.PrecedesTransitive | src/lib.rs:41-54 | the heap order is transitive |
| Tree.DisjointNeverEqual | src/lib.rs:41-54 | nodes whose leaf symbols are disjoint never compare Equal, because their leftmost symbols differ |
| Tree.LeafCountIsLeafSetSize | src/lib.rs:7-12 | in a valid tree every symbol sits at exactly one leaf |
| Tree.BranchHasTwoLeaves | src/lib.rs:32-39 | a valid internal node has at least two leaves |
| Tree.WeightIsSumOfLeaves | src/lib.rs:32-39 | in a valid tree the root weight is the sum of the leaf weights |
| Builder.MinIndex | src/lib.rs:94 | the index popped holds an entry that no other entry precedes |
| Builder.PopMin | src/lib.rs:94-95 | pop takes out one entry that nothing in the heap precedes; the heap shrinks by one and keeps its other entries, symbols and weight; the forest invariant is kept |
| Builder.PopMinStrict | src/lib.rs:94-95 | on a forest the popped entry strictly precedes every remaining entry and shares no symbol with it |
| Builder.MergeStep | src/lib.rs:93-100 | one loop iteration: the heap shrinks by one; the new node's left child is the first entry popped (it precedes every other entry), its right child is the second (it precedes all the rest), and its weight is their sum; the symbols, total weight and forest invariant are kept |
| Builder.MergeStepPicks | src/lib.rs:95-100 | when a precedes every other entry and b every entry but a, the merge step pushes the node with a on the left and b on the right, and leaves the rest of the heap |
| Builder.BuildForest | src/lib.rs:93-102 | merging until one tree is left, then popping it, gives a valid tree over exactly the heap's symbols whose weight is the heap's total |
| Builder.HeapHasNoTies | src/lib.rs:41-54 | no two entries of a forest compare Equal, so exactly one of any two precedes the other |
| Builder.PopMinUnique | src/lib.rs:94-95 | two heaps with the same contents pop the same entry and leave the same contents |
| Builder.BuildForestPermutation | src/lib.rs:86-102 | the built tree depends only on the heap's contents, not on the order in which entries were pushed |
| Builder.ForestWeightPermutation | src/lib.rs:86-90 | the total weight of a heap does not depend on its order |
| Builder.LeavesForest | src/lib.rs:81-84 | a duplicate-free listing of the keys gives an initial heap of leaves with pairwise disjoint symbols, each leaf carrying its key's count |
| Builder.LeavesCover | src/lib.rs:81-84 | the leaves of the initial heap hold exactly the listed keys |
| Builder.LeavesWeight | src/lib.rs:81-84 | the leaves built from the ascending listing of the keys weigh, together, the total of the table's counts |
| Builder.LeavesPermutation | src/lib.rs:81-90 | two duplicate-free listings of the same keys give heaps with the same contents |
| Builder.BuildHuffmanTree | src/lib.rs:80-103 | the tree is valid; its leaves carry exactly the table's keys with their counts; each key labels exactly one leaf; the root weight is the total of the counts |
| Builder.BuildIndependentOfOrder | src/lib.rs:80-103 | building from the keys in any duplicate-free iteration order gives the same tree as the ascending order |
| Codes.CodesFrom | src/lib.rs:113-129 | the recursion records a code for exactly the leaf symbols below the node |
| Codes.CodesFromExtends | src/lib.rs:113-129 | every code recorded below a node extends the path the recursion started from |
| Codes.EncodingMap | src/lib.rs:105-111 | the code table has exactly the tree's symbols as keys; a single-leaf tree gives its symbol the empty code |
| Codes.CodesFromWalk | src/lib.rs:113-129 | every recorded code, read from the node, walks down to the leaf of its symbol |
| Codes.WalkCodesFrom | src/lib.rs:113-129 | in a valid tree, every bit string that walks to a leaf is the code recorded for that leaf's symbol |
| Codes.CodeIsPath | src/lib.rs:105-129 | c is the code of b exactly when walking c from the root ('0' left, '1' right) ends at b's leaf |
| Codes.WalkPrefixFree | src/lib.rs:113-129 | two walks that end at leaves, one extending the other, are the same walk |
| Codes.EncodingMapPrefixFree | src/lib.rs:105-129 | the code table is prefix-free and injective, has one entry per leaf, and every code is non-empty when the root is internal |
| Codes.DecodingMap | src/lib.rs:213-216 | the decoding map inverts the code table: each code maps to its symbol, and each entry of the decoding map comes from the code table |
| Bits.BitsToNat | src/lib.rs:170 | an n-bit string read as a binary numeral, most significant bit first, is below 2^n |
| Bits.BitsOfBitsToNat | src/lib.rs:170 | writing back the number a bit string denotes gives the bits again |
| Bits.BitsToNatBitsOf | src/lib.rs:229-235 | reading back the n low bits of a number below 2^n gives the number again |
| Bits.ByteToBits | src/lib.rs:229-235 | unpacking a byte gives eight bits, and bit i is set exactly when the mask 1 << (7 - i) meets the byte |
| Bits.BitsToByte | src/lib.rs:168-175 | an 8-bit chunk parsed in radix 2 is the byte whose eight bits, most significant first, are the chunk |
| Bits.ByteRoundTrip | src/lib.rs:229-235 | unpacking a byte into its eight bits, most significant first, and packing them back gives the byte |
| Bits.Pack | src/lib.rs:166-181 | the payload has ceil(n/8) bytes for n > 0 bits and exactly one byte for n = 0, so it holds all the bits with less than a byte of padding |
| Bits.Unpack | src/lib.rs:225-238 | every payload byte becomes eight bits |
| Bits.PackEmpty | src/lib.rs:177-181 | an empty bit string packs into the single byte 0 |
| Bits.UnpackPack | src/lib.rs:166-181 | unpacking the packed bits gives the bits followed only by zero padding |
| Bits.UnpackPackPrefix | src/lib.rs:225-238 | the unpacked payload starts with the packed bits |
| Bits.UnpackAt | src/lib.rs:225-238 | bit i of byte k of the payload is read at position 8k + i: the bytes in order, each most significant bit first |
| Bits.PackMsbFirst | src/lib.rs:166-181 | bit i (most significant first) of packed byte k is bit 8k + i of the bit string, or a 0 of the padding past its end |
| Bits.PackUnpack | src/lib.rs:225-238 | packing the unpacked bits of a non-empty payload gives the payload back |
| HeaderFormat.BeBytes | src/lib.rs:151 | n big-endian bytes: byte i is the base-256 digit of weight 256^(n - 1 - i) |
| HeaderFormat.BeValue | src/lib.rs:196-201 | the shift-or loop reads n bytes as a number below 256^n |
| HeaderFormat.BeValueOfBytes | src/lib.rs:151 | reading back the big-endian bytes of a number below 256^n gives the number |
| HeaderFormat.BeBytesOfValue | src/lib.rs:196-201 | writing back a number read from n bytes gives the bytes |
| HeaderFormat.Entries | src/lib.rs:147-155 | each listed symbol takes five bytes |
| HeaderFormat.Header | src/lib.rs:143-157 | a header with k entries is 5k+5 bytes long and ends with the five-byte terminator |
| HeaderFormat.EntriesLayout | src/lib.rs:147-155 | entry i of the listing is the symbol ks[i] at byte 5i, followed by its count as the four big-endian bytes of `to_be_bytes` |
| HeaderFormat.HeaderEntry | src/lib.rs:143-157 | entry i of the header is the i-th smallest key of the table followed by its count in four big-endian bytes |
| HeaderFormat.HeaderLayout | src/lib.rs:143-155 | every entry of the header is a key of the table with its own count in big-endian, and the symbols of the entries strictly ascend, as `header.sort()` orders them |
| HeaderFormat.ParseEntries | src/lib.rs:193-209 | a successful parse leaves a proper suffix of the stream (at least the terminator is consumed), keeps every key it already had, and keeps all counts within a u32 |
| HeaderFormat.ParseHeader | src/lib.rs:193-209 | a parsed table has u32 counts, and the payload is the stream after the terminator |
| HeaderFormat.ParseTerminator | src/lib.rs:203-206 | reading symbol 0 with count 0 ends the header and leaves the rest of the stream |
| HeaderFormat.ParseEntry | src/lib.rs:195-208 | reading back a written entry that is not 0/0 inserts it and continues after its five bytes |
| HeaderFormat.ParseEntriesRoundTrip | src/lib.rs:193-209 | parsing written entries plus the terminator inserts exactly those entries and stops at the payload |
| HeaderFormat.HeaderRoundTrip | src/lib.rs:143-157 | parsing a written header gives back the same table and leaves exactly the bytes after it, when symbol 0 has no zero count |
| Decoder.Encode | src/lib.rs:159-164 | the encoded bits of a non-empty input start with the code of its first byte, and an empty input encodes to no bits |
| Decoder.EncodeAppend | src/lib.rs:159-164 | joining the codes is compositional: the encoding of s followed by t is the encoding of s followed by the encoding of t |
| Decoder.EncodeEmptyCodes | src/lib.rs:160-164 | when every code is empty the encoded bit string is empty |
| Decoder.UntilEos | src/lib.rs:247-249 | the output is the longest prefix of the data without the end-of-stream byte: it holds no 0x00, and the data continues with 0x00 wherever the output stops short |
| Decoder.UntilEosWithoutEos | src/lib.rs:247-249 | data without a 0x00 byte is kept whole |
| Decoder.Decode | src/lib.rs:240-256 | the greedy loop never emits the end-of-stream symbol and only emits symbols of the decoding map |
| Decoder.ProperPrefixNotCode | src/lib.rs:246 | with a prefix-free table, a proper prefix of a code never matches |
| Decoder.DecodeCode | src/lib.rs:243-253 | a pattern that the next bits complete to a code reads exactly those bits, then emits the symbol and restarts, or stops at the end-of-stream symbol |
| Decoder.DecodeEncode | src/lib.rs:240-256 | with a prefix-free table of non-empty codes, decoding codes(s) followed by anything gives s up to its first end-of-stream symbol |
| Decoder.DecodeFirstCode | src/lib.rs:243-253 | a leading code whose symbol is not 0x00 is read whole, emitted, and the loop restarts with an empty pattern |
| Decoder.DecodeFirstEos | src/lib.rs:243-249 | a leading end-of-stream code stops the loop before anything is emitted, whatever bits follow |
| Decoder.DecodeEncodeThen | src/lib.rs:240-256 | the codes of a 0x00-free s, followed by any bits, decode to s followed by what those bits decode to from a fresh pattern (so padding after such codes is decoded as symbols) |
| Decoder.DecodeInsideCode | src/lib.rs:243-246 | bits that stop inside a code decode to nothing, since no proper prefix of a code matches |
| Decoder.DecodeTruncated | src/lib.rs:240-256 | a stream cut off in the middle of a code, after the codes of a 0x00-free s, decodes to s |
| Decoder.DecodeEncodeWithoutEos | src/lib.rs:240-256 | when the bits end before any end-of-stream code, the loop returns what it decoded: codes(s) decodes to s |
| Decoder.DecodeEmptyCodes | src/lib.rs:243-246 | a table whose only code is empty never matches, because the pattern always holds at least one bit |
| Codec.CodeTableOf | src/lib.rs:140-141 | the code table built from a frequency table has exactly its keys, is prefix-free and injective, has non-empty codes for two or more symbols and the empty code for a single symbol |
| Codec.Counted | src/lib.rs:134-139 | the table compress counts has a key for each byte of the data and for 0x00 and no other; its counts are positive and sum to the data length plus one |
| Codec.CompressedBits | src/lib.rs:136-164 | the bits to pack are the codes of the data followed by the code of the appended 0x00; every byte of the data and 0x00 itself have a code |
| Codec.Compress | src/lib.rs:133-187 | the output starts with a header that reads back as the counted table, followed by a non-empty payload |
| Codec.Decompress | src/lib.rs:189-257 | a successful result holds no 0x00 byte and only symbols listed in the header |
| Codec.DecompressAfterHeader | src/lib.rs:193-216 | after a written header, decompress rebuilds the same code table and decodes the unpacked payload with it |
| Codec.DecodeManySymbols | src/lib.rs:240-256 | with two or more symbols, decoding the compressed bits followed by padding stops at the end-of-stream code |
| Codec.RoundTrip | src/lib.rs:133-257 | decompress(compress(d)) is d up to, not including, its first 0x00 byte |
| Codec.RoundTripWithoutZero | src/lib.rs:133-257 | decompress(compress(d)) is d when d has no 0x00 byte, including the empty d |
| Codec.SingleKeyNothingBeforeEos | src/lib.rs:136-139 | when the counted table has a single key, nothing precedes the first 0x00 of the data |
| Codec.CompressOnlyZeros | src/lib.rs:177-181 | data made only of 0x00 bytes, including the empty data, compresses to a one-entry header followed by exactly one zero payload byte |
| Codec.ZerosCounted | src/lib.rs:136-139 | data made only of 0x00 bytes counts as 0x00 alone, with the data length plus one as its count |
| Codec.SingleKeyNoBits | src/lib.rs:140-164 | when the counted table has a single symbol its code is empty, so there are no bits to pack |
| Scenario.TieBreak | src/lib.rs:41-54 | three bytes 97, 98, 99 counted once each build the tree (99, (97, 98)): equal weights are ordered by the leftmost symbol, so 97 and 98 merge first with 97 on the left, and the lone 99, lighter than that node, goes to its left |
| Scenario.TieBreakCodes | src/lib.rs:105-129 | the code table of that tree gives 99 the code 0, 97 the code 10 and 98 the code 11 |

## Left out

- src/main.rs is not part of this model. It is a demonstration with console output, UTF-8 conversion and a floating-point ratio.
- `BinaryHeap` and `Reverse` internals are not modelled. The heap is a sequence, and `PopMin` takes its minimum under the same ordering. Because that ordering is strict on the forest, which minimum is taken never matters.
- HashMap hashing and iteration order are not modelled. Tables are Dafny maps, and an iteration order is any duplicate-free listing of the keys.
- `PartialEq for Node` (src/lib.rs:60-64) is not modelled. It compares weights only, and the heap does not use it.
- The '0'/'1' `String` representation of codes, and `u8::from_str_radix`, are not modelled. Bits are `seq<bool>`, and a chunk's value is its binary reading.
- The header's count parsing uses or-ing into a value shifted left by 8. The model writes this as multiplying by 256 and adding the byte, which is the same since the low 8 bits are zero at that point.
- Codec.Compress: requires that the data length plus one is below 2^32. A longer input would overflow a count in `count_bytes` (src/lib.rs:71) or the weight sum in `combine` (src/lib.rs:35), whose root weight is the data length plus one; a debug build panics at either.
- Codec.Decompress: a table whose counts sum to 2^32 or more makes a weight sum overflow in `combine`. A debug build panics there, and the model returns `None`. A release build would wrap around and go on with wrapped weights, which is not modelled.
- Codec.Decompress: the other panics, a truncated header and an empty table (header made only of the terminator), are modelled as `None` rather than as aborts.
