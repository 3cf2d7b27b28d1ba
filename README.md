# HIMG Huffman coder, modelled in Dafny

HIMG's entropy coder compresses a block of bytes using a Huffman code
over a 261-symbol alphabet:

- symbols 0-255 stand for literal bytes;
- symbols 256-260 stand for runs of zero bytes. A run is 2, 3-6, 7-22,
  23-278 or 279-16662 bytes long. The run symbol's code is followed by
  0, 2, 4, 8 or 14 extra bits that give the length within its bucket.

A compressed block has this layout:

1. The tree, written depth first. A leaf is a 1 bit and then its 9-bit
   symbol. A branch is a 0 bit, then child A, then child B.
2. The code of every token of the block, each followed by its extra bits.

Bits are packed least-significant bit first into bytes. The decoder reads
the tree back into a node arena and a 256-entry lookup table. It decodes
symbols through the table, and walks the tree for codes longer than eight
bits. It succeeds only if the output buffer is filled exactly and the input
ends in the last byte.

The model follows the source file by file:

- `bits.dfy` (module `Bits`): the bit-level vocabulary. A byte buffer is
  one long sequence of bits, least-significant bit first. Shifts and masks
  become multiplication, division and remainder by powers of two.
- `bitstream.dfy` (module `Bitstream`): `InBitstream` and `OutBitstream`.
  Both are classes whose methods update a byte/bit position, as in the
  source.
- `tokens.dfy` (module `Tokens`): the zero-run tokenisation that both
  `Histogram` and `Compress` perform. It is a reference function
  (`Tokenise`) together with the imperative `Histogram`.
- `tree.dfy` (module `HuffTree`): the tree as a value. It defines the
  tree's serialisation, leaf paths and codes, the decoder's bit-by-bit
  walk, and `ParseTree`, which is what `RecoverTree` reads.
- `encoder.dfy` (module `Encoder`): `MakeTree` (leaf placement, the
  two-lightest search, joining, `StoreTree`), the bubble sort, and the
  encoding loop of `Compress`. These operate on an `EncodeNode` array, a
  `SymbolInfo` array and an `OutBitstream`.
- `decoder.dfy` (module `Decoder`): `RecoverTree` on a `DecodeNode` array
  and a lookup-table array. It also holds the table lookup and its slow
  path, the run-length switch, and `SpecUncompress`, a functional
  reference decoder.
- `huffman.dfy` (module `Huffman`): `MaxCompressedSize`, `Compress` and
  `Uncompress`.
- `roundtrip.dfy` (module `RoundTrip`): what `Uncompress` makes of what
  `Compress` writes.
- `sizebound.dfy` (modules `PathLength` and `SizeBound`): how many bits
  the codes of a tree must take on the whole, and a block for which
  `Compress` writes more than `MaxCompressedSize` bytes.

Child B's code is `code + (1 << bits)`. With least-significant-first
packing that is the path bit 1 at depth `bits`, so each leaf's code is
its path from the root, read least-significant bit first
(`HuffTree.Path`).

The output bound `MaxCompressedSize(n) = n + 359` that callers are told to
provide does not hold for every block (see Findings). The bound `Compress`
does meet is `CompressRoom(n) = 359 + 35n` bytes, and `Compress` asks for
that much room.

## Model

| member | source | states |
|---|---|---|
| Bitstream.InBitstream.constructor | src/huffman.cpp:41-42 | a new input stream is at bit 0 of its buffer |
| Bitstream.InBitstream.ReadBit | src/huffman.cpp:45-62 | returns the bit at the current position and advances the position by exactly one bit, moving to the next byte after bit 7 |
| Bitstream.InBitstream.ReadBits | src/huffman.cpp:65-95 | returns the value of the next n bits, least-significant first, across byte boundaries, and advances by exactly n bits |
| Bitstream.InBitstream.ReadStep | src/huffman.cpp:76-87 | one pass of the ReadBits loop: or-ing the masked chunk of the current byte in at `shift` gives the value of the first shift+k bits |
| Bitstream.InBitstream.Peek8Bits | src/huffman.cpp:98-101 | returns the value of the eight bits at the current position, the second byte included, without moving |
| Bitstream.InBitstream.Advance | src/huffman.cpp:104-108 | moves the position forward by exactly n bits |
| Bitstream.InBitstream.AtTheEnd | src/huffman.cpp:110-115 | true exactly when the bits read so far, rounded up to bytes, are the whole buffer |
| Bitstream.OutBitstream.constructor | src/huffman.cpp:126-127 | a new output stream has written nothing and is at bit 0 |
| Bitstream.OutBitstream.WriteBits | src/huffman.cpp:130-149 | the bits written so far become the old ones followed by the low n bits of x, least-significant first; the position grows by n; every bit beyond the new position is untouched |
| Bitstream.OutBitstream.WriteStep | src/huffman.cpp:138-143 | one pass of the WriteBits loop sets the bit at the position to the low bit of x and keeps every later bit |
| Bitstream.OutBitstream.Size | src/huffman.cpp:151-157 | the number of bits written, rounded up to whole bytes |
| Bits.SetBit | src/huffman.cpp:138 | the byte's bits with bit j replaced by v and the other seven kept |
| Bits.WriteOneBit | src/huffman.cpp:138-143 | setting bit p appends v to the bits before p and changes no other bit of the buffer |
| Bits.SameFromTail | src/huffman.cpp:151-157 | when two buffers agree on every bit from p on, they agree on every byte from the first one that holds no bit before p |
| Bits.EightBits | src/huffman.cpp:99-100 | the eight bits at p are the 16-bit window of bytes p/8 and p/8+1 shifted down by p%8 |
| Tokens.ZeroRunIsMaximal | src/huffman.cpp:207-210 | the run is all zeros and stops only at 16662, at the end of the block or at a nonzero byte |
| Tokens.ScanZeros | src/huffman.cpp:205-210 | the run-scanning loop returns a run of 1 to 16662 zeros that is maximal, equal to ZeroRun |
| Tokens.TokenAt | src/huffman.cpp:201-228 | each token covers 1 to 16662 bytes that are inside the block |
| Tokens.TokenAtCovers | src/huffman.cpp:201-228 | a token expands to exactly the bytes it covers; a nonzero byte is a literal; a zero is a literal exactly when its run has length 1; a run is maximal |
| Tokens.RunBuckets | src/huffman.cpp:211-223 | a run of c zeros gets symbol 256, 257, 258, 259 or 260 exactly when c is 2, 3-6, 7-22, 23-278 or 279-16662, and c minus the bucket base fits the extra bits |
| Tokens.TokenFits | src/huffman.cpp:24-29 | every token's symbol is below 261, its extra value fits its 0/2/4/8/14 bits, and it is a literal exactly when the symbol is below 256 |
| Tokens.ZeroCountSymbolIsSymbol | src/huffman.cpp:211-223 | the histogram's bucket choice for a run gives the token's symbol |
| Tokens.TokeniseFlatten | src/huffman.cpp:201-229 | the tokens from position k expand to exactly the bytes from k, so token lengths sum to the block size |
| Tokens.TokensAtMostBytes | src/huffman.cpp:201-229 | every token covers at least one byte, so a block has no more tokens than bytes |
| Tokens.TokeniseRoundTrip | src/huffman.cpp:201-229 | the tokens of a block expand back to the block |
| Tokens.ZeroBlockTokens | src/huffman.cpp:205-224 | a block of n zeros is one literal 0 (n = 1), one run (n up to 16662), or a maximal run followed by the tokens of the rest |
| Tokens.ShiftTokenise | src/huffman.cpp:419-460 | tokenising the rest of a block from k gives the same tokens as tokenising that rest on its own |
| Tokens.EmittedSymbolsCounted | src/huffman.cpp:419-460 | every token the encoding loop emits has a nonzero histogram count |
| Tokens.CountOneMore | src/huffman.cpp:212-226 | incrementing a token's symbol count keeps the table equal to the occurrence counts of the tokens so far |
| Tokens.CountToken | src/huffman.cpp:202-228 | one pass of the histogram loop counts the next token and steps over exactly the bytes it covers |
| Tokens.Histogram | src/huffman.cpp:191-230 | entry s holds symbol s, the number of tokens of the block with symbol s, and code and bits 0 |
| HuffTree.ParseTree | src/huffman.cpp:327-380 | a parsed tree uses exactly Size(tree) arena nodes from n on, and never more than 521 |
| HuffTree.SizeOfTree | src/huffman.cpp:31-36 | a tree has 2L-1 nodes and a description of 11L-1 bits for L leaves |
| HuffTree.FitsArena | src/huffman.cpp:31-32 | a tree over distinct symbols below 261 has at most 261 leaves and 521 nodes |
| HuffTree.PathBound | src/huffman.cpp:262-265 | every code is shorter than the number of leaves |
| HuffTree.ParseSerialize | src/huffman.cpp:234-380 | reading StoreTree's description back gives the same tree, consumes exactly its bits, and uses Size(t) nodes |
| HuffTree.ParseLeaf | src/huffman.cpp:343-361 | a 1 bit and a 9-bit symbol parse as that leaf in one node |
| HuffTree.ParseBranchOf | src/huffman.cpp:372-379 | a 0 bit followed by parses of child A and child B parses as their branch |
| HuffTree.ParseBranchFailsA | src/huffman.cpp:372-373 | a branch whose child A fails to parse fails |
| HuffTree.ParseBranchFailsBOf | src/huffman.cpp:375-377 | a branch whose child B fails to parse fails |
| HuffTree.WalkPath | src/huffman.cpp:500-508 | walking the tree over a leaf's path reaches that leaf and consumes exactly the path |
| HuffTree.PathsPrefixFree | src/huffman.cpp:261-265 | in a tree with distinct leaves no leaf's code is a prefix of another's |
| HuffTree.DistinctChildren | src/huffman.cpp:261-265 | the two children of a branch share no symbol |
| Encoder.SortBySymbol | src/huffman.cpp:405-416 | the bubble sort leaves the table sorted by symbol and a permutation of itself, and unchanged when it is sorted already |
| Encoder.SortPass | src/huffman.cpp:408-415 | one pass keeps a permutation, settles one more element at the end, and reports a swap exactly when it changed something |
| Encoder.PassStep | src/huffman.cpp:409-414 | comparing and possibly swapping neighbours k and k+1 keeps the pass invariant |
| Encoder.PassSwap | src/huffman.cpp:410-413 | a swap keeps the multiset and moves the larger symbol up |
| Encoder.PassEnd | src/huffman.cpp:408-416 | at the end of a pass the table is a permutation, one more element is settled, and no swap means sorted and unchanged |
| Encoder.PlaceLeaves | src/huffman.cpp:272-281 | node i is the leaf node (no children, its count, its symbol) of the i-th symbol with a nonzero count, and there is one node per such symbol (`InSymbolOrder`, by `Rank`); the nodes are all active and their counts sum to the block's total |
| Encoder.PlaceOne | src/huffman.cpp:273-280 | one pass of the placement loop appends the leaf node of symbol k exactly when its count is nonzero, and keeps every earlier node |
| Encoder.PlacedInOrder | src/huffman.cpp:273-280 | appending the leaf of the next counted symbol, or nothing for an uncounted one, keeps node i the leaf of the i-th counted symbol |
| Encoder.UsedLeavesCount | src/huffman.cpp:272-281 | the placed leaves hold each counted symbol once and nothing else |
| Encoder.FindTwoLightest | src/huffman.cpp:290-301 | returns two distinct active nodes, n1 of least count and n2 of least count among the others |
| Encoder.JoinNodes | src/huffman.cpp:304-312 | a join keeps the forest, the leaves of the active trees and the total count, and leaves one active node fewer |
| Encoder.Joined | src/huffman.cpp:304-311 | after a join, a parent with the two counts summed is appended, the two children's counts are 0, and all other nodes are unchanged |
| Encoder.JoinAt | src/huffman.cpp:304-311 | writes the join into the node array exactly as Joined describes |
| Encoder.JoinTrees | src/huffman.cpp:285-313 | joining stops with one tree of 2n-1 nodes whose leaves are the symbols placed and whose count is the total; the root is null exactly when at most one symbol was placed |
| Encoder.BuildTree | src/huffman.cpp:270-313 | the tree built has exactly the counted symbols as leaves, 2L-1 nodes and the total count at its root, and the root is null exactly when at most one symbol is counted |
| Encoder.StoreLeaf | src/huffman.cpp:240-255 | writes 1 and the 9-bit symbol, and stores the code and length in the symbol's table entry only |
| Encoder.StoreTree | src/huffman.cpp:234-266 | appends exactly Serialize(t) to the stream and gives every leaf of t the code prefix + path, leaving other entries unchanged |
| Encoder.StoreBranch | src/huffman.cpp:256-265 | writes 0, then child A with code bit 0 at `bits`, then child B with code plus 1 << bits |
| Encoder.CodesOfBranch | src/huffman.cpp:261-265 | the codes both children store make up the codes of the branch |
| Encoder.TreeOfTable | src/huffman.cpp:269-323 | a tree of the counted symbols has distinct symbols below 261, fits the 359-byte description bound, and is a leaf exactly when one symbol is counted |
| Encoder.StoredCodes | src/huffman.cpp:317-323 | storing from the root with code length 0, or 1 for a single leaf, gives every counted symbol its Code |
| Encoder.MakeTree | src/huffman.cpp:269-324 | builds a tree of exactly the counted symbols, appends its description to the stream, and gives each counted symbol its code (a 1-bit code 0 when it is the only one); every buffer bit after the description is untouched |
| Encoder.CodesOfTable | src/huffman.cpp:403-416 | after MakeTree the table is still sorted by symbol and holds every leaf's code |
| Encoder.EncodeTokenBound | src/huffman.cpp:419-460 | one token takes at most 274 bits: a code shorter than 261 bits plus at most 14 extra bits |
| Encoder.EncodingStep | src/huffman.cpp:419-460 | one token of the encoding loop advances the scan and appends exactly that token's bits |
| Encoder.EncodeTokensAppend | src/huffman.cpp:419-460 | the bits of the tokens so far plus one more are the old bits followed by that token's code and extra bits |
| Encoder.WriteCode | src/huffman.cpp:457 | writes exactly the table's code for the symbol |
| Encoder.RunEncoding | src/huffman.cpp:429-454 | the bucket of a run gives its token's symbol, and the written count `zeros - base` is the token's extra value |
| Encoder.WriteRun | src/huffman.cpp:423-455 | a run writes its symbol's code and its count in the bucket's extra bits, and steps over the run |
| Encoder.WriteToken | src/huffman.cpp:420-459 | one token writes exactly its code and extra bits, steps over the bytes it covers, and leaves every later buffer bit untouched |
| Encoder.EncodeBlock | src/huffman.cpp:419-460 | the encoding loop appends exactly the encoding of all tokens of the block, and every buffer bit beyond the final position is untouched |
| Encoder.EmittedRoom | src/huffman.cpp:419-460 | before each pass of the encoding loop the next token has a leaf, and its bits fit in the room left |
| Encoder.EncodeTokensBound | src/huffman.cpp:419-460 | the tokens of a block take at most 274 bits each |
| Encoder.EmittedAll | src/huffman.cpp:419-460 | at the end of the block the bits written are those of all its tokens |
| Encoder.TreeForDataCodable | src/huffman.cpp:398-401 | every token of the block has a leaf in the tree built from its histogram |
| Huffman.TreeDescriptionFits | src/huffman.cpp:384-386 | the description of any tree over distinct symbols below 261 fits in MaxCompressedSize(0) = 359 bytes, the tree-description part of the bound |
| Huffman.SomeSymbolCounted | src/huffman.cpp:390-398 | a nonempty block counts at least one symbol, so MakeTree has a leaf |
| Huffman.HistogramTree | src/huffman.cpp:398-401 | a tree of the histogram's counted symbols has exactly the block's token symbols as leaves |
| Huffman.Compress | src/huffman.cpp:388-464 | an empty block returns 0 and writes nothing; otherwise out starts with the tree description and every token's bits, the result is their length in bytes, the spare bits of the last byte and every byte after it are untouched, and the result is at most CompressRoom(n) |
| Huffman.CompressedFitsRoom | src/huffman.cpp:388-464 | what Compress writes for a block of n bytes takes at most 359 + 35n bytes: at most 359 for the tree description and one token of at most 274 bits per byte |
| Huffman.Compressed | src/huffman.cpp:462-463 | the stream's bits and size make up what CompressedAs describes |
| Decoder.ArenaHolds | src/huffman.cpp:327-380 | the arena written for t from node i links each branch to its children and each leaf to its symbol |
| Decoder.ArenaFrame | src/huffman.cpp:333-335 | nodes outside a subtree's range are untouched |
| Decoder.BranchArena | src/huffman.cpp:333-379 | child A's nodes, then child B's nodes, then the completed branch node make up the branch's arena |
| Decoder.LutEntryFor | src/huffman.cpp:348-370 | the table entry for an 8-bit value consumes between d and 8 bits, and exactly 8 when it points into the tree |
| Decoder.LutWalkLeaf | src/huffman.cpp:492-496 | a terminal entry gives the symbol and the position that a walk of the tree gives |
| Decoder.LutWalkNode | src/huffman.cpp:497-508 | a non-terminal entry leaves the walk at the subtree eight bits down |
| Decoder.LutHolds | src/huffman.cpp:363-370 | a non-terminal entry points at an arena node that holds a branch at depth 8 |
| Decoder.SlotOfChild | src/huffman.cpp:363-377 | the slots matching (code, bits) split into those of child A and child B, which are disjoint |
| Decoder.FilledBranchAt | src/huffman.cpp:363-377 | the branch's table entry for one value is what its children fill |
| Decoder.LutFilledBranch | src/huffman.cpp:363-377 | the table after the depth-8 entry and both children is the table filled for the branch |
| Decoder.LeafFillStep | src/huffman.cpp:352-357 | one pass of the duplication loop writes slot (i << bits) \| code |
| Decoder.LeafFillDone | src/huffman.cpp:348-357 | the 256 >> bits copies fill exactly the slots whose low bits are the leaf's code |
| Decoder.RecoverLeaf | src/huffman.cpp:348-357 | fills every table slot whose low bits are the code with the symbol and length, and no other slot |
| Decoder.RecoverTree | src/huffman.cpp:327-380 | succeeds exactly when ParseTree does, and then its tree, bit position and node count are ParseTree's, the arena holds the tree, and the table is filled for it |
| Decoder.RecoverBranch | src/huffman.cpp:363-379 | the same, for a 0 bit: depth-8 entry, child A, child B |
| Decoder.RecoverChildB | src/huffman.cpp:375-379 | the same, after child A: child B, then the branch node linked to both children |
| Decoder.FilledFromRoot | src/huffman.cpp:481 | filling from the root with the empty code sets every one of the 256 entries, whatever they held |
| Decoder.DecodeSymbol | src/huffman.cpp:492-509 | the table lookup and its slow path give the symbol and the position that a walk of the tree gives |
| Decoder.WalkArena | src/huffman.cpp:500-508 | the arena walk reads one bit per branch and ends at the leaf the tree walk reaches |
| Decoder.ReadZeroCount | src/huffman.cpp:517-543 | run symbols 256-260 give base plus extra bits and advance past them; any other symbol is reported unknown |
| Decoder.FillZeros | src/huffman.cpp:545-548 | writes count zeros at `from` and leaves every other byte |
| Huffman.DecodeToken | src/huffman.cpp:487-549 | one pass of the decoding loop succeeds exactly when Step does, then appends its output and moves to its position |
| Huffman.DecodeBlock | src/huffman.cpp:486-550 | the decoding loop succeeds exactly when DecodeFrom does, then out holds its output |
| Huffman.Uncompress | src/huffman.cpp:466-554 | true exactly when SpecUncompress accepts the input, and out then holds its result; an empty input is accepted exactly for an empty output |
| RoundTrip.EncodeTokensArePaths | src/huffman.cpp:261-265 | with a branch at the root every token is coded by its leaf's path |
| RoundTrip.WalkToken | src/huffman.cpp:492-509 | the decoder's walk over a token's code reaches its symbol, just before its extra bits |
| RoundTrip.TokenOutput | src/huffman.cpp:511-548 | a token's symbol and extra bits produce the token's bytes |
| RoundTrip.DecodeOneToken | src/huffman.cpp:487-549 | one decoding step over a token's bits produces its bytes and consumes exactly its bits |
| RoundTrip.DecodeTokens | src/huffman.cpp:486-550 | decoding the tokens' bits yields their bytes and ends right after the bits |
| RoundTrip.CodedLayout | src/huffman.cpp:477-481 | the tree description at the start of the buffer parses back as the tree, and the token bits follow it |
| RoundTrip.DecodeCodedTokens | src/huffman.cpp:466-554 | a buffer of exactly the description and the tokens' path codes uncompresses to the tokens' bytes |
| RoundTrip.PathCodedRoundTrip | src/huffman.cpp:466-554 | a block coded with path codes (none for a single leaf) after its tree description uncompresses to the block, whatever the tree |
| RoundTrip.BranchIffTwoSymbols | src/huffman.cpp:269-324 | the tree built for a block has a branch at its root if and only if the block's tokens use two different symbols |
| RoundTrip.CompressRoundTrip | src/huffman.cpp:388-554 | what Compress writes for a block with at least two distinct symbols uncompresses to the block |
| RoundTrip.SingleLeafTokens | src/huffman.cpp:317-323 | with a single literal leaf every token is that literal |
| RoundTrip.SingleLeafLengths | src/huffman.cpp:317-323 | with a single literal leaf Compress spends one bit per byte |
| RoundTrip.DecodeSingleLeaf | src/huffman.cpp:348-357 | with a single leaf the decoder reads no bits per byte |
| RoundTrip.SingleLiteralRoundTrip | src/huffman.cpp:317-323 | what Compress writes for a block of one literal symbol uncompresses exactly when the block has at most 6 bytes, and then to the block |
| RoundTrip.OneLeafTree | src/huffman.cpp:320-322 | a tree whose only leaf is s is the leaf s |
| RoundTrip.SevenOnesDoNotRoundTrip | src/huffman.cpp:317-323 | seven bytes of value 1 get a single-leaf tree, and what Compress writes for them does not uncompress |
| PathLength.OthersCount | src/huffman.cpp:269-313 | the leaves other than r and the leaves of r add up to all leaves |
| PathLength.OtherDepthsBound | src/huffman.cpp:269-313 | in any binary code tree at most 2^m leaves lie m levels deep or less, so the leaves other than r lie at least m + 1 levels deep each, less 2^m in all, plus one when r has a leaf |
| PathLength.DeepLeaves | src/huffman.cpp:269-313 | in a tree of at least 257 leaves, one of them r, the other leaves lie at least 2049 levels deep in all |
| PathLength.PathBitsCons | src/huffman.cpp:419-460 | one more token adds one to the weight of its leaf and its leaf's depth to the code bits |
| PathLength.WeightedBound | src/huffman.cpp:419-460 | when every symbol other than r occurs at least f times, the tokens take at least f code bits per level of every leaf other than r |
| SizeBound.EncodedAtLeast | src/huffman.cpp:419-460 | with a branch at the root, the tokens' codes take at least the sum of their leaves' depths |
| SizeBound.SweepTokensFrom | src/huffman.cpp:201-229 | that block tokenises to one literal per byte of the sweep, then one run of two zeros |
| SizeBound.SweepOccurrences | src/huffman.cpp:191-230 | in that block each of symbols 0-255 occurs f times, symbol 256 once, and no other symbol |
| SizeBound.SweepTree | src/huffman.cpp:269-324 | the tree built for that block has 257 distinct leaves, symbol 256 among them once, and every other leaf occurs at least f times |
| SizeBound.SweepBits | src/huffman.cpp:388-464 | Compress's bits for that block number at least 2826 + 2049f, whatever tree it builds |
| SizeBound.SweepOvershoots | src/huffman.cpp:384-386 | for f of 63 or more, what Compress writes for that block is longer than MaxCompressedSize of its length |

## Left out

- Huffman.Compress: requires CompressRoom(n) = 359 + 35n bytes of output
  room, not MaxCompressedSize(n) = n + 359. With only n + 359 bytes the
  source writes past the end of out for some blocks (see Findings). That
  write is undefined behaviour, which the model does not describe.
- Huffman.MaxCompressedSize: plain `int`. The 32-bit overflow of
  `uncompressed_size + 359` is not modelled.
- Huffman.Uncompress: does not model the source ignoring RecoverTree's
  result. A description that needs more than 521 nodes makes the source
  write past its node array, which is undefined behaviour. The model
  treats that as failure.
- Huffman.Uncompress: the source reads past the end of its input in
  Peek8Bits and in the decoding loop. The model reads such bytes as zero.
  Its answer then depends only on AtTheEnd, as in the source when the
  bytes past the end happen to be zero.
- Codes, bit lengths and `1 << bits` are unbounded naturals. The source's
  32-bit `code` and its shift overflow for codes deeper than 31 bits are
  not modelled. Bitstream.InBitstream.ReadBits requires n <= 32, the width
  of its result.
- Arrays are allocated initialised. The source's uninitialised node array,
  lookup table and output bytes are not modelled, and nothing in the model
  reads them before writing.
- The node arrays hold indices instead of pointers (`-1` for null). The
  decoder's arena and the encoder's node array therefore do not model
  pointer aliasing.
- Encoder.MakeTree: the source calls the tree it builds optimal (the
  comment on `SymbolInfo`, src/huffman.cpp:165), but the model does not state optimality
  (minimal weighted path length). MakeTree's contract allows any tree over
  the counted symbols; only `FindTwoLightest` is specified by the two
  smallest counts.
- `LIKELY`/`UNLIKELY` branch hints, the benchmark, the file and memory
  handling around the coder, and all I/O are not part of this model.

## Findings

| source | as written | input that shows it | evidently intended | confidence | as-written member | corrected member |
|---|---|---|---|---|---|---|
| src/huffman.cpp:384-386 | MaxCompressedSize(n) = n + 359 is the output room callers of Compress are told to provide | the bytes 0, 1, ..., 255 repeated 63 times, then two zero bytes (16130 bytes, 257 symbols): any tree for it codes the 256 literals 2049 levels deep in all, so Compress writes at least 2826 + 2049 * 63 bits, more than 8 * (16130 + 359) | Compress's output always fits in MaxCompressedSize(n) bytes | not executed | SizeBound.SweepOvershoots | Huffman.CompressedFitsRoom |
| src/huffman.cpp:317-323 | with a single symbol, MakeTree gives it the 1-bit code 0, but RecoverTree's lookup table gives the leaf a length of 0 bits, so the decoder reads no bits per symbol; for more than six bytes the input is then not at its end and Uncompress returns false | seven bytes of value 1: Compress writes 10 + 7 = 17 bits (3 bytes), the decoder stops after bit 10 in byte 2, AtTheEnd is false | a single-symbol block uncompresses to itself: the encoder should write no bits per symbol (code length 0, as the decoder reads it) | not executed | RoundTrip.SevenOnesDoNotRoundTrip | RoundTrip.PathCodedRoundTrip |
