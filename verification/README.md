# Huffman coding, modelled in Dafny

A model of the `HuffmanCode` class of `code.cpp`: a Huffman codec over
characters. The constructor counts how often each character occurs. It then
builds a Huffman tree: a min-heap of one leaf per distinct character, from
which the two lightest trees are repeatedly popped and replaced by a parent
weighing their sum. `encode` derives a code table by a depth-first walk
('0' for left, '1' for right, recorded at leaves) and concatenates the codes
of the input. `decode` walks the tree with a cursor. It emits a leaf's
character and returns to the root each time it reaches a leaf.

Modules, one per part of the class:

- `HuffmanTree` (`tree.dfy`): the tree (`Leaf(sym, weight) | Node(left, right, weight)`),
  the error outcomes, the weight invariant, and the multisets of leaf symbols
  and of represented occurrences.
- `Tally` (`tally.dfy`): sums over an input, by position or by distinct symbol.
- `Frequency` (`frequency.dfy`): the counting loop of the constructor.
- `Builder` (`builder.dfy`): the heap order, min-extraction, one merge, the construction loop.
- `CodeTable` (`codes.dfy`): `buildCodes`, root-to-leaf paths and prefix-freedom.
- `Codec` (`codec.dfy`): `encode`, the decoding state machine and the round-trip law.
- `HuffmanCode` (`huffman.dfy`): the constructor and the text form of the bits.

Modelling choices:

- Bits are `seq<bool>`, with `false` for '0' (left) and `true` for '1' (right).
  `RenderBits` and `ParseBits` give the textual form the class returns and
  reads. As in the source, every character other than '0' reads as a right step.
- Internal nodes are a separate constructor instead of carrying the '\0'
  character. The sentinel still matters in two places, and both are kept. A
  leaf labelled '\0' gets no code table entry. The decoder does not treat such
  a leaf as a leaf: its next step is a step to a missing child.
- The order in which the hash map hands out its entries, and which of several
  equally light trees the heap pops first, are both unspecified. The model
  picks them with `:|`, so every proved property holds for all such choices.
- Behaviour the source leaves undefined, or where it silently loses input, becomes an explicit `Result` failure:
  - `EmptyInput`: reading the top of an empty heap, for empty input.
  - `MalformedCode`: following a missing child, i.e. a step out of a leaf.
  - `TruncatedInput`: input that ends with the cursor away from the root.
    The source silently drops the partial code.
  - `UnknownSymbol`: a character without a code. The source's `operator[]`
    would insert an empty code for it.
- A single distinct character is left degenerate, as in the source. The root
  is a leaf and its code is empty, so such an input encodes to nothing and
  decodes to nothing (`Codec.SingleLeafCodec`).

## Model

| member | source | states |
|---|---|---|
| `Frequency.CountFrequencies` | code.cpp:45-49 | the table has an entry exactly for each character of the input, and each count is that character's number of occurrences (at least one) |
| `Frequency.CountsSumToLength` | code.cpp:45-49 | in any iteration order over the table's keys, the counts add up to the input length |
| `Builder.FirstLightest` | code.cpp:22-28 | the scan finds a pool member that the heap comparator places before no other member, i.e. a minimum weight |
| `Builder.PopLightest` | code.cpp:63-66 | `top()`/`pop()` removes one tree no heavier than any tree in the pool and leaves the others, one fewer |
| `Builder.MergeLightest` | code.cpp:61-71 | one iteration shrinks the pool by one; the two removed trees are no heavier than any tree left; the new tree is their parent, with two children and their summed weight, and the other trees stay |
| `Builder.MergeKeepsPool` | code.cpp:63-70 | replacing the two popped trees by their parent keeps the pool's union of any measure by which a parent stands for its two children: the multiset of leaf symbols, and the multiset of represented occurrences |
| `Builder.MergeKeepsWeights` | code.cpp:67-70 | the parent weighs the sum of its children, so every tree of the pool stays well weighted |
| `Builder.InitialPool` | code.cpp:55-59 | one leaf per table entry, weighted by its count, in any order |
| `Builder.BuildHuffmanTree` | code.cpp:53-74 | empty table fails with EmptyInput; otherwise the root keeps the weight invariant, has exactly the table's keys as leaves (each once), stands for exactly the counted occurrences, has one internal node less than the table has entries, and is a leaf exactly when the table has one entry |
| `HuffmanTree.WeightIsBagSize` | code.cpp:67-70 | weight conservation: a tree's weight is the number of occurrences its leaves stand for |
| `HuffmanTree.LeavesOutnumberInternals` | code.cpp:63-70 | since every merge makes one node with two children, a tree has one more leaf than internal nodes |
| `CodeTable.BuildCodes` | code.cpp:76-90 | the walk records an entry exactly for the leaf symbols other than '\0'; internal nodes are never recorded |
| `CodeTable.PathLeadsToLeaf` | code.cpp:88-89 | following a symbol's path ('0' left, '1' right) from the root ends at the leaf with that symbol |
| `CodeTable.BuildCodesRecordsPath` | code.cpp:83-89 | with distinct leaves, the walk started with a code records each leaf's path after that code |
| `CodeTable.CodesArePaths` | code.cpp:94-95 | the table `encode` derives maps each non-'\0' leaf symbol to its root-to-leaf path |
| `CodeTable.PathsPrefixFree` | code.cpp:76-90 | the paths of two different leaf symbols are never prefixes of one another |
| `CodeTable.CodesPrefixFree` | code.cpp:76-90 | the derived code table is prefix-free |
| `CodeTable.CodeLengths` | code.cpp:83-89 | with a root that is not a leaf every code is non-empty; a lone leaf gets the empty code |
| `Codec.EncodeWith` | code.cpp:97-102 | encoding succeeds exactly when every input character has a code; a failure names a character of the input that has none |
| `Codec.EncodeAppend` | code.cpp:97-102 | the encoding of a concatenation is the concatenation of the encodings, in input order |
| `Codec.EncodedLength` | code.cpp:97-102 | the encoded length is the sum over the distinct symbols of frequency times code length |
| `Codec.Run` | code.cpp:110-119 | a successful decode emits at most one character per bit; every failure is MalformedCode or TruncatedInput |
| `Codec.RunEmitsLeaves` | code.cpp:113-116 | from any cursor, every emitted character is a leaf symbol below the cursor or the root, and never '\0' |
| `Codec.Decode` | code.cpp:105-120 | no more decoded characters than bits; every failure is MalformedCode or TruncatedInput; no bits decode to nothing |
| `Codec.DecodeEmitsLeaves` | code.cpp:113-116 | every decoded character is a leaf symbol of the tree, and never '\0' |
| `Codec.DecodeCursor` | code.cpp:105-120 | the loop with a cursor that is reset to the root after each emitted leaf computes the same result as the recursive decoder |
| `Codec.RunFollowsPath` | code.cpp:110-118 | reading a symbol's path from a node above its leaf emits that symbol and leaves the cursor at the root |
| `Codec.DecodeAppend` | code.cpp:108-119 | after a complete decode the cursor is back at the root, so the bits that follow decode on their own |
| `CodeTable.DescendToLeafIsPath` | code.cpp:83-89 | in a tree with distinct leaves, the only path from the root to a leaf is the path the code walk records for that leaf's symbol |
| `Codec.RunIsEncoding` | code.cpp:108-119 | with the cursor where some bits lead from the root, any bits that then decode are exactly what the decoded characters encode to, after those first bits, under any table that maps each leaf symbol to its path |
| `Codec.DecodeIsEncoding` | code.cpp:92-120 | the reverse round trip: for a tree with distinct leaves, a bit string decodes successfully only if it is the encoding of what it decodes to |
| `Codec.RunStopsMidPath` | code.cpp:110-119 | bits that stop partway along a symbol's path, from any cursor at or below the root, leave the cursor away from the root (TruncatedInput) |
| `Codec.TruncatedCode` | code.cpp:105-120 | a proper non-empty prefix of a symbol's code decodes to TruncatedInput, where the source drops the partial code |
| `Codec.RoundTrip` | code.cpp:92-120 | for a tree with distinct leaves whose root is not a leaf, decoding the encoding of an encodable input gives the input back |
| `Codec.SingleLeafCodec` | code.cpp:76-103 | for a single-leaf tree every input over its symbol encodes to no bits, no bits decode to nothing, and any bit is MalformedCode |
| `HuffmanCode.ParseRender` | code.cpp:112 | the text the encoder produces holds only '0' and '1' and reads back as the same bits |
| `HuffmanCode.Build` | code.cpp:43-51 | empty input fails with EmptyInput; otherwise the tree has distinct leaves, exactly the input's characters, weight equal to the input length, and is a leaf exactly when the input has one distinct character; with two or more distinct characters and no '\0', decoding the encoding gives the input back; with one, the encoding is empty |
| `HuffmanCode.BuiltTreeCodec` | code.cpp:92-120 | for a tree whose leaves are exactly the characters of a '\0'-free input: with two or more distinct characters the text encoding decodes back to the input; with one the encoding is empty |
| `HuffmanCode.AabbbccCodes` | code.cpp:76-90 | the written-out tree `AabbbccTree` gets the table 'b' "0", 'a' "10", 'c' "11" |
| `HuffmanCode.AabbbccExample` | code.cpp:92-120 | with `AabbbccTree` "aabbbcc" encodes to the 11 bits 10100001111, which decode back to "aabbbcc" |

## Left out

- `displayCodeTable`, `displayBits` and `main` (code.cpp:122-140, 158-181): console I/O and prompting only.
- `destroyTree` and the destructor (code.cpp:142-156): manual memory release, which immutable datatypes make unnecessary.
- The exact tie-break of `std::priority_queue` and the iteration order of `std::unordered_map`: both unspecified, so they are chosen arbitrarily and no property depends on them; no specific per-symbol code is claimed for built trees.
- Huffman optimality (minimum total weighted code length over all prefix codes): not proved; the model proves the greedy choice of each merge, not the exchange argument.
- Frequency.CountFrequencies: counts are unbounded naturals; the source's `int` counter and `int` weight sums would overflow beyond 2^31 - 1 occurrences, which the model does not reproduce.
- Codec.EncodeWith: a character without a code fails with UnknownSymbol, where the source's `operator[]` inserts an empty code and silently skips it.
- Codec.Run: undefined behaviour (a step to a missing child) is MalformedCode, and a trailing partial code, which the source drops silently, is TruncatedInput.
- HuffmanCode.AabbbccCodes: that `AabbbccTree` is an outcome of the construction for "aabbbcc" (a:2 and c:2 merge first, then b:3 with their parent) follows from the merge rule by hand; no lemma connects it to `Builder.BuildHuffmanTree`, whose tie-breaks are left open.
- Single distinct character: not special-cased (no one-bit code), matching the source; the round-trip law is stated for two or more distinct characters only.
