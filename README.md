# Huffman coding engine, modelled in Dafny

This project models the Huffman coding engine of `huffmanv2.py`. Two classes make up that engine:

- `HuffmanNode` is a tree node. It holds a character (None on internal nodes) and a count, plus the two children. Nodes compare by count alone.
- `HuffmanCoding` runs the compression pipeline:
  1. It counts each character of the text.
  2. It pushes one leaf per distinct character into a binary min-heap.
  3. It repeatedly pops the two lightest nodes and pushes their parent, until one node, the root, is left.
  4. It walks the tree to record a code for every character ("0" to the left, "1" to the right) and the reverse entry for every code.
  5. It joins the codes of the text's characters.

  Decompression appends the bits one at a time to a buffer. Whenever the buffer is a key of the reverse table, it emits that key's character and empties the buffer.

The files:

- `nodes.dfy` (module `Nodes`):
  - The node as a datatype `Leaf(ch, freq) | Internal(freq, left, right)` and the count order.
  - What a tree accounts for: its leaves, its symbols, and its occurrences (each leaf's character repeated as many times as its count says).
  - Sums over a forest, which are invariant under reordering.
- `heapq.dfy` (module `HeapQ`): the list-backed binary min-heap. Push sifts up. Pop moves the last node to the root and sifts it down.
- `codes.dfy` (module `Codes`):
  - The code table and the reverse table that the recursive walk records.
  - The encoding join and the bit-by-bit decoder, written as functions.
  - Prefix-freeness, the round trip, and the length of an encoding.
- `huffman.dfy` (module `Huffman`):
  - The `HuffmanCoding` class. Its fields `codes`, `reverseMapping` and `root` are updated in place by the methods, each of which is proved against the functions above.
  - The lemmas that connect the pipeline's steps.

Some behaviours of `huffmanv2.py` lose information or hide errors. They are reproduced as written:

- **Single distinct character.** No merge happens and the only code is the empty string. Compressing "aaaa" gives "", and decompressing "" gives "", so the text cannot be recovered from its encoding.
- **Trailing bits.** A buffer left unmatched when the bits run out is dropped silently. A truncated stream decodes without any error, to a shorter text. A corrupted stream also decodes without any error, to whatever characters its bits happen to spell.
- **Tables are never cleared.** `codes` and `reverse_mapping` are extended, never cleared. An entry left by an earlier text can match first and break a later round trip.
- **Empty text.** The heap is empty, so `heap[0]` raises IndexError. That failure is the `Failure(IndexError)` result here.

## Model

| member | source | states |
|---|---|---|
| Nodes.LessIsStrictWeakOrder | huffmanv2.py:21-22 | comparing by count is irreflexive and transitive, and equal counts are incomparable: the order a binary heap needs |
| Nodes.InternalNodesOneFewerThanLeaves | huffmanv2.py:53-55 | every merge makes one internal node with two children, so a tree has one internal node fewer than it has leaves |
| Nodes.SymbolsCountLeaves | huffmanv2.py:43 | every leaf carries exactly one character |
| Nodes.FreqIsOccurrenceCount | huffmanv2.py:53 | frequency conservation: in a tree whose internal counts are the sums of their children's, the root's count is the number of character occurrences below it |
| Nodes.BelowIsTransitive | huffmanv2.py:53-55 | a node strictly inside a tree has only nodes of that tree below it |
| Nodes.SymbolHasLeaf | huffmanv2.py:43-45 | every character a tree accounts for is carried by one of its leaves |
| Nodes.LeafFreqIsOccurrences | huffmanv2.py:14-15 | when no character labels two leaves, a leaf's count is the number of occurrences of its character in the whole tree |
| Nodes.GatherPermutation | huffmanv2.py:48-56 | any sum over the heap's nodes depends only on the heap's contents as a bag, not on where the heap keeps them |
| HeapQ.RootIsMinimal | huffmanv2.py:50-51 | the node at the top of a min-heap has the least count |
| HeapQ.HeapPush | huffmanv2.py:56 | after a push the list is still a min-heap, holds the old nodes plus the new one, and is one longer |
| HeapQ.HeapPop | huffmanv2.py:50-51 | a pop returns a node of least count and leaves a min-heap one shorter holding all the other nodes |
| Codes.CodeTable | huffmanv2.py:61-70 | every code the walk records below a node extends the code that reached the node, and is strictly longer below an internal node |
| Codes.ReverseTable | huffmanv2.py:61-70 | every key of the reverse entries recorded below a node extends the code that reached the node, and is strictly longer below an internal node |
| Codes.CodeTableKeys | huffmanv2.py:61-70 | the walk records a code for exactly the characters on the leaves |
| Codes.CodeIsLeafPath | huffmanv2.py:61-70 | a character's code, read after the prefix, is the 0/1 path from the root to a leaf carrying that character |
| Codes.ReverseTablePrefixFree | huffmanv2.py:66-70 | no key of the reverse table is a prefix of another |
| Codes.TablesAreInverse | huffmanv2.py:66-67 | with no repeated character, the reverse table is exactly the inverse of the code table, in both directions |
| Codes.CodesPrefixFree | huffmanv2.py:61-74 | no character's code is a prefix of another character's code |
| Codes.Encode | huffmanv2.py:83 | the join is empty exactly when every character of the text has the empty code |
| Codes.EncodeAgrees | huffmanv2.py:83 | the join reads only the codes of the text's own characters |
| Codes.EncodeAppend | huffmanv2.py:83 | encoding a concatenation concatenates the encodings |
| Codes.EncodeLengthBound | huffmanv2.py:83 | with no empty code, the encoding has at least one bit per character |
| Codes.EncodedLength | huffmanv2.py:83 | the encoded length is the prefix's bits for every occurrence plus the tree's path weight (each leaf's count times its depth) |
| Codes.PathWeightIsInternalWeight | huffmanv2.py:53 | in a well-formed tree the path weight equals the sum of the internal nodes' counts |
| Codes.Decode | huffmanv2.py:87-96 | the decoder emits at most one character per bit |
| Codes.DecodeOneCode | huffmanv2.py:91-95 | feeding the bits of a code none of whose proper prefixes is a key emits that code's character and empties the buffer |
| Codes.DecodeJoin | huffmanv2.py:87-96 | over any tables in which each character's code, at the head of the stream, decodes to that character, the join of a text's codes decodes to the text, and decoding goes on with whatever follows |
| Codes.RoundTrip | huffmanv2.py:77-96 | for a tree with two or more leaves and no repeated character, decoding the encoding of any text over its characters gives the text back |
| Codes.TruncatedFragmentIsDropped | huffmanv2.py:91-96 | a stream cut off inside a code decodes, without any error, to the characters whose codes were complete |
| Codes.SingleLeafEncodesToNothing | huffmanv2.py:65-67 | with a single leaf the only code is empty, so every text over that character encodes to "" |
| Codes.EmptyCodeNeverMatches | huffmanv2.py:92-93 | the buffer is never empty when it is looked up, so a reverse table whose only key is "" decodes any bits to "" |
| Huffman.HuffmanCoding.constructor | huffmanv2.py:27-30 | a new engine starts with empty tables and no root |
| Huffman.HuffmanCoding.BuildFrequencyDict | huffmanv2.py:33-37 | the keys are exactly the characters of the text, and each count is that character's number of occurrences, hence at least 1 |
| Huffman.HuffmanCoding.BuildHeap | huffmanv2.py:40-45 | the result is a min-heap with one leaf per table entry, carrying that entry's character and count and nothing else: as a bag it is exactly the set of those leaves, and its size is the number of entries |
| Huffman.HuffmanCoding.MergeNodes | huffmanv2.py:48-58 | an empty heap fails at its top and leaves root unchanged. Otherwise the one node left becomes root. It holds every symbol and occurrence the heap started with, and when the heap held leaves its leaves are exactly those leaves. A single node is returned as it is. Each parent's count is its children's sum, with the first-popped child no heavier. Each parent joined the two lightest nodes of the moment: nothing merged before them outweighs either child (Greedy). The tree is one the merge loop builds from the heap's bag of nodes (MergeBuilds): every round joins a lightest node with a lightest of the rest, only the order among equally light nodes being left open |
| Huffman.HuffmanCoding.BuildCodesHelper | huffmanv2.py:61-70 | the walk adds the node's code table and reverse table to the fields, keeping entries that are already there |
| Huffman.HuffmanCoding.BuildCodes | huffmanv2.py:73-74 | the tables gain the codes of the whole tree from the empty prefix, and root is unchanged |
| Huffman.HuffmanCoding.BuildTree | huffmanv2.py:78-80 | counting, heap building and merging fail on the empty text. Otherwise root is a Huffman tree for the text: a tree the merge loop builds from the text's leaves, one per distinct character carrying its count, only the order among equally light nodes being left open. It is well formed and Greedy |
| Huffman.HuffmanCoding.Compress | huffmanv2.py:77-84 | the empty text fails and changes nothing. Otherwise the tables are extended by the codes of a tree the merge loop builds from the text's leaves, and the result is the join of the text's codes. Stale entries play no part in it, and its length is the sum of that tree's internal nodes' counts |
| Huffman.HuffmanCoding.Decompress | huffmanv2.py:87-96 | the loop emits exactly what the decoder specification emits over the current reverse table, dropping a trailing unmatched buffer |
| Huffman.CompressThenDecompress | huffmanv2.py:192-193 | on a fresh engine, only the empty text fails. Two or more distinct characters come back unchanged; a single distinct character compresses to "" and decompresses to "" |
| Huffman.FreshTablesRoundTrip | huffmanv2.py:77-96 | over the tables of one tree that fits a text's counts alone (a Huffman tree in particular), decoding the encoding gives the text back from two distinct characters on, and "" with one |
| Huffman.HuffmanTreeShape | huffmanv2.py:48-58 | a tree that fits a text's counts (a Huffman tree in particular) has root count equal to its length and one leaf per distinct character carrying that character's count. It has one internal node fewer than distinct characters |
| Huffman.RootKind | huffmanv2.py:48-58 | for a tree that fits a text's counts, with two or more distinct characters the root is internal; with one it is that character's leaf and its code is "" |
| Huffman.PipelineBuildsHuffmanTree | huffmanv2.py:78-80 | the tree merged from the heap of the text's frequency table is a Huffman tree for the text: the merge loop builds it from the text's own leaves, and it fits the text's counts |
| Huffman.LeavesAreSettled | huffmanv2.py:42-45 | a heap of lone leaves holds nothing merged yet, so the greedy invariant of the merge loop holds at its start |
| Huffman.MergeKeepsSettled | huffmanv2.py:50-56 | one round of pop, pop, push-parent keeps the greedy invariant: every tree on the heap is Greedy and nothing merged so far outweighs a node still on the heap |
| Huffman.NonGreedyTreeRejected | huffmanv2.py:48-58 | a well-formed tree with the counts of "abacabad" in which 'a' (count 4), two levels below the root, outweighs the root's other child c+b (count 3) is a Huffman tree for no text, since the merge would have taken 'a' later |
| Huffman.CostlyTreeRejected | huffmanv2.py:48-58 | the well-formed, Greedy tree without repeated characters for the counts a:1, b:10, p:3, q:3, r:6 whose encoding takes 52 bits is not built by the merge loop from those leaves, and is a Huffman tree for no text: the loop first joins 'a' with a node of count 3 |
| Huffman.LightestJoinedFirst | huffmanv2.py:50-55 | when one node is strictly the lightest, the tree the loop builds holds a parent joining it, on the left, with a node no heavier than any other |
| Huffman.NotBuiltWithoutLightJoin | huffmanv2.py:50-55 | a tree in which the strictly lightest node is joined only with nodes heavier than some other starting node is not built by the loop |
| Huffman.FirstParentInTree | huffmanv2.py:50-56 | the parent the first round pushes, joining a lightest node with a lightest of the rest, ends up in the tree the loop builds |
| Huffman.MergeOnceMembers | huffmanv2.py:50-56 | a round leaves one node fewer: the new parent, and every node but the two it joins |
| Huffman.UniqueLightestFirst | huffmanv2.py:50-51 | the first pop takes the one strictly lightest node, and the second pop a node no heavier than any other left |
| Huffman.BuiltTreeContains | huffmanv2.py:48-58 | every node the merge loop starts from ends up in the tree it builds |
| Huffman.TextLeavesAreTreeLeaves | huffmanv2.py:40-45 | the leaves of a tree that carries the text's counts are exactly the leaves pushed for the text |
| Huffman.TreeABIsMerged | huffmanv2.py:48-58 | the merge loop joins the two leaves of "ab" into Internal(2, a:1, b:1) |
| Huffman.TreeXYZZIsMerged | huffmanv2.py:48-58 | the merge loop first joins x and y of "xyzz", then z with their parent |
| Huffman.BuildsPair | huffmanv2.py:50-57 | from two nodes the loop builds their parent, the lighter on the left |
| Huffman.BuildsPairThenThird | huffmanv2.py:50-57 | from three nodes the loop joins the two lightest, then the third with their parent when it is no lighter than either and no heavier than their parent |
| Huffman.ChainStep | huffmanv2.py:50-56 | joining the two lightest nodes first, then building from what is left, is a build |
| Huffman.BuildsFromFirstMerge | huffmanv2.py:50-56 | a round that joins a lightest node with a lightest of the rest, followed by a build of what is left, is a build of the starting heap |
| Huffman.RoundIsMergeOnce | huffmanv2.py:50-56 | a round of pop, pop, push-parent pops a lightest node, then a lightest of the rest, and leaves the heap holding the rest plus their parent |
| Huffman.MergeKeepsBuilds | huffmanv2.py:50-56 | whatever the loop builds from the heap after one round, it builds from the heap before it |
| Huffman.LastNodeIsBuilt | huffmanv2.py:49-57 | when one node is left, the loop has built it from the starting heap, and it is Greedy when the start held lone leaves |
| Huffman.MergeRoundKeeps | huffmanv2.py:50-56 | one round keeps the heap's contents, the greedy invariant, and what can still be built from the starting heap |
| Huffman.BuildsFromTextLeaves | huffmanv2.py:40-58 | a tree built from the heap of frequency leaves is built from the text's own leaves |
| Huffman.FrequencyLeaves | huffmanv2.py:33-45 | the leaves pushed for the text's frequency table are one per distinct character carrying its number of occurrences |
| Huffman.TreeFitsText | huffmanv2.py:33-58 | the tree merged from the heap of the text's leaves is well formed and Greedy and accounts for exactly the text's characters and occurrences |
| Huffman.PushAddsLeaf | huffmanv2.py:42-44 | pushing the leaf of a character not yet pushed adds exactly that leaf to the heap's bag |
| Huffman.NewCodesEncode | huffmanv2.py:77-84 | once the codes of a tree that fits the text's counts are recorded over older entries, every character of the text has a code, the old entries do not change the encoding, and its length is the sum of the internal nodes' counts |
| Huffman.PushKeepsLeavesOf | huffmanv2.py:42-44 | pushing the next character's leaf extends what the heap holds by exactly that leaf |
| Huffman.MergeKeepsContents | huffmanv2.py:50-56 | one round of pop, pop, push-parent keeps the heap's leaves, symbols and occurrences and keeps its nodes well formed |
| Huffman.MergeKeepsWellFormed | huffmanv2.py:50-55 | the parent of the two lightest nodes is well formed: its count is their sum and the first-popped child is no heavier |
| Huffman.TreeABFitsItsText | huffmanv2.py:33-58 | Internal(2, a:1, b:1), the tree the merge builds for "ab", is a Huffman tree for "ab" |
| Huffman.TreeXYZZFitsItsText | huffmanv2.py:33-58 | Internal(4, z:2, Internal(2, x:1, y:1)), the tree the merge builds for "xyzz" under the standard heap's tie order, is a Huffman tree for "xyzz" |
| Huffman.StaleEntryBreaksRoundTrip | huffmanv2.py:61-96 | after the trees for "ab" and then "xyzz" have been walked on one engine, "x" encodes to "10" but "10" decodes to "bz": the stale key "1" of 'b' matches first |

## Left out

- The user interface (`HuffmanApp`), file reading through foreign document libraries, tree drawing, frequency display, the floating-point compression ratio and the `__main__` entry point are not part of this model.
- HeapQ.HeapPop: sifts the moved node straight down. The standard heap module first sifts a hole to a leaf and then moves the node up. Both keep the heap order and the contents, but among nodes of equal count they may surface a different one first. No contract here pins that tie order.
- Huffman.HuffmanCoding.MergeNodes: takes the heap as a value. Shrinking the caller's list to the root alone is not modelled, because no caller reads that list afterwards.
- Huffman.HuffmanCoding.MergeNodes: the tree is pinned only up to the order among equally light nodes, since the standard heap's tie order is not modelled (see HeapQ.HeapPop). Optimality of the code (least encoded length among all prefix codes) is not proved.
- Huffman.HuffmanCoding.BuildHeap: takes the table's entries in an arbitrary order rather than in the dictionary's insertion order. The contract holds for every order.
- Huffman.HuffmanCoding.BuildFrequencyDict: the sum of the counts is not stated as a sum. It follows from each count equalling its character's occurrences, and the root count equals the text's length (Huffman.HuffmanTreeShape).
- Huffman.HuffmanCoding.BuildCodesHelper: the `root is None` return and the `char is not None` test are not modelled separately. They only guard the missing children of leaves and tell leaves from internal nodes, both of which the datatype makes explicit.
- Codes.Encode: requires every character to have a code, where the join raises KeyError otherwise. Compress never reaches that case (Huffman.NewCodesEncode).
- Python exceptions are not modelled as such; the IndexError is a `Result` failure.
- Characters are Dafny `char` values. The model does not depend on any encoding of the text.
