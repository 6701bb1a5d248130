# Huffman compressor: a verified model of the codec core

This project is a Dafny model of the Huffman file compressor in `com.compressor`, with
proofs about it. The model covers these pieces:

- the character/frequency pair, in which the character may also be the EOF marker -1 or
  the internal-node marker -2;
- the tree node;
- the min-heap priority queue, stored in a list whose index 0 is always empty;
- the tree builder, which keeps parent nodes in lists keyed by frequency;
- the recursive code generator;
- the bit writer, which packs bits into bytes MSB-first;
- the bit reader, which decodes the shortest matching prefix first;
- `compress`, `decompress` and `convertToBinaryString`.

A file is either `None` when it cannot be opened, or `Some(bytes)`. The bytes written or
decoded are returned as sequences.

Modules, one per source file, plus three helper modules:

| module | file | models |
|---|---|---|
| `Pairs` | `pairs.dfy` | `CharFrequencyPair` |
| `Trees` | `trees.dfy` | `TreeNode` and the code table read off a tree |
| `PriorityQueue` | `priority_queue.dfy` | `HuffmanPriorityQueue` |
| `HuffmanTrees` | `huffman_tree.dfy` | `HuffmanTree` |
| `BitOutput` | `bit_output.dfy` | `BitOutputStream` |
| `BitInput` | `bit_input.dfy` | `BitInputStream` |
| `Compressor` | `compressor.dfy` | `HuffmanCompressor` |
| `Bits` | `bits.dfy` | bit strings and byte values (helper) |
| `Bags` | `bags.dfy` | multiset bookkeeping (helper) |
| `Wrappers` | `wrappers.dfy` | the `Option` type for null results (helper) |

The queue, the tree builder, the two bit streams and the compressor are classes whose
methods update their fields. The queue's list is a `seq` field. `nodesByFrequency` is a
`map<int, seq<TreeNode>>` field. The writer's buffer is an `array<bool>`, and the path
array of `generateCodes` is an `array<bool>` too.

A tree node is a datatype, because `setLeft` and `setRight` are only called on parents
that `merge` has just created. Each operation with a loop is a method with that loop, and
its contract is stated against a specification function.

Three behaviours of the code are modelled as written:

- **The merge loop runs until one pair is left.** `size()` counts the empty slot at
  index 0, so the test `size() != 2` holds until exactly one pair remains. A reader of
  the loop might expect it to stop at two pairs.
- **`close` writes all eight slots.** The comment in `close` says the last byte is padded
  with zeros. The code instead writes all eight slots of a buffer that is never cleared.
  The slots after the pending bits still hold bits of the previous byte. When no bit is
  pending, the previous byte is sent again. `Closed` models exactly that.
- **The reader only tests prefixes shorter than its buffer.** Decoding still ends
  because `close` always sends at least one bit after the EOF code. `RoundTrip` relies on
  this, and `NeedsTrailingBit` shows that without those bits the EOF code would not be
  found.

## Model

| member | source | states |
|---|---|---|
| Trees.LeftChild | src/main/java/com/compressor/core/TreeNode.java:29-31 | the left child is null exactly for a leaf |
| Trees.RightChild | src/main/java/com/compressor/core/TreeNode.java:37-39 | the right child is null exactly for a leaf |
| PriorityQueue.HuffmanPriorityQueue.constructor | src/main/java/com/compressor/util/HuffmanPriorityQueue.java:13-16 | a new queue holds only the empty slot 0 and no pairs |
| PriorityQueue.HuffmanPriorityQueue.Size | src/main/java/com/compressor/util/HuffmanPriorityQueue.java:23-25 | size is the number of stored pairs plus one |
| PriorityQueue.HuffmanPriorityQueue.Insert | src/main/java/com/compressor/util/HuffmanPriorityQueue.java:32-47 | sift-up keeps the heap order; the stored pairs gain exactly the new pair; the list grows by one |
| PriorityQueue.HuffmanPriorityQueue.GetMin | src/main/java/com/compressor/util/HuffmanPriorityQueue.java:54-59 | null exactly for an empty queue; otherwise a stored pair whose frequency is at most every stored frequency |
| PriorityQueue.HuffmanPriorityQueue.RemoveMin | src/main/java/com/compressor/util/HuffmanPriorityQueue.java:66-99 | returns what getMin would; an empty queue is unchanged; otherwise exactly that one pair is removed, the list shrinks by one and the heap order is kept |
| PriorityQueue.HuffmanPriorityQueue.SiftDown | src/main/java/com/compressor/util/HuffmanPriorityQueue.java:76-96 | from a root that is the only place where the order may fail, the loop restores the whole heap order by swaps only, so it permutes the list |
| PriorityQueue.HeapRootMin | src/main/java/com/compressor/util/HuffmanPriorityQueue.java:54-58 | in heap order, slot 1 has the smallest frequency |
| HuffmanTrees.HuffmanTree.GetRoot | src/main/java/com/compressor/core/HuffmanTree.java:24-27 | the first node stored for the pair's frequency is an internal node with that frequency, and it is one of the stored nodes |
| HuffmanTrees.HuffmanTree.constructor | src/main/java/com/compressor/core/HuffmanTree.java:14-16 | a new tree builder stores no nodes: nodesByFrequency is empty |
| HuffmanTrees.HuffmanTree.Merge | src/main/java/com/compressor/core/HuffmanTree.java:71-112 | returns (-2, left + right frequency); the nodes stay internal and filed under their frequency; the new lists are those of AfterMerge |
| HuffmanTrees.MergedParent | src/main/java/com/compressor/core/HuffmanTree.java:72-98 | the parent is internal with the summed frequency; two leaves become left and right; a stored node always goes left, so a leaf left pair with an internal right pair appears swapped |
| HuffmanTrees.MergedLists | src/main/java/com/compressor/core/HuffmanTree.java:78-109 | each internal argument removes the first node of its list; the parent is appended to the list of the sum; no other list changes |
| HuffmanTrees.MergedLeaves | src/main/java/com/compressor/core/HuffmanTree.java:71-112 | merge neither loses nor invents leaf characters |
| HuffmanTrees.HuffmanTree.GenerateCodes | src/main/java/com/compressor/core/HuffmanTree.java:39-62 | a null root changes nothing; otherwise each leaf's character is recorded in both maps under its path bits, '0' for left and '1' for right, with the root's own bit left out |
| HuffmanTrees.HuffmanTree.CodeString | src/main/java/com/compressor/core/HuffmanTree.java:50-54 | the code is the characters for codePath[1..depth] |
| Trees.LeafCodesShape | src/main/java/com/compressor/core/HuffmanTree.java:46-61 | one code per leaf, in leaf order; each code is the path followed by binary digits; no longer than the tree height; non-empty below an internal root |
| Trees.LeafCodesPrefixFree | src/main/java/com/compressor/core/HuffmanTree.java:49-61 | no recorded code is a prefix of another one |
| Trees.CodesArePaths | src/main/java/com/compressor/core/HuffmanTree.java:46-61 | following a recorded code from the root, '0' to the left and '1' to the right, ends at a leaf carrying the recorded character |
| Trees.TreeCodeTable | src/main/java/com/compressor/core/HuffmanTree.java:39-62 | for distinct leaf characters, the maps code exactly the leaf characters with binary codes; the two maps are inverse to each other; the codes are prefix-free |
| Trees.HeightBelowLeaves | src/main/java/com/compressor/core/HuffmanCompressor.java:71-72 | a tree with k leaves is less than k deep, which bounds the codePath index generateCodes reaches |
| BitOutput.BitOutputStream.Write | src/main/java/com/compressor/io/BitOutputStream.java:29-36 | the slot at bitCount gets bit == '1'; bitCount stays within 0..7; the eighth pending bit sends one byte |
| BitOutput.BitOutputStream.constructor | src/main/java/com/compressor/io/BitOutputStream.java:11-21 | a new writer has nothing written or sent, bitCount 0 and all eight slots false |
| BitOutput.BitOutputStream.Flush | src/main/java/com/compressor/io/BitOutputStream.java:43-50 | sends the MSB-first value of the eight slots and resets bitCount; the slots keep their bits |
| BitOutput.BitOutputStream.Close | src/main/java/com/compressor/io/BitOutputStream.java:58-66 | the output becomes Closed(written): one more byte built from all eight slots |
| BitOutput.FlushedExpand | src/main/java/com/compressor/io/BitOutputStream.java:29-50 | after n writes, the bytes sent spell exactly the first 8·(n/8) bits in order |
| BitOutput.BufferSlot | src/main/java/com/compressor/io/BitOutputStream.java:29-50 | slots below n mod 8 hold the pending bits; the other slots hold the previous byte's bits, or false before any byte was sent |
| BitOutput.ClosedExpand | src/main/java/com/compressor/io/BitOutputStream.java:58-64 | after close, the bytes spell all written bits followed by 1 to 8 bits taken from the buffer's other slots |
| BitInput.BitInputStream.AppendBits | src/main/java/com/compressor/io/BitInputStream.java:30-32 | the buffer is the old buffer followed by the bits |
| BitInput.BitInputStream.constructor | src/main/java/com/compressor/io/BitInputStream.java:20-23 | a new reader has an empty working buffer and has sent nothing |
| BitInput.BitInputStream.Write | src/main/java/com/compressor/io/BitInputStream.java:42-66 | the bytes sent, the buffer left and the status are those of Run from prefix length 1; the encoding map is not read |
| BitInput.RunAppend | src/main/java/com/compressor/io/BitInputStream.java:47-61 | scanning a buffer with more bits appended is the scan of the buffer, continued on what it left with the extra bits |
| BitInput.RestIdle | src/main/java/com/compressor/io/BitInputStream.java:47-65 | status -1 leaves a buffer none of whose proper prefixes is a code |
| BitInput.DecodeOne | src/main/java/com/compressor/io/BitInputStream.java:47-61 | a code followed by at least one bit is found first; EOF stops with status 1; any other character is sent and scanning goes on after its code |
| BitInput.DecodeAll | src/main/java/com/compressor/io/BitInputStream.java:47-61 | the codes of a text, the EOF code and at least one more bit decode to the text with status 1 |
| BitInput.NeedsTrailingBit | src/main/java/com/compressor/io/BitInputStream.java:47 | without a bit after the EOF code, the scan ends with status -1 |
| BitInput.Streaming | src/main/java/com/compressor/core/HuffmanCompressor.java:111-118 | feeding the bytes one at a time sends what a single scan of all their bits sends |
| Compressor.CountFrequencies | src/main/java/com/compressor/core/HuffmanCompressor.java:29-37 | frequencyArray[b] is the number of occurrences of b in the input |
| Compressor.NonZeroPairsShape | src/main/java/com/compressor/core/HuffmanCompressor.java:51-56 | one pair (i, count) per non-zero count, in increasing i, and no other pairs |
| Compressor.LoadQueue | src/main/java/com/compressor/core/HuffmanCompressor.java:49-59 | the queue holds the non-zero pairs and the pair (-1, 1) |
| Compressor.LoadCount | src/main/java/com/compressor/core/HuffmanCompressor.java:51-56 | one step of the loading loop: after index i the queue holds exactly the non-zero pairs of indices 0..i |
| Compressor.MergeStep | src/main/java/com/compressor/core/HuffmanCompressor.java:64-69 | one round removes two pairs and adds one, so there is one element less; when one pair remains it is internal; the queue and the stored nodes together still account for every leaf character |
| Compressor.MergeAll | src/main/java/com/compressor/core/HuffmanCompressor.java:64-69 | the loop ends with exactly one pair in the queue, an internal one, with every leaf character kept |
| Compressor.MergeRound | src/main/java/com/compressor/core/HuffmanCompressor.java:65-68 | one round of the merge loop: one element fewer; when one pair remains it is internal; every queued internal pair still has its stored node and every leaf character is kept |
| Compressor.TakeTwo | src/main/java/com/compressor/core/HuffmanCompressor.java:65-66 | the two removeMin calls take a minimum pair and then a minimum of the rest, and remove exactly those two |
| Compressor.MergeToRoot | src/main/java/com/compressor/core/HuffmanCompressor.java:64-72 | the merge loop and the root lookup give an internal root whose leaves are exactly the initial characters |
| Compressor.TakeRoot | src/main/java/com/compressor/core/HuffmanCompressor.java:72 | removing the last pair and looking up its node gives an internal root whose leaves are exactly the initial characters |
| Compressor.BuildTree | src/main/java/com/compressor/core/HuffmanCompressor.java:49-72 | from the byte counts of a non-empty input, the root is a tree of that input: one leaf for EOF and one per distinct byte, none twice, and not a single leaf |
| Compressor.FinalTree | src/main/java/com/compressor/core/HuffmanCompressor.java:71-72 | the tree that getRoot returns for the last pair has exactly the initial characters as leaves |
| Compressor.RootSymbols | src/main/java/com/compressor/core/HuffmanCompressor.java:49-72 | the root's leaves are the bytes of the input and EOF, each once |
| Compressor.WriteCodes | src/main/java/com/compressor/core/HuffmanCompressor.java:79-86 | the bytes written are Closed of the codes of the input bytes in order, followed by the EOF code |
| Compressor.ConvertToBinaryString | src/main/java/com/compressor/core/HuffmanCompressor.java:135-150 | 8 binary characters whose MSB-first value is the byte; they are the byte's bits as the writer packs them |
| Compressor.HuffmanCompressor.Compress | src/main/java/com/compressor/core/HuffmanCompressor.java:25-95 | status 0 for a missing file and 1 for an empty one, leaving the maps; status 2 puts the tree's codes into the maps and returns the packed codes; status -1 when the tree is at least 100 deep |
| Compressor.HuffmanCompressor.Decompress | src/main/java/com/compressor/core/HuffmanCompressor.java:103-127 | status 0 for a missing file; otherwise status 3 with the characters decoded byte by byte up to the EOF code |
| Compressor.HuffmanCompressor.constructor | src/main/java/com/compressor/core/HuffmanCompressor.java:16-17 | a new compressor starts with empty encoding and decoding maps |
| Compressor.RoundTrip | src/main/java/com/compressor/core/HuffmanCompressor.java:75-118 | decoding the written bytes with the matching code table gives the input back and finds EOF |
| Compressor.SymbolCount | src/main/java/com/compressor/core/HuffmanCompressor.java:51-59 | the tree has one leaf per distinct input byte plus one for EOF |
| Compressor.CompressThenDecompress | src/main/java/com/compressor/core/HuffmanCompressor.java:25-127 | a fresh compressor either returns status 2 for a non-empty file, and then decompression returns status 3 and the file back, or returns status -1 for a tree at least 100 deep |
| Compressor.SmallAlphabetRoundTrip | src/main/java/com/compressor/core/HuffmanCompressor.java:25-127 | a file with at most 99 distinct byte values always reaches status 2, and it round-trips |
| Bits.ByteBitsValue | src/main/java/com/compressor/io/BitOutputStream.java:44-47 | the eight characters of a byte read MSB-first give the byte back |
| Bits.PackedByteBits | src/main/java/com/compressor/io/BitOutputStream.java:44-47 | packing eight bits into a byte and expanding the byte gives the bits back |

## Left out

- File access is not modelled. Each of these is a parameter or is dropped:
  - opening and reading files, with their exceptions; a file is `None` or its bytes, so the
    second open in compress cannot fail separately from the first;
  - the names `Compressed.txt` and `Decompressed.txt`;
  - the `output.close()` calls.
- `GenerateCodes` returns the two maps instead of updating them in place. It still writes
  into the `codePath` array in place.
- `compress` is split into phase methods: counting, queue loading, merging and writing.
  Each phase keeps the source's loop.
- The `currentByte` field is a local variable of each loop.
- Compress: status -1 stands for the `ArrayIndexOutOfBoundsException` on a tree at least 100
  deep. The model does not make the partial map updates made before the exception.
- CompressThenDecompress: when compress stops with status -1, standing for the exception,
  nothing is decompressed. The method then returns decompress status 0 and no bytes.
- Frequencies and their sums are unbounded integers. The 32-bit overflow of the counters on
  inputs longer than 2^31 bytes is not modelled.
- A `write(int)` to an output stream stores the low eight bits of its argument (`OutByte`).
- The `encodingMap` parameter of the reader's `write` is accepted and not read, as in the
  source.
- The GUI and the file type filter.
- The tree's optimality and the frequencies recorded at its leaves are not stated.
- The pair's getters are the datatype's fields. A pair cannot change after construction
  because a datatype value is immutable.
- Tree node setters are not separate members. A parent is built with both children at once.
- Reuse of one compressor: the maps are kept across calls, and codes of earlier calls stay
  unless overwritten. This is stated, but no property of that reuse is proved.
