# Five small C programs, modelled in Dafny

This project models the core of five C exercises and proves properties of the models.

- **Question5, the Huffman file compressor.** It has two codecs:
  - `huffman_coding.c`, the codec the command-line program calls. Its file is the magic `HUFF`, a `long` size, an `int` entry count, a `(symbol, int count)` table, then the MSB-first code bits.
  - `huffman.c`, an alternate codec. It stores inputs of at most eight bytes behind a `0xFF` marker. Longer inputs go behind a `0x00` marker with a one-byte entry count, a two-byte size and `(symbol, count)` byte pairs.
- **Question2, the spell checker.** It has a dictionary BST ordered by `strcmp`, a Levenshtein distance, and a preorder suggestion filter.
- **Question4, the route finder.**
  - City names are normalised by trimming and lower-casing.
  - Cities are looked up or added by their normalised name.
  - Routes are stored in a symmetric travel-time matrix, with `INT_MAX` meaning no direct connection.
  - Dijkstra's algorithm finds the shortest route, and the predecessor chain is printed.
- **Question3, the call-graph tool.** Phone numbers are nodes of a 0/1 adjacency matrix. The tool supports find-or-add numbering, symmetric edges and a direct-contact query.
- **Question1, the MP3 playlist.** It is a doubly linked list with tail append and a next / previous / quit cursor.

Files:

- `bytes.dfy`: bytes, bit strings, and little-endian and two's-complement integer fields.
- `bitio.dfy`: the bit writer and reader.
- `hufftree.dfy`: trees, code tables and the decoding walk.
- `minheap.dfy`: the binary min-heap.
- `treebuilder.dfy`: counting bytes and building the tree.
- `huffman_coding.dfy` and `huffman_alt.dfy`: the two codecs, each as written and corrected.
- `spell_checker.dfy`, `path_finding.dfy`, `friend_detection.dfy` and `mp3_player.dfy`: the other four programs.

Conventions used throughout:

- Pointers and mutable C state become values.
  - A file is a `seq<byte>`.
  - A linked list is an arena of nodes whose links are indices.
  - Each `static` table is an explicit field.
- Native integer widths are fixed to those of a 64-bit Linux build: `long` is 8 bytes, `int` is 4 and `unsigned short` is 2, all little-endian.
- A C outcome that the language leaves undefined is a value of its own (`Undefined`). Examples are a NULL dereference, a read past a stack array, and a signed `int` sum that overflows.
- A C string is a `string` with one character per byte: every character is a non-NUL byte value (1..255). A string that a `char buf[N]` holds also leaves room for the terminating NUL, so it has fewer than N characters (Bytes.FitsBuffer).

## Model

| member | source | states |
|---|---|---|
| Bytes.LowBitsOfValue | Question5/src/huffman_coding.c:286-288 | extracting `(code >> (i-1)) & 1` for i = codeBits down to 1 gives back exactly the path bits the code was built from |
| Bytes.ValueOfPadded | Question5/src/huffman_coding.c:48 | shifting in k zero bits multiplies the pending value by 2^k |
| Bytes.DecodeLE | Question5/src/huffman_coding.c:319-335 | a field of w little-endian bytes reads as a value below 256^w |
| Bytes.DecodeEncodeLE | Question5/src/huffman.c:185-186 | an unsigned value that fits its field survives `fwrite` and `fread` unchanged |
| Bytes.DecodeEncodeSigned | Question5/src/huffman_coding.c:256-258 | a signed `long` or `int` in range survives `fwrite` and `fread` unchanged |
| BitIO.PadLength | Question5/src/huffman_coding.c:48 | the flush pads with fewer than 8 zero bits, up to a byte boundary |
| BitIO.Pack | Question5/src/huffman_coding.c:34-51 | the packing of n bits, which writing and flushing them produces, takes ceil(n / 8) bytes |
| BitIO.Unpack | Question5/src/huffman_coding.c:59-70 | reading a byte stream bit by bit yields eight bits per byte |
| BitIO.UnpackPack | Question5/src/huffman_coding.c:45-51 | the bytes holding a bit string, read back bit 7 first, give the bits followed only by zero padding |
| BitIO.WriteBit | Question5/src/huffman_coding.c:34-43 | one bit advances the pending count modulo 8, keeps every byte already emitted, and emits one more byte exactly when the eighth bit arrives |
| BitIO.WriteBits | Question5/src/huffman_coding.c:284-290 | after any run of bits the emitted bytes are kept, one byte is added per completed eight bits, and the remainder modulo 8 stays pending |
| BitIO.WriteBitHolds | Question5/src/huffman_coding.c:34-43 | after each bit, the writer has emitted the complete bytes of everything written and holds the rest, MSB-first |
| BitIO.WriteBitsHolds | Question5/src/huffman_coding.c:284-290 | the same invariant holds after any sequence of bits |
| BitIO.Flush | Question5/src/huffman_coding.c:45-51 | with no pending bits nothing is added; otherwise exactly one byte is appended and the earlier bytes are kept |
| BitIO.FlushHolds | Question5/src/huffman_coding.c:45-51 | the flushed output is the written bits packed MSB-first, the last byte left-aligned with zero padding |
| BitIO.WriterPacks | Question5/src/huffman_coding.c:28-51 | a fresh writer fed a bit string and flushed produces exactly its packing |
| BitIO.UnflushedOutput | Question5/src/huffman.c:98-113 | without a flush only the complete bytes are emitted, and |bits| mod 8 bits stay pending |
| BitIO.ReadBit | Question5/src/huffman_coding.c:59-70 | readBit returns end of file exactly when no bit remains; otherwise it returns the next remaining bit (bit 7 of a byte first) and consumes it |
| BitIO.Unread | Question5/src/huffman_coding.c:59-70 | the count of bits still to be delivered is the length of the remaining bit string |
| BitIO.ReadBackWritten | Question5/src/huffman_coding.c:53-70 | a reader over a flushed writer's output delivers the written bits, then only zero padding |
| HuffTree.WellFormedWeight | Question5/src/huffman_coding.c:190 | when every internal node carries the sum of its children's frequencies, the root carries the total leaf frequency |
| HuffTree.ForestPermutation | Question5/src/huffman_coding.c:101-105 | reordering the heap array does not change its leaves or total frequency |
| HuffTree.GenCodes | Question5/src/huffman_coding.c:159-174 | generateCodes makes one entry per leaf, each code extending the prefix it was called with |
| HuffTree.GenCodesReach | Question5/src/huffman_coding.c:159-174 | each entry's code below the prefix is the left=0 / right=1 path to a leaf carrying the entry's symbol |
| HuffTree.CodesReachLeaves | Question5/src/huffman_coding.c:270 | every code of the table leads from the root to the leaf of its symbol |
| HuffTree.LeavesHaveCodes | Question5/src/huffman_coding.c:168-173 | every leaf of the tree has an entry in the table |
| HuffTree.NodeRootCodesNonEmpty | Question5/src/huffman_coding.c:160-166 | below an internal root every code has at least one bit |
| HuffTree.Codes | Question5/src/huffman_coding.c:266-270 | the table from generateCodes(root, 0, 0) has one entry per leaf and no code in it is a prefix of another entry's code; a lone leaf at the root gets the empty code (codeBits 0) |
| HuffTree.CodeFor | Question5/src/huffman_coding.c:273-277 | the lookup table gives a symbol the code of an entry for it, and the zeroed empty code when it has none |
| HuffTree.Encode | Question5/src/huffman_coding.c:284-290 | a table of empty codes (the lone-leaf table) makes the compress loop write no bits at all |
| HuffTree.CodeWord | Question5/src/huffman_coding.c:159-165 | the word generateCodes stores for a path always fits the 32-bit `unsigned int` code field |
| HuffTree.EmitCodeFits | Question5/src/huffman_coding.c:284-289 | a code of at most 32 bits is written bit for bit, first bit of the path first |
| HuffTree.CodeWordCollides | Question5/src/huffman_coding.c:159-165 | as written, two 33-bit codes that differ only in their first bit are stored as the same word, and writing either is undefined |
| HuffTree.EmitAllFits | Question5/src/huffman_coding.c:284-289 | when every code fits the field the compress loop writes exactly the concatenated codes, and it is undefined exactly when some input byte has a longer code |
| HuffTree.Step | Question5/src/huffman_coding.c:367-378 | one bit descends the tree; reaching a leaf emits its symbol and resets to the root; emitted plus wanted bytes is constant |
| HuffTree.DecodeBits | Question5/src/huffman_coding.c:360-379 | the walk only appends to the output and never ends inside a leaf |
| HuffTree.DecodeAppend | Question5/src/huffman_coding.c:360-379 | decoding a concatenation is decoding the first part, then the second from where it left off |
| HuffTree.DecodeDone | Question5/src/huffman_coding.c:360 | once no byte is wanted further bits are ignored |
| HuffTree.DecodeCode | Question5/src/huffman_coding.c:367-378 | walking one code from the root emits exactly its leaf's symbol and returns to the root |
| HuffTree.DecodePartialCode | Question5/src/huffman_coding.c:367-378 | walking a proper prefix of a code emits nothing |
| HuffTree.CodeForReachesLeaf | Question5/src/huffman_coding.c:284-289 | the code looked up for an input byte is non-empty under an internal root and leads to that byte's leaf |
| HuffTree.DecodeEncoded | Question5/src/huffman_coding.c:360-379 | decoding the concatenated codes of an input emits exactly that input, whatever bits follow |
| HuffTree.DecodeTruncated | Question5/src/huffman_coding.c:360-365 | decoding any strict prefix of the codes leaves bytes still wanted, so the loop stops early |
| HuffTree.NotASymbol | Question5/src/huffman.c:128-131 | a byte that no leaf carries is not a symbol of the tree |
| HuffTree.DecodeSymbols | Question5/src/huffman.c:266-270 | the walk emits only symbols carried by leaves of the tree |
| MinHeap.Parent | Question5/src/huffman_coding.c:138-140 | `(i - 1) / 2` is the parent of slot i > 0: smaller than i, with i one of its two children |
| MinHeap.CDiv | Question5/src/huffman_coding.c:147 | C division truncates toward zero: the remainder `a - q*b` has the sign of `a` and is smaller than `b` in magnitude |
| MinHeap.HeapRootMin | Question5/src/huffman_coding.c:128-134 | the root of a heap has the smallest frequency |
| MinHeap.Swap | Question5/src/huffman_coding.c:101-105 | swapping two slots exchanges them and keeps the multiset of nodes |
| MinHeap.Smallest | Question5/src/huffman_coding.c:107-116 | `smallest` moves to a child only when that child is strictly lighter, and ends at the lightest of the node and its children |
| MinHeap.SiftDown | Question5/src/huffman_coding.c:107-122 | minHeapify permutes the array and leaves the slots before i untouched |
| MinHeap.SiftDownHeap | Question5/src/huffman_coding.c:107-122 | minHeapify(i) restores the heap property when only i may be out of place |
| MinHeap.HeapifyFrom | Question5/src/huffman_coding.c:147-148 | the heapify loop permutes the array |
| MinHeap.HeapifyFromHeap | Question5/src/huffman_coding.c:147-148 | minHeapify from the last parent down to 0 makes a heap |
| MinHeap.BuildHeapCoding | Question5/src/huffman_coding.c:145-149 | buildMinHeap, starting at (n-1)/2 with n = size-1, yields a heap that is a permutation of its input |
| MinHeap.BuildHeapAlt | Question5/src/huffman.c:80-81 | the heapify loop of huffman.c, starting at (size-1)/2, yields a heap that is a permutation of its input |
| MinHeap.ExtractMin | Question5/src/huffman_coding.c:128-134 | extractMin shrinks the heap by one and returns the node removed from its multiset |
| MinHeap.ExtractMinHeap | Question5/src/huffman.c:52-59 | on a non-empty heap extractMin returns a node of minimum frequency and leaves a heap |
| MinHeap.SiftUp | Question5/src/huffman_coding.c:138-142 | the insertion loop permutes the array with the new node in the hole |
| MinHeap.Insert | Question5/src/huffman_coding.c:136-143 | insertMinHeap grows the heap by one and adds exactly the new node |
| MinHeap.SiftUpHeap | Question5/src/huffman_coding.c:138-142 | the loop that moves parents down ends in a heap |
| MinHeap.InsertHeap | Question5/src/huffman.c:61-69 | insertMinHeap keeps the heap property |
| TreeBuilder.Count | Question5/src/huffman_coding.c:222-223 | the counting loop's entry for b is the number of occurrences of b |
| TreeBuilder.Histogram | Question5/src/huffman.c:164-168 | `freq[b]` is the multiplicity of b in the input for all 256 bytes |
| TreeBuilder.TableFrom | Question5/src/huffman_coding.c:242-248 | the table holds positive counts only, with their own counts, in strictly ascending symbol order |
| TreeBuilder.TableFromMember | Question5/src/huffman_coding.c:242-248 | every symbol with a positive count has an entry |
| TreeBuilder.TableContents | Question5/src/huffman_coding.c:242-248 | a symbol has an entry if and only if its count is positive, and the entry carries that count |
| TreeBuilder.TableSum | Question5/src/huffman_coding.c:242-248 | the stored counts add up to the positive counts of the array |
| TreeBuilder.HistogramTotal | Question5/src/huffman_coding.c:220-223 | the counts of all 256 bytes add up to the input length |
| TreeBuilder.InputTable | Question5/src/huffman_coding.c:238-248 | the input's table has at most 256 entries, each with a count between 1 and the input length |
| TreeBuilder.SymbolsBound | Question5/src/huffman_coding.c:239-240 | a table of strictly ascending bytes has at most 256 entries |
| TreeBuilder.InputTableContents | Question5/src/huffman_coding.c:219-248 | a byte has an entry if and only if it occurs in the input, and the entry's count is its number of occurrences |
| TreeBuilder.InputTableEmpty | Question5/src/huffman_coding.c:228-236 | the table is empty (`uniqueChars == 0`) exactly for the empty input |
| TreeBuilder.InputTableSum | Question5/src/huffman_coding.c:238-248 | the stored counts add up to the input length |
| TreeBuilder.SingleSymbolTable | Question5/src/huffman_coding.c:228-248 | an input of one repeated byte has the one entry (byte, length) |
| TreeBuilder.MergeOnce | Question5/src/huffman_coding.c:186-195 | one merge round shrinks the heap by one |
| TreeBuilder.MergeOnceHeap | Question5/src/huffman_coding.c:186-195 | a round joins a minimum with a minimum of what is left, and leaves a heap |
| TreeBuilder.MergeOnceForest | Question5/src/huffman.c:83-90 | a round keeps the leaves and the total frequency of the forest, and keeps every tree well formed |
| TreeBuilder.MergeAll | Question5/src/huffman_coding.c:186-197 | the root left after the merge loop carries exactly the leaves of the starting heap and their total frequency |
| TreeBuilder.MergeAllLeaves | Question5/src/huffman_coding.c:186-197 | the final root carries exactly the starting leaves and their total frequency, and each internal node carries the sum of its children |
| TreeBuilder.LeafSeqFreq | Question5/src/huffman_coding.c:180-181 | the seeded leaves carry the table's total frequency |
| TreeBuilder.BuildFromList | Question5/src/huffman_coding.c:177-198 | on a non-empty list the tree's leaves are exactly the listed (symbol, count) pairs, its root frequency is their total, and it is well formed |
| TreeBuilder.BuildFromCounts | Question5/src/huffman.c:71-96 | there is no tree (extractMin of an empty heap gives NULL) exactly when no count is positive |
| TreeBuilder.BuildFromCountsProps | Question5/src/huffman.c:71-96 | otherwise the leaves are one per positive count in ascending symbol order, and the root frequency is the sum of the counts |
| TreeBuilder.ListedLeaf | Question5/src/huffman_coding.c:180-181 | every listed entry becomes a leaf of the built tree |
| TreeBuilder.CoveredByLeaves | Question5/src/huffman_coding.c:266-277 | in a tree built from the input's table every input byte has a code |
| TreeBuilder.TwoSymbolsRoot | Question5/src/huffman_coding.c:186-197 | such a tree has an internal root when the input has two distinct bytes |
| HuffmanCoding.EntryBytes | Question5/src/huffman_coding.c:262-263 | one table record is a symbol byte followed by a 4-byte `int` |
| HuffmanCoding.TableBytes | Question5/src/huffman_coding.c:261-264 | the table takes five bytes per entry |
| HuffmanCoding.ParseTable | Question5/src/huffman_coding.c:340-348 | reading n records succeeds exactly when 5n bytes are there, and gives n entries |
| HuffmanCoding.ParseTableBytes | Question5/src/huffman_coding.c:340-348 | the records the compressor wrote read back as the same table, whatever follows them |
| HuffmanCoding.Header | Question5/src/huffman_coding.c:250-264 | the header starts with `HUFF` and is 16 + 5n bytes long |
| HuffmanCoding.Compress | Question5/src/huffman_coding.c:232-236 | compressFile writes nothing at all exactly for the empty input; each byte's code is written whole, which is what the C writes while the codes fit its 32-bit field |
| HuffmanCoding.HeaderParses | Question5/src/huffman_coding.c:308-348 | the decompressor finds the magic, the original size, the entry count and the table at their places, and the payload right after them |
| HuffmanCoding.DecodeStreamBits | Question5/src/huffman_coding.c:354-379 | the readBit-driven loop is the tree walk over the remaining bits, and it reports "unexpected end" exactly when bytes are still wanted |
| HuffmanCoding.DecodeStream | Question5/src/huffman_coding.c:357-379 | the loop keeps emitted plus wanted bytes constant and reports end of file exactly when bytes are still wanted |
| HuffmanCoding.DecodePayload | Question5/src/huffman_coding.c:357-379 | the run is undefined exactly when the size is positive, the root is a lone leaf and a payload byte exists |
| HuffmanCoding.DecompressWith | Question5/src/huffman_coding.c:299-384 | "Invalid compressed file format" exactly for a file without the `HUFF` prefix, and a header error exactly for one that has it but ends inside the size or count field; a table whose counts overflow a merge sum makes the run undefined |
| HuffmanCoding.TableSumsFit | Question5/src/huffman_coding.c:186-197 | with positive counts whose total fits in `int`, no merge sum `left->frequency + right->frequency` overflows |
| HuffmanCoding.OverflowingTable | Question5/src/huffman_coding.c:186-197 | a file whose header parses but whose table's counts total INT_MAX + 1 or more is undefined: the final merge overflows `int` |
| HuffmanCoding.OverflowExample | Question5/src/huffman_coding.c:190 | the file `HUFF`, size 1, two records (`a`, INT_MAX) and (`b`, INT_MAX) and one payload byte is undefined |
| HuffmanCoding.Decompress | Question5/src/huffman_coding.c:308-317 | "Invalid compressed file format" exactly when the file is shorter than four bytes or does not start with `HUFF` |
| HuffmanCoding.InputCovered | Question5/src/huffman_coding.c:266-277 | every input byte has a code in the tree built from the input's table |
| HuffmanCoding.TwoSymbolsNode | Question5/src/huffman_coding.c:177-198 | two distinct bytes give at least two entries and an internal root |
| HuffmanCoding.PayloadRoundTrip | Question5/src/huffman_coding.c:280-292 | decoding the flushed codes of an input under an internal root emits exactly the input, with no early end |
| HuffmanCoding.RoundTrip | Question5/src/huffman_coding.c:210-296 | for every input with at least two distinct bytes whose codes fit the 32-bit field, the compress loop writes the modelled encoding and decompressing the file restores the input |
| HuffmanCoding.SingleLeafTree | Question5/src/huffman_coding.c:186-197 | a one-entry list builds a lone leaf |
| HuffmanCoding.SingleSymbolLost | Question5/src/huffman_coding.c:360-365 | as written, an input of one repeated byte compresses to the header alone and decompresses to nothing, with "unexpected end" |
| HuffmanCoding.DecodePayloadFixed | Question5/src/huffman_coding.c:357-379 | corrected: a lone leaf repeats its symbol `size` times; an internal root decodes as before |
| HuffmanCoding.DecompressFixed | Question5/src/huffman_coding.c:308-317 | the corrected decompressor rejects the same bad magic |
| HuffmanCoding.RoundTripFixed | Question5/src/huffman_coding.c:210-384 | with the lone-leaf correction, and every code written whole, each non-empty input round-trips, and the empty input gives an empty file |
| HuffmanCoding.RoundTripFixedOne | Question5/src/huffman_coding.c:360-379 | the corrected decoder restores an input of one repeated byte |
| HuffmanAlt.AltTree | Question5/src/huffman.c:164-170 | the compressor's tree is the one built from the input's byte counts |
| HuffmanAlt.PairBytes | Question5/src/huffman.c:187-192 | two bytes per (symbol, count) pair |
| HuffmanAlt.CountByte | Question5/src/huffman.c:180-184 | the stored entry count is the count modulo 256, equal to it below 256 |
| HuffmanAlt.AltHeader | Question5/src/huffman.c:179-192 | the Huffman header is the `0x00` marker plus 3 + 2n bytes |
| HuffmanAlt.Compress | Question5/src/huffman.c:157-200 | up to eight bytes: `0xFF` then the input verbatim; longer: a `0x00`-marked header of at least four bytes |
| HuffmanAlt.Passthrough | Question5/src/huffman.c:238-244 | at most eight bytes after the marker are copied, and all of them when there are no more than eight |
| HuffmanAlt.ReadPairs | Question5/src/huffman.c:250-255 | the pair loop fills a 256-entry count array |
| HuffmanAlt.DecodeByte | Question5/src/huffman.c:263-271 | the inner bit loop conserves emitted plus wanted bytes |
| HuffmanAlt.DecodeByteBits | Question5/src/huffman.c:263-271 | the inner loop is the tree walk over bits 7 down to 0 of the byte |
| HuffmanAlt.DecodeBytes | Question5/src/huffman.c:262-272 | the byte loop stays on internal nodes between bits and keeps emitted plus wanted bytes constant |
| HuffmanAlt.DecodeBytesBits | Question5/src/huffman.c:262-272 | the byte loop is the tree walk over the unpacked payload |
| HuffmanAlt.DecodeHuffman | Question5/src/huffman.c:257-272 | at most `size` bytes come out; the run is undefined exactly when payload and size are non-empty and the tree is missing or a lone leaf |
| HuffmanAlt.ReadFields | Question5/src/huffman.c:246-255 | the size read is an `unsigned short` and the counts form a 256-entry array |
| HuffmanAlt.Decompress | Question5/src/huffman.c:236-275 | an empty file gives nothing; the Huffman branch writes fewer than 65536 bytes |
| HuffmanAlt.Assign | Question5/src/huffman.c:252-255 | the `freq[ch] = count` assignments keep a 256-entry array |
| HuffmanAlt.AssignLookup | Question5/src/huffman.c:252-255 | with distinct symbols each entry's count lands in its own slot and all other slots keep their value |
| HuffmanAlt.ReadPairsBytes | Question5/src/huffman.c:252-255 | reading the pairs the compressor wrote recovers the first n entries with byte-sized counts |
| HuffmanAlt.WrapTable | Question5/src/huffman.c:187-192 | filling a zeroed array from the stored pairs gives every count modulo 256 |
| HuffmanAlt.AssignTable | Question5/src/huffman.c:250-255 | filling a zeroed array from exact pairs gives back the counts |
| HuffmanAlt.AltFields | Question5/src/huffman.c:179-200 | the decompressor reads the entry count mod 256, the length mod 2^16, the counts mod 256 and the unflushed payload |
| HuffmanAlt.AltReadBack | Question5/src/huffman.c:246-272 | with fewer than 256 distinct bytes, decompression is the walk over those fields |
| HuffmanAlt.HuffmanFile | Question5/src/huffman.c:245-272 | decompressFile on a Huffman file is the walk over its size, counts and payload |
| HuffmanAlt.SmallRoundTrip | Question5/src/huffman.c:157-162 | inputs of at most eight bytes come back unchanged |
| HuffmanAlt.PrefixDecode | Question5/src/huffman.c:262-272 | decoding the first j code bits emits a prefix of the input, and all of it exactly when no bit is missing |
| HuffmanAlt.UnflushedDecode | Question5/src/huffman.c:196-200 | walking the bytes writeBits emitted gives a prefix of the input, and all of it exactly when the codes fill whole bytes |
| HuffmanAlt.FlushLoss | Question5/src/huffman.c:115-125 | as written, when counts and length fit their fields the output is a prefix of the input, and equal to it exactly when the code bits fill whole bytes |
| HuffmanAlt.CountsFit | Question5/src/huffman.c:190 | counts below 256 survive the one-byte field |
| HuffmanAlt.AltRoot | Question5/src/huffman.c:71-96 | two distinct bytes give an internal root and a code for every input byte |
| HuffmanAlt.NodeDecode | Question5/src/huffman.c:257-272 | under an internal root decompression is the byte-by-byte walk |
| HuffmanAlt.TwoByteLoss | Question5/src/huffman.c:196-200 | an input over two byte values whose length is not a multiple of 8 comes back as a proper prefix |
| HuffmanAlt.TwoByteTable | Question5/src/huffman.c:180-182 | two distinct byte values make a two-entry table |
| HuffmanAlt.TwoLeafCodes | Question5/src/huffman.c:127-137 | in a two-leaf tree every code is one bit long |
| HuffmanAlt.EncodeLength | Question5/src/huffman.c:196-199 | with one-bit codes the encoding has one bit per input byte |
| HuffmanAlt.FlushLossExample | Question5/src/huffman.c:115-125 | eight 'A' and one 'B' come back as a proper prefix |
| HuffmanAlt.NoLeafFor | Question5/src/huffman.c:74-78 | a byte whose count is not positive gets no leaf |
| HuffmanAlt.WalkAvoids | Question5/src/huffman.c:262-272 | the byte loop never emits a byte the tree does not carry |
| HuffmanAlt.AbsentStaysAbsent | Question5/src/huffman.c:257-272 | a byte whose count reads back as 0 is never written |
| HuffmanAlt.AbsentFromFile | Question5/src/huffman.c:245-272 | a Huffman file that gives a byte no positive count never decompresses to anything containing that byte |
| HuffmanAlt.WrappedCountZero | Question5/src/huffman.c:190 | a byte occurring a multiple of 256 times reads back with count 0 |
| HuffmanAlt.CountWrapLoses | Question5/src/huffman.c:187-192 | as written, an input with a byte occurring a multiple of 256 times never comes back |
| HuffmanAlt.CountExample | Question5/src/huffman.c:187-192 | the witness input has 257 bytes |
| HuffmanAlt.CountWrapExample | Question5/src/huffman.c:187-192 | 256 'A' and one 'B' do not come back |
| HuffmanAlt.RepeatCount | Question5/src/huffman.c:167-168 | n copies of x count n |
| HuffmanAlt.AltFieldsRead | Question5/src/huffman.c:250-255 | the count array the decompressor builds is the stored, wrapped pairs |
| HuffmanAlt.SizeWrapLoses | Question5/src/huffman.c:185-186 | as written, an input of 2^16 bytes or more never comes back |
| HuffmanAlt.SingleSymbolLost | Question5/src/huffman.c:127-131 | as written, more than eight copies of one byte decompress to nothing |
| HuffmanAlt.EmptyPayloadFile | Question5/src/huffman.c:262 | a Huffman file that ends where its pairs end decompresses to nothing |
| HuffmanAlt.SingleLeafCodes | Question5/src/huffman.c:127-131 | one repeated byte is encoded with no bits at all |
| HuffmanAlt.CompressFixed | Question5/src/huffman.c:157-200 | corrected: passthrough as before; longer inputs get a `0x00`-marked header of at least seven bytes |
| HuffmanAlt.DecodeFixed | Question5/src/huffman.c:257-272 | corrected: what comes out has exactly `size` bytes, or the file is rejected |
| HuffmanAlt.FixedFields | Question5/src/huffman.c:246-255 | the corrected header reads into a 256-entry count array |
| HuffmanAlt.DecompressFixed | Question5/src/huffman.c:236-275 | corrected: a file too short for its header or table is rejected |
| HuffmanAlt.RoundTripFixed | Question5/src/huffman.c:139-281 | with the three corrections, and every code written whole, each input round-trips |
| HuffmanAlt.FixedReadBack | Question5/src/huffman.c:246-272 | the corrected decompressor reads back the exact length, counts and flushed payload |
| HuffmanAlt.FixedTwo | Question5/src/huffman.c:262-272 | two distinct bytes: the flushed payload decodes to the whole input |
| HuffmanAlt.FlushedDecode | Question5/src/huffman.c:262-272 | walking a flushed payload emits exactly the input and stops at the root |
| HuffmanAlt.FixedOne | Question5/src/huffman.c:257-272 | one repeated byte: the lone leaf is repeated `size` times |
| SpellChecker.Compare | Question2/src/spell_checker.c:31 | strcmp's sign: zero exactly for equal words |
| SpellChecker.CompareFlip | Question2/src/spell_checker.c:18-20 | swapping the arguments flips the sign |
| SpellChecker.InitializeTree | Question2/src/spell_checker.c:8-10 | the new tree is empty and ordered |
| SpellChecker.InsertWord | Question2/src/spell_checker.c:13-24 | the word set grows by exactly the inserted word |
| SpellChecker.SearchWord | Question2/src/spell_checker.c:27-39 | a word reported found is in the tree; nothing is found in the empty tree |
| SpellChecker.InsertOrdered | Question2/src/spell_checker.c:13-24 | insertion keeps every left word smaller and every right word larger |
| SpellChecker.SearchComplete | Question2/src/spell_checker.c:27-39 | on an ordered tree searchWord is true if and only if the word is in the tree |
| SpellChecker.InsertThenSearch | Question2/src/spell_checker.c:13-39 | after insertion the word is found, and so is every word found before |
| SpellChecker.InsertDuplicate | Question2/src/spell_checker.c:18-23 | inserting a present word leaves the tree unchanged |
| SpellChecker.Min3 | Question2/src/spell_checker.c:5 | the MIN macro returns one of its arguments, no larger than any |
| SpellChecker.EditDistance | Question2/src/spell_checker.c:57-83 | the reference distance that levenshteinDistance computes is 0 exactly between equal words |
| SpellChecker.DistanceBound | Question2/src/spell_checker.c:61-82 | the distance is at most the longer length |
| SpellChecker.DistanceLowerBound | Question2/src/spell_checker.c:61-82 | the distance is at least the difference of the lengths |
| SpellChecker.Recurrence | Question2/src/spell_checker.c:73-78 | every cell is the minimum of deletion + 1, insertion + 1 and substitution + cost |
| SpellChecker.LevenshteinDistance | Question2/src/spell_checker.c:57-83 | the matrix algorithm, including the empty-word shortcuts, returns the edit distance |
| SpellChecker.FillColumn | Question2/src/spell_checker.c:67 | the first initialisation loop puts the distance of each prefix of the first word to the empty word in column 0 |
| SpellChecker.FillFirstRow | Question2/src/spell_checker.c:68 | the second initialisation loop puts the distance of the empty word to each prefix of the second word in row 0, leaving column 0 as it was |
| SpellChecker.FillRow | Question2/src/spell_checker.c:72-79 | the inner loop fills row i with the prefix distances and touches no other row |
| SpellChecker.FillCell | Question2/src/spell_checker.c:73-78 | from the distances in the three neighbouring cells, one step writes the distance of the two prefixes and touches no other cell |
| SpellChecker.Preorder | Question2/src/spell_checker.c:42-54 | the preorder lists exactly the tree's words |
| SpellChecker.Within | Question2/src/spell_checker.c:46-49 | a word is kept if and only if it is within `maxDistance` of the query |
| SpellChecker.WithinAppend | Question2/src/spell_checker.c:52-53 | filtering a concatenation filters each part in order |
| SpellChecker.SuggestWords | Question2/src/spell_checker.c:42-54 | every suggestion is a word of the tree within `maxDistance` of the query |
| SpellChecker.SuggestFilters | Question2/src/spell_checker.c:42-54 | suggestWords reports, in preorder, exactly the tree words within `maxDistance` of the query |
| SpellChecker.SuggestSelf | Question2/src/spell_checker.c:46-48 | a word in the tree is suggested for itself whenever `maxDistance` is non-negative |
| PathFinding.ToLower | Question4/src/path_finding.c:23 | tolower leaves no upper-case letter and keeps white space |
| PathFinding.SkipLeadingProps | Question4/src/path_finding.c:19 | the first loop drops exactly the leading white space |
| PathFinding.LowerProps | Question4/src/path_finding.c:22-24 | the copy lower-cases every character |
| PathFinding.DropTrailingProps | Question4/src/path_finding.c:27-29 | the last loop drops exactly the trailing white space |
| PathFinding.NormalizeCity | Question4/src/path_finding.c:15-30 | a normalised name has no leading or trailing white space and no upper-case letter |
| PathFinding.NormalizeMiddle | Question4/src/path_finding.c:15-30 | the normalised name is the lower-cased input with only white space cut from both ends |
| PathFinding.NormalizeIdempotent | Question4/src/path_finding.c:15-30 | normalising twice is normalising once |
| PathFinding.Keys | Question4/src/path_finding.c:62 | the stored names compared after normalisation |
| PathFinding.FindKey | Question4/src/path_finding.c:105-113 | the first matching index from i on, or -1 exactly when none matches |
| PathFinding.FindCityIndex | Question4/src/path_finding.c:101-114 | the smallest index whose normalised name equals the normalised query, or -1 exactly when there is none |
| PathFinding.FindOrAdd | Question4/src/path_finding.c:57-74 | a known name keeps the list; an unknown one is appended; the index returned holds the name |
| PathFinding.FindOrAddFound | Question4/src/path_finding.c:57-74 | a later lookup finds the name at the index find-or-add returned |
| PathFinding.FindOrAddDistinct | Question4/src/path_finding.c:70-74 | no two stored names normalise alike, before or after |
| PathFinding.FindExtended | Question4/src/path_finding.c:77-88 | appending a name does not move where a known name is found |
| PathFinding.InitializeGraph | Question4/src/path_finding.c:43-51 | no cities; the diagonal is 0 and every other entry is `INT_MAX` |
| PathFinding.SetTime | Question4/src/path_finding.c:96-97 | both directions get the time and no other entry changes |
| PathFinding.AddEdge | Question4/src/path_finding.c:54-98 | the names after find-or-add of both ends; both directions between them get the time; nothing else changes |
| PathFinding.LookupsAfter | Question4/src/path_finding.c:54-98 | the edge's ends are where later lookups find the two names |
| PathFinding.AddEdgeSymmetric | Question4/src/path_finding.c:96-97 | addEdge keeps the matrix symmetric |
| PathFinding.SetTimeSymmetric | Question4/src/path_finding.c:96-97 | the two stores keep the matrix symmetric |
| PathFinding.AddEdgeNames | Question4/src/path_finding.c:54-98 | the city count grows by at most 2, by exactly the number of new normalised names; old names keep their places; no name is stored twice |
| PathFinding.SecondLookup | Question4/src/path_finding.c:77-93 | the second end is new exactly when it was new and differs from the first after normalisation |
| PathFinding.EdgeTimes | Question4/src/path_finding.c:196-197 | a route of k cities has k-1 hop times |
| PathFinding.WeightIsSum | Question4/src/path_finding.c:180 | a route's weight is the sum of its hop times |
| PathFinding.WeightPrefix | Question4/src/path_finding.c:164-170 | with non-negative times a prefix weighs no more than the route |
| PathFinding.WeightNonNegative | Question4/src/path_finding.c:164-170 | with non-negative times routes weigh at least 0 |
| PathFinding.PrefixPath | Question4/src/path_finding.c:185-197 | a prefix of a route is a route, one hop lighter |
| PathFinding.SelectMin | Question4/src/path_finding.c:149-159 | the first unvisited city of least finite distance, or -1 exactly when every unvisited city is at `INT_MAX` |
| PathFinding.Relax | Question4/src/path_finding.c:164-170 | each unvisited neighbour's distance and predecessor are lowered through the chosen city where that is shorter |
| PathFinding.ShortestPath | Question4/src/path_finding.c:185-195 | a non-empty predecessor chain starts at the start and ends at the city asked for |
| PathFinding.HopTimes | Question4/src/path_finding.c:196-197 | one `distances[j] - distances[prev[j]]` per hop |
| PathFinding.FirstUnvisited | Question4/src/path_finding.c:148-161 | a route that ends outside the visited set leaves it at some first city |
| PathFinding.ExitBound | Question4/src/path_finding.c:164-170 | that first city's distance is at most the route's weight |
| PathFinding.PickSettled | Question4/src/path_finding.c:149-161 | the selected city's distance is at most the weight of every route to it |
| PathFinding.StepSettled | Question4/src/path_finding.c:161-170 | every visited city keeps a distance no greater than any route to it |
| PathFinding.StepRelaxed | Question4/src/path_finding.c:164-170 | every edge out of a visited city is relaxed |
| PathFinding.StepChained | Question4/src/path_finding.c:164-169 | every finite distance is backed by its predecessor's distance plus an edge |
| PathFinding.ChainPath | Question4/src/path_finding.c:185-195 | following the predecessors from a reached city gives a route from the start whose prefixes weigh their distances |
| PathFinding.ExtendTraced | Question4/src/path_finding.c:195-197 | a traced route extends by a tight edge |
| PathFinding.Covering | Question4/src/path_finding.c:148 | n distinct visited cities out of n are all of them |
| PathFinding.Range | Question4/src/path_finding.c:136-138 | the n city indices |
| PathFinding.AllVisited | Question4/src/path_finding.c:148-161 | after n selections every city is visited |
| PathFinding.AllSettled | Question4/src/path_finding.c:148-171 | at the end every distance is at most the weight of every route to the city |
| PathFinding.ShortestDistances | Question4/src/path_finding.c:135-171 | `distances[start]` is 0; each distance below `INT_MAX` is the minimum route weight, reached by the predecessor chain; unreachable cities stay at `INT_MAX` |
| PathFinding.Dijkstra | Question4/src/path_finding.c:117-182 | unknown cities are reported, each one named; otherwise "No path" only when no route is lighter than `INT_MAX`, or a lightest route with its hop times and total |
| FriendDetection.Start | Question3/main.c:4-6 | at program start nodeCount is 0 and every number of addEdge's zero-initialised `static` table is the empty string; the graph holds whatever the stack held |
| FriendDetection.StartCleared | Question3/src/friend_detection.c:4-11 | initializeGraph makes the stack contents irrelevant: from any of them it yields the same state, with every cell 0, nodeCount 0 and an empty number table |
| FriendDetection.InitializeGraph | Question3/src/friend_detection.c:4-11 | every entry is 0, so the matrix is symmetric and 0/1; nodeCount is 0; addEdge's table is untouched |
| FriendDetection.Lookup | Question3/src/friend_detection.c:19-24 | the first of the first nodeCount numbers equal to the one sought, or -1 exactly when there is none |
| FriendDetection.FindOrAdd | Question3/src/friend_detection.c:18-29 | a known number keeps its first index; an unknown one is stored at nodeCount, nodeCount grows by one, and earlier entries are kept |
| FriendDetection.NewNumbers | Question3/src/friend_detection.c:18-42 | an edge adds at most two numbers, and at most one when caller and callee are equal |
| FriendDetection.Connect | Question3/src/friend_detection.c:45-46 | both directions become 1 and nothing else changes |
| FriendDetection.AddEdge | Question3/src/friend_detection.c:14-47 | nodeCount grows by exactly the numbers that were new; old entries stay; the entries between the first indices of caller and callee are 1; nothing else changes |
| FriendDetection.FirstIndex | Question3/src/friend_detection.c:25-29 | a later lookup finds the number where find-or-add put it |
| FriendDetection.FirstKept | Question3/src/friend_detection.c:38-42 | storing the callee does not move the caller |
| FriendDetection.SecondLookup | Question3/src/friend_detection.c:32-42 | the callee is new exactly when it was new and differs from the caller |
| FriendDetection.AddEdgeShape | Question3/src/friend_detection.c:45-46 | addEdge keeps the matrix symmetric and 0/1-valued |
| FriendDetection.Row | Question3/src/friend_detection.c:68-72 | the listed indices are exactly those below nodeCount whose entry in the target's row is 1, in increasing order |
| FriendDetection.DirectContacts | Question3/src/friend_detection.c:55-65 | "not found" exactly when the table's first nodeCount numbers do not hold the target |
| FriendDetection.FindDirectContacts | Question3/src/friend_detection.c:50-73 | as written, "not found" for every number except the empty one, which is found once there is a node |
| FriendDetection.FindDirectContactsShared | Question3/src/friend_detection.c:50-73 | corrected, reading addEdge's table: "not found" exactly for numbers never stored |
| FriendDetection.NeverFound | Question3/src/friend_detection.c:51-60 | as written, no number other than the empty string is ever found, and the empty string finds row 0 once there is a node |
| FriendDetection.SharedListsNeighbours | Question3/src/friend_detection.c:67-72 | corrected: a known number lists exactly its neighbours among the first nodeCount nodes, each printed with its own number |
| FriendDetection.FirstCallOn | Question3/src/friend_detection.c:50-73 | after one call between two numbers on a cleared graph, the caller is not found as written, while the corrected query lists the callee |
| FriendDetection.FirstCallContacts | Question3/src/friend_detection.c:50-73 | the same, from the initialised graph |
| Mp3Player.Walk | Question1/src/mp3_player.c:39-43 | following `next` visits at most as many nodes as the fuel allows |
| Mp3Player.InitializePlaylist | Question1/src/mp3_player.c:4-6 | the head is NULL and there are no songs |
| Mp3Player.AddSong | Question1/src/mp3_player.c:9-29 | a failed allocation leaves the list as it was; otherwise the song list becomes the old one plus the new name, the links stay consistent, and a non-empty list keeps its head |
| Mp3Player.LinksConsistent | Question1/src/mp3_player.c:15-27 | b follows a exactly when a precedes b; the head has no predecessor; the tail has no successor |
| Mp3Player.WalkFrom | Question1/src/mp3_player.c:22-25 | walking `next` from a node visits the names from that node on |
| Mp3Player.WalkNames | Question1/src/mp3_player.c:19-28 | walking from the head visits every song in the order added |
| Mp3Player.Step | Question1/src/mp3_player.c:62-81 | the cursor stays on a node, and a played song is the one under the new cursor |
| Mp3Player.StepMoves | Question1/src/mp3_player.c:62-81 | `n` moves to the successor only if there is one, `p` to the predecessor only if there is one, and anything else stays put; the end messages appear exactly at the ends |
| Mp3Player.Navigate | Question1/src/mp3_player.c:56-83 | the cursor stays on the list; a `q` in the input makes "Exiting" the last event |
| Mp3Player.NavigatePosition | Question1/src/mp3_player.c:58-82 | the final cursor is the position computed on positions alone |
| Mp3Player.QuitStops | Question1/src/mp3_player.c:76-79 | nothing after the first `q` is read |
| Mp3Player.ForwardClamps | Question1/src/mp3_player.c:62-68 | k `n` commands move k songs forward, stopping at the last song |

## Left out

- File and console I/O. This covers `fopen`/`fread`/`fwrite`/`fgetc`, the error returns for files that cannot be opened, `calculateFileSize`, `scanf`, the directory scan of Question1/main.c, and every `display*`/`print` function and menu. Files are byte sequences, and printed messages are result values.
- All `main.c` drivers. Question3/main.c also calls `addContact`, `searchContact` (main.c:60), `Contact` and `displayMainMenu`. These are not declared in Question3/include/friend_detection.h, and their definitions are not part of this model. It also passes an extra `contacts` argument to `initializeGraph`, `addEdge`, `findDirectContacts` and `displayAdjacencyMatrix` (main.c:10, 23, 49, 66), which the prototypes at friend_detection.h:12-15 do not take. The model follows the prototypes and their definitions in friend_detection.c.
- Memory management. `malloc` failure before `exit(1)`, `free`, `freeHuffmanTree`, `freeTree`, and `huffman.c` freeing only the root have no counterpart in immutable values. The one allocation failure the source handles, in `addSong`, is the `mallocOk` parameter of Mp3Player.AddSong.
- The compression-ratio printing in floating point.
- Native integer layout is fixed to one build: 8-byte little-endian `long` and 4-byte `int`. Other ABIs are not modelled.
- HuffTree.GenCodes: codes are bit strings of any length, while both codecs keep a code in a 32-bit `unsigned int` (see Findings). Far fewer bytes than the `int` counters allow already make a tree deeper than 32: 34 byte values whose counts are the Fibonacci numbers 1, 1, 2, ..., 5702887 (14,930,351 bytes) give a chain of depth 33. HuffTree.CodeWord and HuffTree.EmitAll model the field and the write loop as written. The 8-bit `len` of huffman.c cannot wrap, because a tree of at most 256 leaves is at most 255 deep.
- HuffmanCoding.RoundTrip: promised only for inputs whose codes all fit the 32-bit field (HuffmanCoding.CodesFitInput). For a deeper tree the C's compress loop is undefined, so nothing is promised there.
- HuffmanAlt.Compress: each code is written whole. `writeBits` in huffman.c takes the code in the same 32-bit `unsigned int`, so for a tree deeper than 32 the C is undefined. The as-written lemmas about huffman.c (HuffmanAlt.FlushLoss, HuffmanAlt.CountWrapLoses, HuffmanAlt.SizeWrapLoses and the others) describe the run with whole codes. That run is the C's own while the codes fit (HuffTree.EmitAllFits).
- HuffmanCoding.Compress requires the input to be shorter than 2^31 bytes, because the C counts bytes in `int`. Overflow of those counters is not modelled.
- HuffmanAlt.Compress: `writeBits`' `static` buffer carries over between calls of `compressFile` in one process. The model starts each compression with an empty buffer.
- HuffmanCoding.DecompressWith: the entry count read back as 0 or negative is reported as `Undefined` (the C allocates a zero- or negative-length array and then reads past it). The model does not follow that run further. A large positive count is not bounded by the stack: the variable-length arrays `data[uniqueChars]` and `freq[uniqueChars]` (huffman_coding.c:338-339) can exhaust it. The model treats any count as allocatable and rejects only a file too short for its records.
- Fixed-size string buffers with unchecked `strcpy` become preconditions (Bytes.FitsBuffer: non-NUL bytes, room for the NUL), not overflow behaviour:
  - 256-byte words and song names;
  - 50-byte city names;
  - 10-byte phone numbers;
  - the 100-entry node and city tables.
- PathFinding.ShortestDistances and PathFinding.Dijkstra require non-negative travel times; the driver in Question4/main.c only adds positive ones. Neither models overflow of `distances[u] + graph[u][j]` past `INT_MAX`, so `INT_MAX` is only an "unreachable" mark.
- PathFinding.ShortestPath gives the printing recursion of `displayShortestPath` a fuel of cityCount steps. The C recursion is unbounded, but on the predecessor chains Dijkstra leaves it never needs more.
- Mp3Player.Navigate models a finite command input that may end without `q`. In C, `scanf` at end of input leaves the previous command in place and loops for ever. The 10-byte command buffer's overflow is not modelled.
- Mp3Player.Step: on an empty playlist `navigatePlaylist` dereferences NULL. The driver never calls it that way, and the model requires a cursor on the list.
- SpellChecker.Compare returns only the sign of `strcmp`, which is all the callers use.
- The spell checker's dictionary loader is in Question2/main.c and is not part of this model. `freeTree` (Question2/src/spell_checker.c:86-92, called from Question2/main.c) only releases memory, as covered above.

## Findings

| source | as written | input that shows it | evidently intended | confidence | as-written member | corrected member |
|---|---|---|---|---|---|---|
| Question5/src/huffman.c:115-125 | `flushBits` declares its own `static` buffer and bit count, which nothing writes, so the last partial byte of the codes is never emitted | eight 'A' then one 'B' (9 one-bit codes): only the first 8 bytes come back | the flush pads and writes the pending bits of `writeBits`' buffer | high, not executed | HuffmanAlt.FlushLossExample | HuffmanAlt.RoundTripFixed |
| Question5/src/huffman.c:184-190 | the entry count and every symbol count are written with `fputc`, which keeps only the low byte | 256 'A' then one 'B': 'A' is stored with count 0 and never decoded | counts stored in a field wide enough for the input, as in huffman_coding.c | high, not executed | HuffmanAlt.CountWrapExample | HuffmanAlt.RoundTripFixed |
| Question5/src/huffman.c:185-186 | the input length is truncated to an `unsigned short` | any input of 65536 bytes or more: fewer bytes come back | the length stored in a field wide enough for the input | high, not executed | HuffmanAlt.SizeWrapLoses | HuffmanAlt.RoundTripFixed |
| Question5/src/huffman.c:127-131 | a lone-leaf tree gives its symbol the empty code, so nothing is written, and the decoder writes nothing | nine 'A': decompresses to the empty file | a lone leaf is repeated `size` times on decompression | high, not executed | HuffmanAlt.SingleSymbolLost | HuffmanAlt.RoundTripFixed |
| Question5/src/huffman_coding.c:360-365 | the same lone-leaf case: an empty payload, and the decoder stops with "Unexpected end of compressed file" | "AAA": decompresses to the empty file | a lone leaf is repeated `originalSize` times | high, not executed | HuffmanCoding.SingleSymbolLost | HuffmanCoding.RoundTripFixed |
| Question3/src/friend_detection.c:51-60 | `findDirectContacts` searches a `static` table of its own, which nothing fills, instead of the numbers `addEdge` stored | after `addEdge("0781", "0782")`, querying "0781" reports "not found" | search the numbers `addEdge` stored and list the target's row | high, not executed | FriendDetection.NeverFound | FriendDetection.SharedListsNeighbours |
| Question5/src/huffman_coding.c:159-165 | generateCodes keeps each code in an `unsigned int` and shifts it left once per level, so a leaf deeper than 32 loses the first bits of its path; the compress loop at line 287 then shifts that word by 32 or more, which C leaves undefined (huffman.c:134-136 and 103 have the same field) | 34 distinct bytes whose counts are the Fibonacci numbers 1, 1, 2, 3, ..., 5702887 (14,930,351 bytes): the tree is a chain of depth 33, and its two deepest codes differ only in their first bit | every code written whole, for instance from a bit array of its path | medium, not executed | HuffTree.CodeWordCollides | HuffmanCoding.RoundTripFixed |
