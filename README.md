# Huffman compression: a Dafny model

This project models the Huffman compressor and decompressor of the
repository and proves how they behave. The compressor counts byte
frequencies and builds a Huffman tree by greedy merging over a stable,
sorted linked list. It serialises the tree as a post-order "coding table"
and writes each byte's root-to-leaf code through an MSB-first bit writer,
after a 32-bit count header. The decompressor rebuilds the tree from the
coding table with a stack machine. It then walks the tree bit by bit to
emit exactly the counted number of bytes.

Modules and the source files they model:

- `Options`: the `Option` datatype, shared by the others (no source file).
- `BitTools` (autograder/code/bit_tools.c):
  - `BitWriter` and `BitReader` are classes over their C fields, with the
    file as a byte sequence.
  - A ghost `written` stream ties the writer's `(current_byte,
    num_bits_left)` state to every bit written so far.
  - The reader's state is abstracted as a `Stream` of bits still to come
    plus an "open" flag.
- `PriorityQueue` (code/priority_queue.c): a `Queue` class whose `items`
  sequence is the list from head to tail. The comparison function is a
  function value, and `None` stands for NULL.
- `HuffmanTree` (solution/huffman.c): frequency counting, `_cmp_node` and
  tree construction, with the tree as a datatype.
- `HuffmanCodes` (solution/huffman.c): the coding table writer, the code
  table built by `_store_codes`, and the payload writer.
- `Decompress` (decompress.c): `list_size`, the table reader and the
  decoding walk.
- `Compress` (code/compress.c): `get_total_bytes` and the compressor's
  `main`. It also holds the end-to-end round trip.

The headline results:

- `Decompress.RebuildPadded`: rebuilding from a serialised tree plus its
  flush padding gives a tree with the same shape and leaf characters.
- `Decompress.DecodeEncoded`: decoding an encoded payload gives back the
  input.
- `Compress.RoundTrip` and `Compress.CompressThenDecompress`: decompressing
  the two files that the compressor's `main` writes gives back every
  non-empty input shorter than 2^32 bytes.

The corrected `write_compressed` of the findings below is used throughout.
The count header is fixed as little-endian.

## Model

| member | source | states |
|---|---|---|
| `BitTools.BitWriter.Open` | autograder/code/bit_tools.c:4-7 | A fresh writer has written nothing and holds current byte 0 with 8 bits free; it is open exactly when fopen succeeded |
| `BitTools.BitWriter.WriteBits` | autograder/code/bit_tools.c:9-50 | Appends exactly the low `num_bits_to_write` bits of `bits`, most significant first, to everything written; keeps 1..8 free bits and the emitted-bytes-plus-pending-bits invariant; on a closed file nothing changes |
| `BitTools.BitWriter.WriteFitting` | autograder/code/bit_tools.c:16-29 | The fitting branch appends the masked bits below the pending ones and emits the byte as soon as it fills, keeping the invariant |
| `BitTools.BitWriter.WriteSplitting` | autograder/code/bit_tools.c:30-46 | The split branch completes and emits the current byte with the high bits, then starts the next byte with the rest; together they are the low n bits in order |
| `BitTools.BitWriter.Flush` | autograder/code/bit_tools.c:52-57 | Emits the current byte (0x00 when nothing is pending) and resets to (0, 8); the file's bits become everything written, zero-padded to a byte boundary |
| `BitTools.BitWriter.Close` | autograder/code/bit_tools.c:59-64 | Flushes as above and leaves the writer closed |
| `BitTools.BitWriter.WriteRaw` | code/compress.c:54 | An fwrite that bypasses the cursor adds the bytes to the file; with no bits pending they come before every later bit |
| `BitTools.PackBitsOf` | autograder/code/bit_tools.c:18-20 | Shifting in the k written bits rebuilds `bits & ((1 << k) - 1)` |
| `BitTools.BitReader.Open` | autograder/code/bit_tools.c:66-69 | A fresh reader has no buffered bits (`current_bit` is -1) and will deliver every bit of the file in order; a failed open delivers nothing |
| `BitTools.ReadN` | autograder/code/bit_tools.c:71-104 | A read of n bits succeeds exactly when n bits remain, or when the first read past the end hits EOF; a successful read consumes input |
| `BitTools.ReadNStep` | autograder/code/bit_tools.c:98-101 | Reading n + 1 bits is reading n, then one more, shifted in modulo 256 |
| `BitTools.BitReader.ReadBit` | autograder/code/bit_tools.c:71-93 | Returns the next bit of the stream, MSB-first within each byte, fetching a byte only when `current_bit` is below 0 (then `current_bit` becomes 6), otherwise only decrementing `current_bit`; at EOF it returns 0 and closes the reader |
| `BitTools.BitReader.ReadBits` | autograder/code/bit_tools.c:95-104 | Returns the next n bits packed MSB-first and consumes exactly them |
| `BitTools.ReadByteBack` | autograder/code/bit_tools.c:95-104 | Eight written bits of a byte read back as that byte, leaving the rest of the stream |
| `BitTools.ReadBack` | autograder/code/bit_tools.c:95-104 | Reading k bits back from what `write_bits(c, k)` wrote gives the low k bits of c |
| `BitTools.BitReader.ReadRawUint32` | decompress.c:57-58 | The fread of the count takes the next four file bytes, read as a little-endian number, and leaves the bit stream at the byte after them |
| `BitTools.Uint32RoundTrip` | code/compress.c:54 | A 32-bit count written as four little-endian bytes reads back as itself |
| `Decompress.ReadOne` | autograder/code/bit_tools.c:89-90 | One read takes the first pending bit as 0 or 1 |
| `Decompress.ReadAtEnd` | autograder/code/bit_tools.c:76-81 | At end of file a read returns 0 and marks the reader exhausted |
| `Decompress.ClosedDrained` | autograder/code/bit_tools.c:76-81 | An exhausted reader has no bits left to deliver |
| `PriorityQueue.WalkFrom` | code/priority_queue.c:15-19 | The walk stops after every value the new one does not compare below and before the first that compares above it |
| `PriorityQueue.Slot` | code/priority_queue.c:8-22 | The new node goes to the front with no comparator or before a greater head; otherwise after each value it does not compare below, up to the first greater one |
| `PriorityQueue.InsertContents` | code/priority_queue.c:5-24 | Enqueueing adds exactly one node holding the value, and the other values keep their order |
| `PriorityQueue.EnqueuedSorted` | code/priority_queue.c:8-22 | A list sorted by the comparator stays sorted after an enqueue |
| `PriorityQueue.EnqueuedStable` | code/priority_queue.c:16 | In a sorted list the new value goes after exactly the values it does not compare below, so equal values keep their arrival order |
| `PriorityQueue.EnqueuedFront` | code/priority_queue.c:38-41 | With no comparison function the value becomes the head |
| `PriorityQueue.Dequeued` | code/priority_queue.c:27-36 | Dequeueing returns the head and leaves the tail; an empty list gives NULL and stays empty |
| `PriorityQueue.PushPop` | code/priority_queue.c:38-46 | Pop after push returns the pushed value and the old stack (LIFO) |
| `PriorityQueue.DequeuedLeast` | code/priority_queue.c:27-36 | From a sorted list, dequeue returns a value no remaining value compares below, and what remains is sorted |
| `PriorityQueue.Queue.constructor` | solution/huffman.c:37 | A new list head is NULL: the list is empty |
| `PriorityQueue.Queue.Enqueue` | code/priority_queue.c:3-25 | The list after pq_enqueue, with the walk loop proved to stop at the slot |
| `PriorityQueue.Queue.Dequeue` | code/priority_queue.c:27-36 | pq_dequeue's result and remaining list |
| `PriorityQueue.Queue.Push` | code/priority_queue.c:38-41 | stack_push puts the value on the front |
| `PriorityQueue.Queue.Pop` | code/priority_queue.c:43-46 | stack_pop is pq_dequeue |
| `PriorityQueue.Queue.Destroy` | code/priority_queue.c:48-59 | The list ends empty, and the destroy function (when there is one) sees every value once, in list order |
| `HuffmanTree.CalcFrequencies` | solution/huffman.c:8-26 | On success each slot grows by the number of occurrences of its byte; when the file cannot be opened it returns false and leaves the table alone |
| `HuffmanTree.CountsSum` | solution/huffman.c:17-22 | The counts of a file sum to its length |
| `HuffmanTree.CmpNode` | solution/huffman.c:28-33 | Negative exactly when (frequency, character) is lexicographically smaller, zero exactly when both are equal |
| `HuffmanTree.CmpNodeComparator` | solution/huffman.c:28-33 | The comparison is asymmetric and transitive, so the queue it keeps is ordered |
| `HuffmanTree.ToInt32` | solution/huffman.c:32 | The int conversion keeps the value modulo 2^32 in the signed 32-bit range |
| `HuffmanTree.CmpNodeAsWritten` | solution/huffman.c:32 | The comparison as written returns a signed 32-bit int |
| `HuffmanTree.CmpNodeAsWrittenAgrees` | solution/huffman.c:32 | Below 2^31 the comparison as written equals the exact one |
| `HuffmanTree.CmpNodeAsWrittenMisorders` | solution/huffman.c:32 | Frequencies 2^31 apart compare the wrong way round |
| `HuffmanTree.LeafQueueHolds` | solution/huffman.c:39-47 | The first loop enqueues one leaf per byte with a nonzero count, in (frequency, character) order, and their weights sum to the counts' total |
| `HuffmanTree.PresentHas` | solution/huffman.c:39-47 | A leaf is queued for byte c exactly when its count is nonzero, carrying that count; the characters are distinct |
| `HuffmanTree.PresentEmpty` | solution/huffman.c:49-52 | No leaf is queued exactly when all 256 counts are zero |
| `HuffmanTree.MergeStepKeeps` | solution/huffman.c:61-72 | One merge (first dequeued becomes the left child, second the right) keeps the leaves and total weight, keeps every internal weight the sum of its children, and keeps the queue sorted |
| `HuffmanTree.MergeStepSorted` | solution/huffman.c:63-69 | The merged node re-enqueued with character 0 leaves the queue sorted |
| `HuffmanTree.Merged` | solution/huffman.c:61-72 | The merge loop ends with at most one tree, and with none only for an empty queue |
| `HuffmanTree.MergedKeeps` | solution/huffman.c:61-72 | The whole merge loop keeps the leaves, total weight and weight sums |
| `HuffmanTree.MakeHuffmanTree` | solution/huffman.c:35-81 | The method's loops compute `TreeOf(freq)`: the leaves of the nonzero counts queued in character order, merged two at a time by `Merged` |
| `HuffmanTree.HuffmanTreeHolds` | solution/huffman.c:35-81 | NULL exactly when every count is zero; otherwise the leaves are the nonzero counts, each internal weight is its children's sum, and the root weight is the total |
| `HuffmanTree.HuffmanTreeChars` | solution/huffman.c:49-72 | The characters are exactly the bytes that occur, each once; k leaves give 2k - 1 nodes; a single nonzero count gives that bare leaf |
| `HuffmanTree.SizeOfFullTree` | solution/huffman.c:61-72 | Every node has zero or two children, so a tree of k leaves has 2k - 1 nodes |
| `HuffmanTree.DestroyHuffmanTree` | solution/huffman.c:83-92 | Frees as many nodes as the tree has, the root last, and leaves the root NULL |
| `HuffmanCodes.WriteCodingTable` | solution/huffman.c:94-113 | Writes the post-order table (left subtree, right subtree, then 1 and the 8 character bits for a leaf or 0 for a node), and nothing for NULL |
| `HuffmanCodes.TableLength` | solution/huffman.c:94-113 | The table is 9 bits per leaf plus 1 per internal node, i.e. 10k - 1 bits for k leaves |
| `HuffmanCodes.StoredAt` | solution/huffman.c:133-152 | After `_store_codes` each leaf's entry is its root-to-leaf path ('0' left, '1' right) after the prefix; other entries are kept |
| `HuffmanCodes.StoredCodes` | solution/huffman.c:133-152 | The same for every character at once: the table holds exactly the old entries and the tree's characters |
| `HuffmanCodes.PathsPrefixFree` | solution/huffman.c:133-152 | No character's code is a prefix of another's, and distinct characters get distinct codes |
| `HuffmanCodes.CodeTable.constructor` | solution/huffman.c:6 | The global table starts with no entries |
| `HuffmanCodes.CodeTable.StoreCodes` | solution/huffman.c:133-152 | The recursive method fills the table as `Stored` defines it: each leaf's `PathTo` path after the prefix |
| `HuffmanCodes.CodeTable.Build` | solution/huffman.c:155-159 | Stores every code starting from the empty path |
| `HuffmanCodes.WriteCode` | solution/huffman.c:168-171 | Writes one code bit by bit, in order |
| `HuffmanCodes.WriteCompressed` | solution/huffman.c:161-173 | Corrected: builds the table, then writes the codes of all input bytes in order |
| `HuffmanCodes.FirstZero` | solution/huffman.c:165 | The index of the first 0x00 byte: every byte before it is nonzero |
| `HuffmanCodes.WriteCompressedAsWritten` | solution/huffman.c:161-173 | As written: writes the codes only of the bytes before the first 0x00 |
| `HuffmanCodes.AsWrittenWithoutZeros` | solution/huffman.c:165 | For data without 0x00 the as-written loop over the terminated buffer writes the same bits as the corrected one |
| `Decompress.ListSize` | decompress.c:5-14 | Returns the number of nodes in the list |
| `Decompress.Shape` | decompress.c:26-27 | A rebuilt tree (frequencies 0, internal character 0) has the characters and node count of the original |
| `Decompress.ReconstructHuffmanTree` | decompress.c:16-53 | The stack loop (bit 1: read a character and push a leaf; bit 0: return a lone entry, or pop right then left and push their node) returns the tree `Rebuild` computes, or NULL when the stream runs out |
| `Decompress.RebuildStep` | decompress.c:20-49 | One pass of the loop either returns the lone stacked tree or leaves a stream and stack with the same `Rebuild` outcome, having consumed input |
| `Decompress.RebuildTable` | decompress.c:16-53 | Reading a written table pushes a tree of the same shape onto the stack |
| `Decompress.RebuildDone` | decompress.c:32-39 | A 0 bit with a single entry returns that entry |
| `Decompress.RebuildPadded` | decompress.c:16-53 | The table plus the flush padding rebuilds the tree's shape and characters |
| `Decompress.DecodedStep` | decompress.c:63-80 | Each counted symbol is one walk from the root appended to the output |
| `Decompress.DecodedSingleLeaf` | decompress.c:63-80 | A single-leaf tree consumes no bits and emits its character count times |
| `Decompress.DecodedPrefix` | decompress.c:63-80 | Decoding n symbols also decodes every shorter count |
| `Decompress.WalkToLeaf` | decompress.c:65-76 | The inner loop follows 0 to the left and 1 to the right until a leaf, and returns its character |
| `Decompress.Decompress` | decompress.c:55-81 | Reads the 32-bit count before any bit, then emits exactly that many walked symbols |
| `Decompress.WalkPath` | decompress.c:65-76 | Walking a character's root-to-leaf path reaches that character and consumes just the path |
| `Decompress.CodeIsPath` | solution/huffman.c:133-152 | A character's stored code is its root-to-leaf path |
| `Decompress.DecodeEncoded` | decompress.c:55-81 | Decoding the codes of n input bytes gives back those n bytes and leaves the rest of the stream |
| `Decompress.DecompressFile` | decompress.c:93-95 | Decompressing a file gives the decoded count of symbols after its header |
| `Decompress.DecompressMain` | decompress.c:83-101 | The output is the decoding, with the tree rebuilt from the table file, of the compressed file's payload, for the count in its header |
| `Compress.GetTotalBytes` | code/compress.c:6-14 | The sum of all 256 counts modulo 2^32 |
| `Compress.TotalIsLength` | code/compress.c:49-51 | The header count is the input length modulo 2^32 |
| `Compress.TreeHoldsData` | code/compress.c:52 | For non-empty input there is a tree, its characters are distinct, and it holds every input byte |
| `Compress.WriteCompressedFile` | code/compress.c:53-58 | The compressed file is the 4-byte count, then every payload code, then zero padding to a byte |
| `Compress.WriteTableFile` | code/compress.c:56-59 | The table file is the coding table followed by zero padding to a byte |
| `Compress.CompressMain` | code/compress.c:36-70 | Fails with EXIT_FAILURE and writes nothing when the file cannot be opened; otherwise writes the two files as above and exits with success |
| `Compress.SplitHeader` | code/compress.c:54 | The compressed file begins with the count, and the payload bits follow it |
| `Compress.PaddedDecodes` | code/compress.c:58 | The padding bits do not disturb decoding the counted symbols |
| `Compress.RoundTrip` | code/compress.c:36-70 | For the files the compressor writes, the table rebuilds the tree, the header holds the input length, and decoding gives back the input |
| `Compress.CompressThenDecompress` | code/compress.c:36-70 | Compressing then decompressing returns the input |
| `Compress.TreeOfZeroOne` | solution/huffman.c:35-81 | The input 0x00 0x01 gets the tree with leaf 0x00 on the left and 0x01 on the right |
| `Compress.AsWrittenLosesBytes` | solution/huffman.c:165 | For 0x00 0x01 the as-written payload is empty, and the decompressor decodes the padding as 0x00 0x00 |
| `Compress.PaddingDecodesToZeros` | decompress.c:63-80 | Two symbols walked over a padding byte both come out as the left leaf |

## Left out

- Input files are read as raw bytes. The C code opens them in text mode (`fopen(path, "r")`, solution/huffman.c:10, code/compress.c:18), which is the same on POSIX systems but may translate line endings elsewhere.
- File plumbing (`fopen`, `fclose`, `fgetc`, `fread`, `fwrite`, `fseek`, `ftell`) is not modelled. Files are byte sequences, and an unopenable file is a flag or `None`.
- `read_file` (code/compress.c:16-34) is not modelled. Its NUL-terminated buffer is `data + [0]` in `HuffmanCodes.AsWrittenWithoutZeros`.
- `HuffmanTree.CalcFrequencies`: the error string `*a_error` is not modelled, only the `false` result.
- Counts are unbounded naturals. The `uint64_t` counters and `size_t` frequencies cannot overflow for a file that fits in memory.
- The argument-count checks, usage messages and printing in both `main` functions are not modelled.
- Memory management is not modelled: `malloc`/`free`, the `allocated_heap_nodes` and `allocated_stack_nodes` lists, and `ustrdup`. `HuffmanTree.DestroyHuffmanTree` returns the nodes it frees in order.
- `PriorityQueue.Queue.Dequeue` does not model that the detached node's `next` becomes NULL. List nodes are not modelled.
- The priority queue stores values rather than nodes, so `pq_enqueue`'s returned node pointer is not modelled.
- The global `huffman_table` is the `HuffmanCodes.CodeTable` object. Codes are `seq<bool>` rather than '0'/'1' strings, and the `MAX_TREE_HT` limit of 100 on code length is not modelled.
- `Compress.CompressMain` requires non-empty input. For an empty file the C code passes a NULL root to `_store_codes`, which dereferences it.
- `Compress.CompressMain` assumes both `open_bit_writer` calls succeed. `close_bit_writer` on a failed open passes NULL to fwrite.
- `Decompress.DecompressMain` assumes both readers open and that the table yields a tree.
- `Decompress.DecompressMain` and `Decompress.Decompress` require that the count and the walk stay within the stream. A read after EOF, or a walk from a NULL root, is undefined in C.
- `Decompress.ReconstructHuffmanTree` requires the stream not to pop an empty stack. A leading 0 bit would do so.
- The output file of `decompress` is the returned sequence.
- `close_bit_reader` (autograder/code/bit_tools.c:106-113) is not modelled.
- `BitTools.BitWriter.Flush` requires an open file. `flush_bit_writer` calls fwrite with a NULL file otherwise.
- The count header is little-endian, while the C code writes it in native byte order.
- `HuffmanTree.MakeHuffmanTree` and `HuffmanTree.TreeOf` order the queue by the exact comparison `HuffmanTree.CmpNode`, not by `_cmp_node` as written. The two agree when every frequency is below 2^31 (`HuffmanTree.CmpNodeAsWrittenAgrees`), i.e. for inputs under 2 GiB. Beyond that, the tree, and so `Compress.RoundTrip` and `Compress.CompressThenDecompress`, describe the corrected order.
- `HuffmanTree.CmpNodeAsWritten` models C's usual arithmetic conversions on an LP64 platform: a 64-bit `size_t` and a 32-bit `int`.

## Findings

| source | as written | input that shows it | evidently intended | confidence | as-written member | corrected member |
|---|---|---|---|---|---|---|
| solution/huffman.c:32 | The `size_t` difference of two frequencies is converted to `int`, which keeps only its low 32 bits | Leaves with frequencies 2^31 + 1 and 1 compare as if the heavier came first | Order by (frequency, character) exactly | not executed | `HuffmanTree.CmpNodeAsWrittenMisorders` | `HuffmanTree.CmpNodeComparator` |
| solution/huffman.c:165 | `write_compressed` stops at the first 0x00 byte, while the header counts every byte | The file 0x00 0x01 gets an empty payload and a count of 2, so it decompresses to 0x00 0x00 | Encode every input byte | not executed | `Compress.AsWrittenLosesBytes` | `Compress.RoundTrip` |
