// The compressor of code/compress.c: get_total_bytes and main, and the
// round trip through the decompressor.

module Compress {
  import opened Options
  import opened BitTools
  import opened PriorityQueue
  import opened HuffmanTree
  import opened HuffmanCodes
  import opened Decompress

  const ExitSuccess := 0
  const ExitFailure := 1

  /** 2^32: uint32_t arithmetic is modulo this. */
  const Uint32Modulus := 0x1_0000_0000

  lemma {:induction false} ModAdd(a: int, b: int)
    ensures (a % Uint32Modulus + b) % Uint32Modulus == (a + b) % Uint32Modulus
  {
    var q := a / Uint32Modulus;
    assert a == q * Uint32Modulus + a % Uint32Modulus;
    assert a + b == (a % Uint32Modulus + b) + q * Uint32Modulus;
  }

  /** get_total_bytes: the sum of the 256 counts into a uint32_t, which
      wraps. */
  method GetTotalBytes(freqs: seq<nat>) returns (total: nat)
    requires |freqs| == NumChars
    ensures total == FreqSum(freqs, NumChars) % Uint32Modulus
  {
    total := 0;
    for i := 0 to NumChars
      invariant total == FreqSum(freqs, i) % Uint32Modulus
    {
      ModAdd(FreqSum(freqs, i), freqs[i]);
      total := (total + freqs[i]) % Uint32Modulus;
    }
  }

  /** For the counts of a file, the total is the file's length modulo 2^32. */
  lemma {:induction false} TotalIsLength(data: seq<byte>)
    ensures FreqSum(Counts(data), NumChars) % Uint32Modulus == |data| % Uint32Modulus
  {
    CountsSum(data);
  }

  /** The two files main writes for a file's contents: the compressed file,
      a four-byte little-endian count followed by the codes of every byte,
      and the coding table; each is padded to whole bytes. */
  ghost predicate CompressedAs(data: seq<byte>, compressed: seq<byte>, table: seq<byte>)
  {
    var root := TreeOf(Counts(data));
    root.Some?
    && BytesToBits(table) == Padded(Table(root.value))
    && BytesToBits(compressed)
       == Padded(BytesToBits(Uint32Bytes(|data| % Uint32Modulus)) + Encoded(Codes(root.value), data, |data|))
  }

  /** A nonempty file gives a tree with unique leaves holding every byte of
      the file. */
  lemma {:induction false} TreeHoldsData(data: seq<byte>)
    requires data != []
    ensures TreeOf(Counts(data)).Some?
    ensures UniqueLeaves(TreeOf(Counts(data)).value)
    ensures forall k :: 0 <= k < |data| ==> data[k] in Chars(TreeOf(Counts(data)).value)
  {
    var freq := Counts(data);
    assert freq[data[0]] > 0;
    HuffmanTreeHolds(freq);
    HuffmanTreeChars(freq);
    forall k | 0 <= k < |data|
      ensures freq[data[k]] > 0
    {
      assert data[k] in multiset(data);
    }
  }

  /** The main of the compressor, for a file given by its contents (None
      when it cannot be opened). With the counts it builds the tree, writes
      the count and the codes of every byte to the compressed file and the
      tree to the table file, and closes both; when the file cannot be read
      it fails. An empty file would make the tree NULL, which write_compressed
      dereferences, so the file is not empty. */
  method CompressMain(file: Option<seq<byte>>) returns (status: int, compressed: Option<seq<byte>>, table: Option<seq<byte>>)
    requires file.Some? ==> file.value != []
    ensures file.None? ==> status == ExitFailure && compressed.None? && table.None?
    ensures file.Some? ==>
      status == ExitSuccess && compressed.Some? && table.Some?
      && CompressedAs(file.value, compressed.value, table.value)
  {
    var freqs := new nat[NumChars](_ => 0);
    var ok := CalcFrequencies(freqs, file);
    if !ok {
      return ExitFailure, None, None;
    }
    var data := file.value;
    assert freqs[..] == Counts(data);
    var total := GetTotalBytes(freqs[..]);
    TotalIsLength(data);
    var root := MakeHuffmanTree(freqs[..]);
    TreeHoldsData(data);
    var tree := root.value;

    var compressedFile := WriteCompressedFile(data, tree, total);
    var tableFile := WriteTableFile(tree);
    var _, _ := DestroyHuffmanTree(root);
    return ExitSuccess, Some(compressedFile), Some(tableFile);
  }

  /** The compressed file main writes: a bit writer on a new file, the
      count written straight to the file, write_compressed with an empty
      code table, and close_bit_writer. */
  method WriteCompressedFile(data: seq<byte>, tree: Tree, total: nat) returns (file: seq<byte>)
    requires total < Uint32Modulus
    requires forall k :: 0 <= k < |data| ==> data[k] in Chars(tree)
    ensures BytesToBits(file) == Padded(BytesToBits(Uint32Bytes(total)) + Encoded(Codes(tree), data, |data|))
  {
    var writer := new BitWriter.Open(true);
    var header := Uint32Bytes(total);
    writer.WriteRaw(header);
    assert writer.written == BytesToBits(header);
    var codes := new CodeTable();
    WriteCompressed(writer, data, tree, codes);
    ghost var written := writer.written;
    assert written == BytesToBits(header) + Encoded(Codes(tree), data, |data|);
    writer.Close();
    file := writer.file;
  }

  /** The coding table file main writes: write_coding_table into a bit
      writer on a new file, and close_bit_writer. */
  method WriteTableFile(tree: Tree) returns (file: seq<byte>)
    ensures BytesToBits(file) == Padded(Table(tree))
  {
    var writer := new BitWriter.Open(true);
    WriteCodingTable(Some(tree), writer);
    writer.Close();
    file := writer.file;
  }

  // ---------------------------------------------------------------------
  // The round trip

  /** Padding after a whole number of bytes pads only what follows. */
  lemma {:induction false} PaddedAfter(h: seq<bool>, e: seq<bool>)
    requires |h| == 32
    ensures Padded(h + e) == h + Padded(e)
  {
    assert (|h| + |e|) % 8 == |e| % 8;
    assert |h + e| == |h| + |e|;
  }

  /** The compressed file starts with the count and goes on with the padded
      codes. */
  lemma {:induction false} SplitHeader(compressed: seq<byte>, n: nat, e: seq<bool>)
    requires n < Uint32Modulus
    requires BytesToBits(compressed) == Padded(BytesToBits(Uint32Bytes(n)) + e)
    ensures |compressed| >= 4 && LittleEndian32(compressed[..4]) == n
    ensures BytesToBits(compressed[4..]) == Padded(e)
  {
    var h := BytesToBits(Uint32Bytes(n));
    PaddedAfter(h, e);
    assert |compressed| >= 4;
    var front, back := compressed[..4], compressed[4..];
    assert compressed == front + back;
    BytesToBitsAppend(front, back);
    assert BytesToBits(front) == (h + Padded(e))[..32];
    assert BytesToBits(back) == (h + Padded(e))[32..];
    BytesToBitsInjective(front, Uint32Bytes(n));
    Uint32RoundTrip(n);
  }

  /** What main writes for a nonempty file of fewer than 2^32 bytes the
      decompressor turns back into the file: the table rebuilds the tree's
      shape and the count and codes decode to every byte of the file. */
  lemma {:induction false} RoundTrip(data: seq<byte>, compressed: seq<byte>, table: seq<byte>)
    requires data != [] && |data| < Uint32Modulus
    requires CompressedAs(data, compressed, table)
    ensures TableTree(table) == Built(Some(Shape(TreeOf(Counts(data)).value)))
    ensures |compressed| >= 4 && LittleEndian32(compressed[..4]) == |data|
    ensures Decoded(TableTree(table).root, Stream(BytesToBits(compressed[4..]), true), |data|).Some?
    ensures Decoded(TableTree(table).root, Stream(BytesToBits(compressed[4..]), true), |data|).value.0 == data
  {
    var t := TreeOf(Counts(data)).value;
    TreeHoldsData(data);
    RebuildPadded(t);
    assert TableTree(table).root == Some(Shape(t));
    var e := Encoded(Codes(t), data, |data|);
    assert |data| % Uint32Modulus == |data|;
    assert BytesToBits(compressed) == Padded(BytesToBits(Uint32Bytes(|data|)) + e);
    SplitHeader(compressed, |data|, e);
    PaddedDecodes(t, data);
  }

  /** The padded codes of a file decode to the file. */
  lemma {:induction false} PaddedDecodes(t: Tree, data: seq<byte>)
    requires UniqueLeaves(t) && forall k :: 0 <= k < |data| ==> data[k] in Chars(t)
    ensures var d := Decoded(Some(Shape(t)), Stream(Padded(Encoded(Codes(t), data, |data|)), true), |data|);
      d.Some? && d.value.0 == data
  {
    var e := Encoded(Codes(t), data, |data|);
    var k := 8 - |e| % 8;
    DecodeEncoded(t, data, |data|, Zeros(k), true);
    assert data[..|data|] == data;
  }

  /** Compressing a nonempty file of fewer than 2^32 bytes and decompressing
      the two files gives the file back. */
  method CompressThenDecompress(data: seq<byte>) returns (output: seq<byte>)
    requires data != [] && |data| < Uint32Modulus
    ensures output == data
  {
    var status, compressed, table := CompressMain(Some(data));
    RoundTrip(data, compressed.value, table.value);
    output := DecompressMain(compressed.value, table.value);
  }

  // ---------------------------------------------------------------------
  // write_compressed as written loses the bytes from the first 0x00 on

  /** Counts that are zero from m on add nothing to the leaf queue. */
  lemma {:induction false} LeafQueueZeroTail(freq: seq<nat>, m: nat, n: nat)
    requires m <= n <= |freq| == NumChars
    requires forall k :: m <= k < n ==> freq[k] == 0
    ensures LeafQueue(freq, n) == LeafQueue(freq, m)
  {
    if m < n {
      LeafQueueZeroTail(freq, m, n - 1);
    }
  }

  /** The tree of the file [0x00, 0x01]: both bytes once. */
  lemma {:induction false} TreeOfZeroOne()
    ensures TreeOf(Counts([0, 1])) == Some(Node(0, 2, Leaf(0, 1), Leaf(1, 1)))
  {
    var l0, l1 := Leaf(0, 1), Leaf(1, 1);
    LeafQueueOfZeroOne();
    var j := Joined(l0, l1);
    assert MergeStep([l0, l1]) == Enqueued([], j, Some(CmpNode)) == [j];
  }

  /** The leaves make_huffman_tree enqueues for [0x00, 0x01]. */
  lemma {:induction false} LeafQueueOfZeroOne()
    ensures LeafQueue(Counts([0, 1]), NumChars) == [Leaf(0, 1), Leaf(1, 1)]
  {
    var data: seq<byte> := [0, 1];
    var freq := Counts(data);
    assert freq[0] == 1 && freq[1] == 1;
    forall k | 2 <= k < NumChars
      ensures freq[k] == 0
    {
      assert k !in multiset(data);
    }
    LeafQueueZeroTail(freq, 2, NumChars);
    var l0, l1 := Leaf(0, 1), Leaf(1, 1);
    assert LeafQueue(freq, 1) == Enqueued([], l0, Some(CmpNode)) == [l0];
    assert Slot([l0], l1, Some(CmpNode)) == 1;
    assert LeafQueue(freq, 2) == Enqueued([l0], l1, Some(CmpNode)) == [l0, l1];
  }

  /** For the file [0x00, 0x01] write_compressed as written encodes nothing
      (the buffer starts with the zero byte), yet the header counts two
      bytes: the decompressor reads the padding and writes [0x00, 0x00]. */
  lemma {:induction false} AsWrittenLosesBytes()
    ensures var data: seq<byte> := [0, 1];
      var t := Node(0, 2, Leaf(0, 1), Leaf(1, 1));
      TreeOf(Counts(data)) == Some(t)
      && Encoded(Codes(t), data + [0], FirstZero(data + [0])) == []
      && Decoded(Some(Shape(t)), Stream(Padded([]), true), |data|) == Some(([0, 0], Stream(Zeros(6), true)))
  {
    var data: seq<byte> := [0, 1];
    TreeOfZeroOne();
    assert FirstZero(data + [0]) == 0;
    PaddingDecodesToZeros();
  }

  /** Two bytes decoded from one byte of padding with the tree of [0x00, 0x01]
      are both 0x00, the character at the left leaf. */
  lemma {:induction false} PaddingDecodesToZeros()
    ensures Decoded(Some(Shape(Node(0, 2, Leaf(0, 1), Leaf(1, 1)))), Stream(Padded([]), true), 2)
            == Some(([0, 0], Stream(Zeros(6), true)))
  {
    var s := Shape(Node(0, 2, Leaf(0, 1), Leaf(1, 1)));
    assert s == Node(0, 0, Leaf(0, 0), Leaf(1, 0));
    var s0, s1, s2 := Stream(Padded([]), true), Stream([false] + Zeros(6), true), Stream(Zeros(6), true);
    assert Padded([]) == Zeros(8) == [false] + ([false] + Zeros(6));
    ReadOne(false, [false] + Zeros(6), true);
    ReadOne(false, Zeros(6), true);
    assert Walk(s, s0) == Some((0, s1));
    assert Walk(s, s1) == Some((0, s2));
    var none: seq<byte> := [];
    DecodedStep(s, s0, 1, none, s0, 0, s1);
    assert none + [0] == [0];
    DecodedStep(s, s0, 2, [0], s1, 0, s2);
    assert [0] + [0] == [0, 0];
  }
}
