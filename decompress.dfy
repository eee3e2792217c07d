// The decompressor of decompress.c: list_size, reconstruct_huffman_tree and
// decompress, with the facts that make it undo the compressor.

module Decompress {
  import opened Options
  import opened BitTools
  import opened PriorityQueue
  import opened HuffmanTree
  import opened HuffmanCodes

  // ---------------------------------------------------------------------
  // Reading single bits

  /** Reading one bit takes the first bit of the stream. */
  lemma {:induction false} ReadOne(b: bool, rest: seq<bool>, open: bool)
    ensures ReadN(Stream([b] + rest, open), 1) == Some((if b then 1 else 0, Stream(rest, open)))
  {
    var bits := [b] + rest;
    assert bits[1..] == rest;
    assert bits[0] == b;
    assert Pack(bits, 1) == (2 * Pack(bits, 0) + if b then 1 else 0) % 0x100;
  }

  /** At the end of an open file one read gives 0 and closes it. */
  lemma {:induction false} ReadAtEnd()
    ensures ReadN(Stream([], true), 1) == Some((0, Stream([], false)))
  {
    var bits := [] + [false];
    assert bits[0] == false;
    assert Pack(bits, 1) == (2 * Pack(bits, 0) + 0) % 0x100;
  }

  /** A reader whose file is closed has no bits left. */
  lemma {:induction false} ClosedDrained(r: BitReader)
    requires r.Valid()
    ensures r.isOpen || r.State().bits == []
  {
    if !r.isOpen {
      assert r.data[r.pos..] == [];
      assert r.Buffered() == [];
    }
  }

  // ---------------------------------------------------------------------
  // list_size

  /** list_size: the number of nodes, counted by walking the links. */
  method ListSize<T>(head: Queue<T>) returns (size: nat)
    ensures size == |head.items|
  {
    size := 0;
    var rest := head.items;
    while rest != []
      invariant size + |rest| == |head.items|
      decreases |rest|
    {
      size := size + 1;
      rest := rest[1..];
    }
  }

  // ---------------------------------------------------------------------
  // reconstruct_huffman_tree

  /** A tree as the decompressor rebuilds it from its table: characters at
      the leaves, '\0' at internal nodes, every frequency 0. */
  function Shape(t: Tree): (r: Tree)
    ensures Chars(r) == Chars(t) && Size(r) == Size(t)
  {
    match t
    case Leaf(c, _) => Leaf(c, 0)
    case Node(_, _, l, r) => Node(0, 0, Shape(l), Shape(r))
  }

  /** What reconstruct_huffman_tree does: the tree it returns, or a crash
      (popping an empty stack, or reading a character past the end of the
      file). */
  datatype Outcome = Built(root: Option<Tree>) | Crash

  /** The loop of reconstruct_huffman_tree from a stream and a stack (head
      first): while the file is open, a bit 1 pushes a leaf holding the
      next eight bits; a bit 0 returns the only tree on a one-tree stack, and
      otherwise pops the right and then the left subtree and pushes their
      parent. Once the file is closed it returns NULL. */
  function Rebuild(s: Stream, stack: seq<Tree>): Outcome
    decreases Remaining(s)
  {
    if !s.open then Built(None)
    else match ReadN(s, 1)
      case None => Crash
      case Some((bit, s1)) =>
        if bit == 1 then
          match ReadN(s1, 8)
          case None => Crash
          case Some((c, s2)) => Rebuild(s2, [Leaf(c, 0)] + stack)
        else if |stack| == 1 then Built(Some(stack[0]))
        else if |stack| == 0 then Crash
        else Rebuild(s1, [Node(0, 0, stack[1], stack[0])] + stack[2..])
  }

  /** reconstruct_huffman_tree, with a stack of trees in a list; the list of
      spent stack nodes it frees at the end is not modelled. */
  method ReconstructHuffmanTree(reader: BitReader) returns (root: Option<Tree>)
    requires reader.Valid() && Rebuild(reader.State(), []) != Crash
    modifies reader
    ensures reader.Valid()
    ensures Built(root) == Rebuild(old(reader.State()), [])
  {
    var stack := new Queue<Tree>();
    while reader.isOpen
      invariant reader.Valid()
      invariant Rebuild(reader.State(), stack.items) == Rebuild(old(reader.State()), [])
      invariant Rebuild(reader.State(), stack.items) != Crash
      decreases Remaining(reader.State())
    {
      var done;
      done, root := RebuildStep(reader, stack);
      if done {
        return;
      }
    }
    root := None;
  }

  /** One pass of reconstruct_huffman_tree's loop: it either returns the
      tree or leaves a stream and stack that rebuild the same outcome. */
  method RebuildStep(reader: BitReader, stack: Queue<Tree>) returns (done: bool, root: Option<Tree>)
    requires reader.Valid() && reader.isOpen && Rebuild(reader.State(), stack.items) != Crash
    modifies reader, stack
    ensures reader.Valid()
    ensures done ==> Built(root) == old(Rebuild(reader.State(), stack.items))
    ensures !done ==> Rebuild(reader.State(), stack.items) == old(Rebuild(reader.State(), stack.items))
    ensures !done ==> Remaining(reader.State()) < old(Remaining(reader.State()))
  {
    ghost var s := reader.State();
    var bit := reader.ReadBit();
    done, root := false, None;
    if bit == 1 {
      var c := reader.ReadBits(8);
      stack.Push(Leaf(c, 0));
    } else {
      var size := ListSize(stack);
      if size == 1 {
        root := stack.Pop();
        done := true;
        return;
      }
      var right := stack.Pop();
      var left := stack.Pop();
      stack.Push(Node(0, 0, left.value, right.value));
    }
    assert Remaining(reader.State()) < Remaining(s);
  }

  /** Reading a tree's table pushes the tree's shape. */
  lemma {:induction false} RebuildTable(t: Tree, rest: seq<bool>, stack: seq<Tree>)
    ensures Rebuild(Stream(Table(t) + rest, true), stack) == Rebuild(Stream(rest, true), [Shape(t)] + stack)
  {
    match t
    case Leaf(c, _) =>
      var bits := BitsOf(c, 8) + rest;
      assert Table(t) + rest == [true] + bits;
      ReadOne(true, bits, true);
      ReadByteBack(c, rest, true);
    case Node(_, _, l, r) =>
      var s1 := [Shape(l)] + stack;
      var s2 := [Shape(r)] + s1;
      assert Table(t) + rest == Table(l) + (Table(r) + ([false] + rest));
      RebuildTable(l, Table(r) + ([false] + rest), stack);
      RebuildTable(r, [false] + rest, s1);
      ReadOne(false, rest, true);
      assert s2[2..] == stack;
  }

  /** Zero bits after a single tree, or the end of the file, return it. */
  lemma {:induction false} RebuildDone(k: nat, x: Tree)
    ensures Rebuild(Stream(Zeros(k), true), [x]) == Built(Some(x))
  {
    if k == 0 {
      ReadAtEnd();
    } else {
      assert Zeros(k) == [false] + Zeros(k - 1);
      ReadOne(false, Zeros(k - 1), true);
    }
  }

  /** The table of a tree, padded to whole bytes as the writer leaves it,
      rebuilds the tree's shape. */
  lemma {:induction false} RebuildPadded(t: Tree)
    ensures Rebuild(Stream(Padded(Table(t)), true), []) == Built(Some(Shape(t)))
  {
    var k := 8 - |Table(t)| % 8;
    RebuildTable(t, Zeros(k), []);
    RebuildDone(k, Shape(t));
  }

  // ---------------------------------------------------------------------
  // decompress

  /** The inner loop of decompress: from a node, a bit 0 goes to the left
      child and a bit 1 to the right one, until a leaf. */
  function Walk(t: Tree, s: Stream): Option<(byte, Stream)>
  {
    match t
    case Leaf(c, _) => Some((c, s))
    case Node(_, _, l, r) =>
      match ReadN(s, 1)
      case None => None
      case Some((bit, s1)) => Walk(if bit == 0 then l else r, s1)
  }

  /** The first n bytes decompress writes, and the bits left; None when it
      would crash (a NULL root, or reading past the end of the file). */
  function Decoded(root: Option<Tree>, s: Stream, n: nat): Option<(seq<byte>, Stream)>
  {
    if n == 0 then Some(([], s))
    else match Decoded(root, s, n - 1)
      case None => None
      case Some((out, s1)) =>
        if root.None? then None
        else match Walk(root.value, s1)
          case None => None
          case Some((c, s2)) => Some((out + [c], s2))
  }

  /** One more step of decompress: a walk from the root after n - 1 bytes. */
  lemma {:induction false} DecodedStep(root: Tree, s: Stream, n: nat, out: seq<byte>, mid: Stream, c: byte, after: Stream)
    requires n > 0 && Decoded(Some(root), s, n - 1) == Some((out, mid))
    requires Walk(root, mid) == Some((c, after))
    ensures Decoded(Some(root), s, n) == Some((out + [c], after))
  {
  }

  /** With a single-leaf tree decompress reads no bits and writes the
      leaf's character n times. */
  lemma {:induction false} DecodedSingleLeaf(c: byte, f: nat, s: Stream, n: nat)
    ensures Decoded(Some(Leaf(c, f)), s, n) == Some((seq(n, _ => c), s))
  {
    if n > 0 {
      DecodedSingleLeaf(c, f, s, n - 1);
      assert seq(n - 1, _ => c) + [c] == seq(n, _ => c);
    } else {
      assert seq(n, _ => c) == [];
    }
  }

  /** A defined run of n steps is a defined run of every shorter length. */
  lemma {:induction false} DecodedPrefix(root: Option<Tree>, s: Stream, m: nat, n: nat)
    requires m <= n && Decoded(root, s, n).Some?
    ensures Decoded(root, s, m).Some?
    decreases n
  {
    if m < n {
      DecodedPrefix(root, s, m, n - 1);
    }
  }

  /** decompress: reads the byte count from the start of the file, then
      walks the tree from the root for each byte and writes the leaf's
      character. */
  method Decompress(reader: BitReader, root: Option<Tree>) returns (output: seq<byte>)
    requires reader.Valid() && reader.isOpen && reader.pos + 4 <= |reader.data|
    requires Decoded(root, Stream(reader.Buffered() + BytesToBits(reader.data[reader.pos + 4..]), true),
                     LittleEndian32(reader.data[reader.pos..reader.pos + 4])).Some?
    modifies reader
    ensures reader.Valid()
    ensures Decoded(root, Stream(old(reader.Buffered()) + BytesToBits(old(reader.data)[old(reader.pos) + 4..]), true),
                    LittleEndian32(old(reader.data)[old(reader.pos)..old(reader.pos) + 4]))
            == Some((output, reader.State()))
  {
    var count := reader.ReadRawUint32();
    ghost var s0 := reader.State();
    output := [];
    var written := 0;
    while written < count
      invariant reader.Valid() && written <= count
      invariant Decoded(root, s0, written) == Some((output, reader.State()))
      invariant Decoded(root, s0, count).Some?
    {
      DecodedPrefix(root, s0, written + 1, count);
      ghost var start := reader.State();
      var c := WalkToLeaf(reader, root.value);
      DecodedStep(root.value, s0, written + 1, output, start, c, reader.State());
      output := output + [c];
      written := written + 1;
    }
  }

  /** The inner loop of decompress: from the root down to a leaf, reading a
      bit at each internal node. */
  method WalkToLeaf(reader: BitReader, root: Tree) returns (c: byte)
    requires reader.Valid() && Walk(root, reader.State()).Some?
    modifies reader
    ensures reader.Valid()
    ensures Walk(root, old(reader.State())) == Some((c, reader.State()))
  {
    var curr := root;
    while curr.Node?
      invariant reader.Valid()
      invariant Walk(curr, reader.State()) == Walk(root, old(reader.State()))
      invariant Walk(curr, reader.State()).Some?
      decreases curr
    {
      ClosedDrained(reader);
      var bit := reader.ReadBit();
      curr := if bit == 0 then curr.left else curr.right;
    }
    c := curr.character;
  }

  /** The tree reconstruct_huffman_tree returns from a table file's bytes. */
  function TableTree(table: seq<byte>): Outcome
  {
    Rebuild(Stream(BytesToBits(table), true), [])
  }

  /** The main of the decompressor: rebuilds the tree from the table file,
      then decodes the compressed file with it. Both files are given by
      their contents; the reconstruction and the decoding must not crash. */
  method DecompressMain(compressed: seq<byte>, table: seq<byte>) returns (output: seq<byte>)
    requires TableTree(table) != Crash && |compressed| >= 4
    requires Decoded(TableTree(table).root, Stream(BytesToBits(compressed[4..]), true),
                     LittleEndian32(compressed[..4])).Some?
    ensures Decoded(TableTree(table).root, Stream(BytesToBits(compressed[4..]), true),
                    LittleEndian32(compressed[..4])).value.0 == output
  {
    var tableReader := new BitReader.Open(table, true);
    var root := ReconstructHuffmanTree(tableReader);
    output := DecompressFile(compressed, root);
  }

  /** A reader opened on the compressed file, and decompress run on it. */
  method DecompressFile(compressed: seq<byte>, root: Option<Tree>) returns (output: seq<byte>)
    requires |compressed| >= 4
    requires Decoded(root, Stream(BytesToBits(compressed[4..]), true), LittleEndian32(compressed[..4])).Some?
    ensures Decoded(root, Stream(BytesToBits(compressed[4..]), true), LittleEndian32(compressed[..4])).value.0 == output
  {
    var reader := new BitReader.Open(compressed, true);
    assert reader.Buffered() == [];
    assert reader.data[reader.pos + 4..] == compressed[4..];
    assert reader.data[reader.pos..reader.pos + 4] == compressed[..4];
    assert reader.Buffered() + BytesToBits(reader.data[reader.pos + 4..]) == BytesToBits(compressed[4..]);
    output := Decompress(reader, root);
  }

  // ---------------------------------------------------------------------
  // Decoding undoes encoding

  /** The path to a character's leaf walks the shape back to it. */
  lemma {:induction false} WalkPath(t: Tree, c: byte, rest: seq<bool>, open: bool)
    requires UniqueLeaves(t) && c in Chars(t)
    ensures Walk(Shape(t), Stream(PathTo(t, c) + rest, open)) == Some((c, Stream(rest, open)))
  {
    match t
    case Leaf(_, _) =>
      assert PathTo(t, c) + rest == rest;
    case Node(_, _, l, r) =>
      if c in Chars(l) {
        assert PathTo(t, c) + rest == [false] + (PathTo(l, c) + rest);
        ReadOne(false, PathTo(l, c) + rest, open);
        WalkPath(l, c, rest, open);
      } else {
        assert PathTo(t, c) + rest == [true] + (PathTo(r, c) + rest);
        ReadOne(true, PathTo(r, c) + rest, open);
        WalkPath(r, c, rest, open);
      }
  }

  /** The code a tree with unique leaves gives a character is the path to
      its leaf. */
  lemma {:induction false} CodeIsPath(t: Tree, c: byte)
    requires UniqueLeaves(t) && c in Chars(t)
    ensures Code(Codes(t), c) == PathTo(t, c)
  {
    StoredAt(map[], t, [], c);
  }

  /** Decoding the codes of the first n bytes of data gives them back and
      leaves what follows the codes. */
  lemma {:induction false} DecodeEncoded(t: Tree, data: seq<byte>, n: nat, rest: seq<bool>, open: bool)
    requires UniqueLeaves(t) && n <= |data|
    requires forall k :: 0 <= k < |data| ==> data[k] in Chars(t)
    ensures Decoded(Some(Shape(t)), Stream(Encoded(Codes(t), data, n) + rest, open), n)
            == Some((data[..n], Stream(rest, open)))
  {
    if n > 0 {
      var path := PathTo(t, data[n - 1]);
      DecodeEncoded(t, data, n - 1, path + rest, open);
      DecodeEncodedStep(t, data, n, rest, open);
    } else {
      assert Encoded(Codes(t), data, 0) + rest == rest;
      assert data[..0] == [];
    }
  }

  /** The step of DecodeEncoded from n - 1 bytes to n. */
  lemma {:induction false} DecodeEncodedStep(t: Tree, data: seq<byte>, n: nat, rest: seq<bool>, open: bool)
    requires UniqueLeaves(t) && 0 < n <= |data| && data[n - 1] in Chars(t)
    requires var path := PathTo(t, data[n - 1]);
      Decoded(Some(Shape(t)), Stream(Encoded(Codes(t), data, n - 1) + (path + rest), open), n - 1)
      == Some((data[..n - 1], Stream(path + rest, open)))
    ensures Decoded(Some(Shape(t)), Stream(Encoded(Codes(t), data, n) + rest, open), n)
            == Some((data[..n], Stream(rest, open)))
  {
    var c := data[n - 1];
    var path := PathTo(t, c);
    var front := Encoded(Codes(t), data, n - 1);
    CodeIsPath(t, c);
    Assoc(front, path, rest);
    var s := Stream(Encoded(Codes(t), data, n) + rest, open);
    assert s == Stream(front + (path + rest), open);
    WalkPath(t, c, rest, open);
    DecodedStep(Shape(t), s, n, data[..n - 1], Stream(path + rest, open), c, Stream(rest, open));
    assert data[..n - 1] + [c] == data[..n];
  }
}
