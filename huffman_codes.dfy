// The coding table and the payload writer of solution/huffman.c:
// write_coding_table, _store_codes, build_huffman_table and write_compressed.

module HuffmanCodes {
  import opened Options
  import opened BitTools
  import opened HuffmanTree

  // ---------------------------------------------------------------------
  // write_coding_table

  /** The bits write_coding_table emits for a tree, in post-order: both
      subtrees, then bit 1 and the character (most significant bit first)
      for a leaf, or bit 0 for an internal node. */
  function Table(t: Tree): seq<bool>
  {
    match t
    case Leaf(c, _) => [true] + BitsOf(c, 8)
    case Node(_, _, l, r) => Table(l) + Table(r) + [false]
  }

  /** Nine bits per leaf and one per internal node. */
  lemma {:induction false} TableLength(t: Tree)
    ensures |Table(t)| == 9 * |Leaves(t)| + (Size(t) - |Leaves(t)|)
    ensures |Table(t)| == 10 * |Leaves(t)| - 1
  {
    match t
    case Leaf(_, _) =>
    case Node(_, _, l, r) =>
      TableLength(l);
      TableLength(r);
  }

  /** A one-bit write of 0 or 1 appends that bit. */
  lemma {:induction false} OneBit(b: byte)
    requires b <= 1
    ensures BitsOf(b, 1) == [b == 1]
  {
    assert BitsOf(b, 1)[0] == Bit(b, 0);
  }

  /** write_coding_table: nothing for a NULL root; otherwise the table of
      the tree, through the writer (which drops everything when its file is
      not open). */
  method WriteCodingTable(root: Option<Tree>, w: BitWriter)
    requires w.Valid()
    modifies w
    ensures w.Valid() && w.isOpen == old(w.isOpen)
    ensures w.written == old(w.written) + if w.isOpen && root.Some? then Table(root.value) else []
    decreases if root.Some? then Size(root.value) else 0
  {
    if root.None? {
      return;
    }
    var t := root.value;
    ghost var before := w.written;
    if t.Leaf? {
      // both children are NULL: the recursive calls write nothing
      OneBit(1);
      w.WriteBits(1, 1);
      w.WriteBits(t.character, 8);
      if w.isOpen {
        Assoc(before, [true], BitsOf(t.character, 8));
      }
    } else {
      assert Size(t) == Size(t.left) + Size(t.right) + 1;
      WriteCodingTable(Some(t.left), w);
      WriteCodingTable(Some(t.right), w);
      OneBit(0);
      w.WriteBits(0, 1);
      if w.isOpen {
        Assoc(before, Table(t.left), Table(t.right));
        Assoc(before, Table(t.left) + Table(t.right), [false]);
      }
    }
  }

  // ---------------------------------------------------------------------
  // _store_codes and build_huffman_table

  /** The path from the root to the leaf holding c: false for a step to the
      left child, true for one to the right. */
  function PathTo(t: Tree, c: byte): seq<bool>
    requires c in Chars(t)
  {
    match t
    case Leaf(_, _) => []
    case Node(_, _, l, r) => if c in Chars(l) then [false] + PathTo(l, c) else [true] + PathTo(r, c)
  }

  /** The table after _store_codes(t) with `path` in the buffer: each leaf's
      character gets the path to it, left subtree first. */
  function Stored(codes: map<byte, seq<bool>>, t: Tree, path: seq<bool>): map<byte, seq<bool>>
    decreases t
  {
    match t
    case Leaf(c, _) => codes[c := path]
    case Node(_, _, l, r) => Stored(Stored(codes, l, path + [false]), r, path + [true])
  }

  /** The codes a tree assigns; a single-leaf tree gives its character the
      empty code. */
  function Codes(t: Tree): map<byte, seq<bool>>
  {
    Stored(map[], t, [])
  }

  /** With unique leaves, every character of the tree gets the path to its
      leaf after the buffer's contents, and every other entry stays. */
  lemma {:induction false} StoredCodes(codes: map<byte, seq<bool>>, t: Tree, path: seq<bool>)
    requires UniqueLeaves(t)
    ensures forall c :: c in Stored(codes, t, path) <==> c in codes || c in Chars(t)
    ensures forall c :: c in Chars(t) ==> Stored(codes, t, path)[c] == path + PathTo(t, c)
    ensures forall c :: c in codes && c !in Chars(t) ==> Stored(codes, t, path)[c] == codes[c]
  {
    forall c {
      StoredAt(codes, t, path, c);
    }
  }

  /** StoredCodes for one character. */
  lemma {:induction false} StoredAt(codes: map<byte, seq<bool>>, t: Tree, path: seq<bool>, c: byte)
    requires UniqueLeaves(t)
    ensures c in Stored(codes, t, path) <==> c in codes || c in Chars(t)
    ensures c in Chars(t) ==> Stored(codes, t, path)[c] == path + PathTo(t, c)
    ensures c in codes && c !in Chars(t) ==> Stored(codes, t, path)[c] == codes[c]
    decreases t
  {
    match t
    case Leaf(_, _) =>
    case Node(_, _, l, r) =>
      var mid := Stored(codes, l, path + [false]);
      StoredAt(codes, l, path + [false], c);
      StoredAt(mid, r, path + [true], c);
      if c in Chars(l) {
        assert c !in Chars(r);
        assert (path + [false]) + PathTo(l, c) == path + ([false] + PathTo(l, c));
      } else if c in Chars(r) {
        assert (path + [true]) + PathTo(r, c) == path + ([true] + PathTo(r, c));
      }
  }

  /** Every leaf's character has an entry afterwards, unique leaves or not. */
  lemma {:induction false} StoredHas(codes: map<byte, seq<bool>>, t: Tree, path: seq<bool>, c: byte)
    requires c in codes || c in Chars(t)
    ensures c in Stored(codes, t, path)
    decreases t
  {
    match t
    case Leaf(_, _) =>
    case Node(_, _, l, r) =>
      if c in codes || c in Chars(l) {
        StoredHas(codes, l, path + [false], c);
        StoredHas(Stored(codes, l, path + [false]), r, path + [true], c);
      } else {
        StoredHas(Stored(codes, l, path + [false]), r, path + [true], c);
      }
  }

  /** No code of a tree with unique leaves is a prefix of another's. */
  lemma {:induction false} PathsPrefixFree(t: Tree, c: byte, d: byte, rest: seq<bool>)
    requires UniqueLeaves(t) && c in Chars(t) && d in Chars(t)
    requires PathTo(t, c) + rest == PathTo(t, d)
    ensures c == d && rest == []
  {
    match t
    case Leaf(_, _) =>
    case Node(_, _, l, r) =>
      var pc, pd := PathTo(t, c), PathTo(t, d);
      assert pc[0] == pd[0];
      if c in Chars(l) {
        assert d in Chars(l);
        assert PathTo(l, c) + rest == PathTo(l, d) by {
          assert pd == [false] + PathTo(l, d);
          assert pd == [false] + (PathTo(l, c) + rest);
          assert pd[1..] == PathTo(l, d);
        }
        PathsPrefixFree(l, c, d, rest);
      } else {
        assert d in Chars(r);
        assert PathTo(r, c) + rest == PathTo(r, d) by {
          assert pd == [true] + PathTo(r, d);
          assert pd == [true] + (PathTo(r, c) + rest);
          assert pd[1..] == PathTo(r, d);
        }
        PathsPrefixFree(r, c, d, rest);
      }
  }

  /** huffman_table, the global table of codes: a code as a sequence of bits
      ('0' is false, '1' is true); a byte without an entry has a NULL code. */
  class CodeTable {
    var codes: map<byte, seq<bool>>

    /** The table before anything is stored: all NULL. */
    constructor ()
      ensures codes == map[]
    {
      codes := map[];
    }

    /** _store_codes: `arr` holds the path from the root to `root`; a step
        left appends '0', a step right '1', and a leaf stores a copy of the
        path as its character's code. */
    method StoreCodes(root: Tree, arr: seq<bool>)
      modifies this
      ensures codes == Stored(old(codes), root, arr)
      decreases root
    {
      if root.Node? {
        StoreCodes(root.left, arr + [false]);
        StoreCodes(root.right, arr + [true]);
      }
      if root.Leaf? {
        codes := codes[root.character := arr];
      }
    }

    /** build_huffman_table: _store_codes from the root with an empty path. */
    method Build(root: Tree)
      modifies this
      ensures codes == Stored(old(codes), root, [])
    {
      StoreCodes(root, []);
    }
  }

  // ---------------------------------------------------------------------
  // write_compressed

  /** A byte's code; a byte without one contributes nothing (the writer
      never looks one up). */
  function Code(codes: map<byte, seq<bool>>, c: byte): seq<bool>
  {
    if c in codes then codes[c] else []
  }

  /** The codes of the first n bytes, one after the other. */
  function Encoded(codes: map<byte, seq<bool>>, data: seq<byte>, n: nat): seq<bool>
    requires n <= |data|
  {
    if n == 0 then [] else Encoded(codes, data, n - 1) + Code(codes, data[n - 1])
  }

  /** Encoding looks only at the bytes it encodes. */
  lemma {:induction false} EncodedSame(codes: map<byte, seq<bool>>, a: seq<byte>, b: seq<byte>, n: nat)
    requires n <= |a| && n <= |b| && a[..n] == b[..n]
    ensures Encoded(codes, a, n) == Encoded(codes, b, n)
  {
    if n > 0 {
      assert a[n - 1] == a[..n][n - 1] == b[..n][n - 1] == b[n - 1];
      assert a[..n - 1] == a[..n][..n - 1] == b[..n][..n - 1] == b[..n - 1];
      EncodedSame(codes, a, b, n - 1);
    }
  }

  /** The inner loop of write_compressed: one code, a bit at a time. */
  method WriteCode(w: BitWriter, code: seq<bool>)
    requires w.Valid()
    modifies w
    ensures w.Valid() && w.isOpen == old(w.isOpen)
    ensures w.written == old(w.written) + if w.isOpen then code else []
  {
    for j := 0 to |code|
      invariant w.Valid() && w.isOpen == old(w.isOpen)
      invariant w.written == old(w.written) + if w.isOpen then code[..j] else []
    {
      var bit: byte := if code[j] then 1 else 0;
      OneBit(bit);
      w.WriteBits(bit, 1);
      assert code[..j + 1] == code[..j] + [code[j]];
    }
    assert code[..|code|] == code;
  }

  /** write_compressed, for every byte of the input: builds the table and
      writes each byte's code in input order. Every byte must be at a leaf
      of the tree, or its code would be NULL. */
  method WriteCompressed(w: BitWriter, data: seq<byte>, root: Tree, table: CodeTable)
    requires w.Valid()
    requires forall k :: 0 <= k < |data| ==> data[k] in Chars(root)
    modifies w, table
    ensures table.codes == Stored(old(table.codes), root, [])
    ensures w.Valid() && w.isOpen == old(w.isOpen)
    ensures w.written == old(w.written) + if w.isOpen then Encoded(table.codes, data, |data|) else []
  {
    table.Build(root);
    var codes := table.codes;
    var i := 0;
    while i < |data|
      invariant i <= |data|
      invariant w.Valid() && w.isOpen == old(w.isOpen)
      invariant w.written == old(w.written) + if w.isOpen then Encoded(codes, data, i) else []
      modifies w
    {
      StoredHas(old(table.codes), root, [], data[i]);
      var code := codes[data[i]];
      WriteCode(w, code);
      if w.isOpen {
        Assoc(old(w.written), Encoded(codes, data, i), code);
      }
      i := i + 1;
    }
  }

  /** The index of the first zero byte. */
  function FirstZero(bytes: seq<byte>): (z: nat)
    requires 0 in bytes
    ensures z < |bytes| && bytes[z] == 0 && forall k :: 0 <= k < z ==> bytes[k] != 0
  {
    if bytes[0] == 0 then 0 else FirstZero(bytes[1..]) + 1
  }

  /** write_compressed as written: it walks the buffer read_file returned,
      which ends in a zero byte, and stops at the first zero byte, so the
      bytes from the first 0x00 of the file on are never encoded. */
  method WriteCompressedAsWritten(w: BitWriter, bytes: seq<byte>, root: Tree, table: CodeTable)
    requires w.Valid() && 0 in bytes
    requires forall k :: 0 <= k < FirstZero(bytes) ==> bytes[k] in Chars(root)
    modifies w, table
    ensures table.codes == Stored(old(table.codes), root, [])
    ensures w.Valid() && w.isOpen == old(w.isOpen)
    ensures w.written == old(w.written) + if w.isOpen then Encoded(table.codes, bytes, FirstZero(bytes)) else []
  {
    ghost var z := FirstZero(bytes);
    table.Build(root);
    var codes := table.codes;
    var i := 0;
    while bytes[i] != 0
      invariant i <= z
      invariant w.Valid() && w.isOpen == old(w.isOpen)
      invariant w.written == old(w.written) + if w.isOpen then Encoded(codes, bytes, i) else []
      modifies w
      decreases z - i
    {
      StoredHas(old(table.codes), root, [], bytes[i]);
      var code := codes[bytes[i]];
      WriteCode(w, code);
      if w.isOpen {
        Assoc(old(w.written), Encoded(codes, bytes, i), code);
      }
      i := i + 1;
    }
  }

  /** On a file without zero bytes the written loop encodes every byte of it. */
  lemma {:induction false} AsWrittenWithoutZeros(codes: map<byte, seq<bool>>, data: seq<byte>)
    requires 0 !in data
    ensures FirstZero(data + [0]) == |data|
    ensures Encoded(codes, data + [0], FirstZero(data + [0])) == Encoded(codes, data, |data|)
  {
    var bytes := data + [0];
    assert bytes[..|data|] == data[..|data|];
    EncodedSame(codes, bytes, data, |data|);
  }
}
