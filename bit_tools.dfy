// The bit cursor of autograder/code/bit_tools.c: a writer that packs bits
// most-significant-first into bytes, and a reader that unpacks them again.
// Files are byte sequences; an unopenable file is a flag. The uint8_t
// arithmetic of the C code is written on integers in [0, 256): `x << k` is
// x * 2^k, `x >> k` is x / 2^k, `x & ((1 << k) - 1)` is x % 2^k, and each
// `|=` joins values whose set bits are disjoint, so it is an addition (the
// model proves the disjointness where it happens).

module Options {
  datatype Option<+T> = None | Some(value: T)
}

module BitTools {
  import opened Options

  /** An unsigned 8-bit value (uint8_t). */
  type byte = b: int | 0 <= b < 0x100

  function Pow2(k: nat): (r: nat)
    ensures r >= 1
  {
    if k == 0 then 1 else 2 * Pow2(k - 1)
  }

  /** x << k */
  function Shl(x: int, k: nat): int
  {
    if k == 0 then x else 2 * Shl(x, k - 1)
  }

  /** x >> k */
  function Shr(x: int, k: nat): int
    decreases k
  {
    if k == 0 then x else Shr(x / 2, k - 1)
  }

  /** x & ((1 << k) - 1): the low k bits of x. */
  function Low(x: int, k: nat): (r: int)
    ensures 0 <= r < Pow2(k)
    decreases k
  {
    if k == 0 then 0 else 2 * Low(x / 2, k - 1) + x % 2
  }

  /** Bit j of c: `(c >> j) & 1`. */
  function Bit(c: int, j: nat): bool
  {
    Shr(c, j) % 2 == 1
  }

  /** The low n bits of c, most significant first. */
  function BitsOf(c: int, n: nat): (r: seq<bool>)
    ensures |r| == n
  {
    seq(n, i requires 0 <= i < n => Bit(c, n - 1 - i))
  }

  /** The first n bits of s shifted into a uint8_t one at a time, as
      `bits = (bits << 1) | bit` does: only the last eight survive. */
  function Pack(s: seq<bool>, n: nat): byte
    requires n <= |s|
  {
    if n == 0 then 0 else (2 * Pack(s, n - 1) + if s[n - 1] then 1 else 0) % 0x100
  }

  function Zeros(n: nat): (r: seq<bool>)
    ensures |r| == n && forall i :: 0 <= i < n ==> !r[i]
  {
    seq(n, _ => false)
  }

  /** The bit stream a byte file carries, each byte most significant bit first. */
  function BytesToBits(s: seq<byte>): (r: seq<bool>)
    ensures |r| == 8 * |s|
  {
    seq(8 * |s|, i requires 0 <= i < 8 * |s| => Bit(s[i / 8], 7 - i % 8))
  }

  /** A bit stream followed by the zero bits that complete its last byte; a
      stream that already ends on a byte boundary gets a whole zero byte. */
  function Padded(bits: seq<bool>): seq<bool>
  {
    bits + Zeros(8 - |bits| % 8)
  }

  // ---------------------------------------------------------------------
  // Shifts and masks.

  lemma {:induction false} Pow2Mono(a: nat, b: nat)
    requires a <= b
    ensures Pow2(a) <= Pow2(b)
    decreases b
  {
    if a < b {
      Pow2Mono(a, b - 1);
    }
  }

  /** A number is its high part shifted back up, plus its low k bits. */
  lemma {:induction false} Recompose(x: int, k: nat)
    ensures x == Shl(Shr(x, k), k) + Low(x, k)
    decreases k
  {
    if k > 0 {
      Recompose(x / 2, k - 1);
    }
  }

  /** Below a value shifted left by k there is room for exactly k bits. */
  lemma {:induction false} ShlShr(a: int, y: int, k: nat)
    requires 0 <= y < Pow2(k)
    ensures Shr(Shl(a, k) + y, k) == a && Low(Shl(a, k) + y, k) == y
  {
    if k > 0 {
      var x := Shl(a, k) + y;
      assert x / 2 == Shl(a, k - 1) + y / 2 && x % 2 == y % 2;
      ShlShr(a, y / 2, k - 1);
    }
  }

  /** A value that fits in k bits is its own low k bits. */
  lemma {:induction false} LowOf(y: int, k: nat)
    requires 0 <= y < Pow2(k)
    ensures Low(y, k) == y
  {
    if k > 0 {
      LowOf(y / 2, k - 1);
    }
  }

  lemma {:induction false} LowZero(k: nat)
    ensures Low(0, k) == 0
  {
    LowOf(0, k);
  }

  lemma {:induction false} ShlAdd(x: int, a: nat, b: nat)
    ensures Shl(Shl(x, a), b) == Shl(x, a + b)
  {
    if b > 0 {
      ShlAdd(x, a, b - 1);
    }
  }

  lemma {:induction false} ShlSum(x: int, y: int, k: nat)
    ensures Shl(x + y, k) == Shl(x, k) + Shl(y, k)
  {
    if k > 0 {
      ShlSum(x, y, k - 1);
    }
  }

  /** A j-bit value shifted left by k leaves room for k more bits in j + k. */
  lemma {:induction false} ShlBound(x: int, j: nat, k: nat)
    requires 0 <= x < Pow2(j)
    ensures 0 <= Shl(x, k) && Shl(x, k) + Pow2(k) <= Pow2(j + k)
  {
    if k > 0 {
      ShlBound(x, j, k - 1);
    }
  }

  /** A (j + k)-bit value shifted right by k is a j-bit value. */
  lemma {:induction false} ShrBound(c: int, j: nat, k: nat)
    requires 0 <= c < Pow2(j + k)
    ensures 0 <= Shr(c, k) < Pow2(j)
  {
    if k > 0 {
      ShrBound(c / 2, j, k - 1);
    }
  }

  // ---------------------------------------------------------------------
  // Bit sequences of numbers.

  lemma {:induction false} ShrAdd(x: int, a: nat, b: nat)
    ensures Shr(Shr(x, a), b) == Shr(x, a + b)
    decreases a
  {
    if a > 0 {
      ShrAdd(x / 2, a - 1, b);
    }
  }

  lemma {:induction false} ShrZero(k: nat)
    ensures Shr(0, k) == 0
  {
    if k > 0 {
      ShrZero(k - 1);
    }
  }

  /** Bit j of the low n bits of c, for j < n, is bit j of c. */
  lemma {:induction false} LowBit(c: int, n: nat, j: nat)
    requires j < n
    ensures Bit(Low(c, n), j) == Bit(c, j)
    decreases n
  {
    if j > 0 {
      var h := c / 2;
      assert Low(c, n) / 2 == Low(h, n - 1);
      LowBit(h, n - 1, j - 1);
    }
  }

  /** Only the low n bits of a number show in BitsOf(_, n). */
  lemma {:induction false} LowOnly(c: int, d: int, n: nat)
    requires Low(c, n) == Low(d, n)
    ensures BitsOf(c, n) == BitsOf(d, n)
  {
    forall i | 0 <= i < n
      ensures BitsOf(c, n)[i] == BitsOf(d, n)[i]
    {
      LowBit(c, n, n - 1 - i);
      LowBit(d, n, n - 1 - i);
    }
  }

  /** The low m + k bits are the m bits above the low k, then the low k. */
  lemma {:induction false} Split(x: int, m: nat, k: nat)
    ensures BitsOf(x, m + k) == BitsOf(Shr(x, k), m) + BitsOf(x, k)
  {
    var a, b, c := BitsOf(x, m + k), BitsOf(Shr(x, k), m), BitsOf(x, k);
    forall i | 0 <= i < m + k
      ensures a[i] == (b + c)[i]
    {
      if i < m {
        ShrAdd(x, k, m - 1 - i);
        assert a[i] == Bit(x, m + k - 1 - i);
        assert b[i] == Bit(Shr(x, k), m - 1 - i);
      } else {
        assert c[i - m] == Bit(x, k - 1 - (i - m));
      }
    }
  }

  /** Shifting a left by k and filling in the low k bits of b concatenates
      their bit strings. */
  lemma {:induction false} Append(a: int, b: int, m: nat, k: nat)
    ensures BitsOf(Shl(a, k) + Low(b, k), m + k) == BitsOf(a, m) + BitsOf(b, k)
  {
    var x := Shl(a, k) + Low(b, k);
    ShlShr(a, Low(b, k), k);
    LowOf(Low(b, k), k);
    Split(x, m, k);
    LowOnly(x, b, k);
  }

  /** The first of the low n bits is bit n - 1: what `(byte >> bit) & 1` reads. */
  lemma {:induction false} Head(c: int, n: nat)
    requires n >= 1
    ensures BitsOf(c, n) == [Bit(c, n - 1)] + BitsOf(c, n - 1)
  {
    var a, b := BitsOf(c, n), [Bit(c, n - 1)] + BitsOf(c, n - 1);
    forall i | 0 <= i < n
      ensures a[i] == b[i]
    {
      if i > 0 {
        assert b[i] == BitsOf(c, n - 1)[i - 1];
      }
    }
  }

  lemma {:induction false} BitsOfZero(n: nat)
    ensures BitsOf(0, n) == Zeros(n)
  {
    forall i | 0 <= i < n
      ensures BitsOf(0, n)[i] == Zeros(n)[i]
    {
      ShrZero(n - 1 - i);
      assert BitsOf(0, n)[i] == Bit(0, n - 1 - i);
    }
  }

  /** Packing looks at the first n bits only. */
  lemma {:induction false} PackSame(s: seq<bool>, t: seq<bool>, n: nat)
    requires n <= |s| && n <= |t| && forall i :: 0 <= i < n ==> s[i] == t[i]
    ensures Pack(s, n) == Pack(t, n)
  {
    if n > 0 {
      PackSame(s, t, n - 1);
    }
  }

  lemma {:induction false} Pow2Eight()
    ensures Pow2(8) == 0x100
  {
  }

  /** At most eight low bits fit in a byte. */
  lemma {:induction false} LowByte(c: int, k: nat)
    requires k <= 8
    ensures 0 <= Low(c, k) < 0x100
  {
    Pow2Mono(k, 8);
    Pow2Eight();
  }

  /** Shifting a bit into a byte that has room for it loses nothing. */
  lemma {:induction false} ShiftInStep(p: int, pt: int, lh: int, l: int, r: int, b: bool)
    requires p == (2 * pt + if b then 1 else 0) % 0x100 && pt == lh && l == 2 * lh + r
    requires (b <==> r == 1) && 0 <= r < 2 && 0 <= l < 0x100
    ensures p == l
  {
  }

  /** Reading back k written bits gives the low k bits of the number. */
  lemma {:induction false} PackBitsOf(c: int, k: nat)
    requires k <= 8
    ensures Pack(BitsOf(c, k), k) == Low(c, k)
    decreases k
  {
    if k > 0 {
      var h := c / 2;
      PackBitsOf(h, k - 1);
      PackBitsOfStep(c, h, k);
    }
  }

  lemma {:induction false} PackBitsOfStep(c: int, h: int, k: nat)
    requires 0 < k <= 8 && h == c / 2
    requires Pack(BitsOf(h, k - 1), k - 1) == Low(h, k - 1)
    ensures Pack(BitsOf(c, k), k) == Low(c, k)
  {
    var s, t := BitsOf(c, k), BitsOf(h, k - 1);
    forall i | 0 <= i < k - 1
      ensures s[i] == t[i]
    {
      assert s[i] == Bit(c, k - 1 - i);
      assert t[i] == Bit(h, k - 2 - i);
    }
    PackSame(s, t, k - 1);
    LowByte(c, k);
    assert s[k - 1] == Bit(c, 0);
    ShiftInStep(Pack(s, k), Pack(s, k - 1), Low(h, k - 1), Low(c, k), c % 2, s[k - 1]);
  }

  /** A byte is determined by its eight bits. */
  lemma {:induction false} ByteOfBits(c: byte)
    ensures Pack(BitsOf(c, 8), 8) == c
  {
    PackBitsOf(c, 8);
    Pow2Eight();
    LowOf(c, 8);
  }

  lemma {:induction false} Assoc(a: seq<bool>, b: seq<bool>, c: seq<bool>)
    ensures (a + b) + c == a + (b + c)
  {
  }

  lemma {:induction false} BytesToBitsAppend(s: seq<byte>, t: seq<byte>)
    ensures BytesToBits(s + t) == BytesToBits(s) + BytesToBits(t)
  {
    var a, b, c := BytesToBits(s + t), BytesToBits(s), BytesToBits(t);
    forall i | 0 <= i < 8 * (|s| + |t|)
      ensures a[i] == (b + c)[i]
    {
      if i < 8 * |s| {
        assert (s + t)[i / 8] == s[i / 8];
      } else {
        var j := i - 8 * |s|;
        assert j / 8 == i / 8 - |s| && j % 8 == i % 8;
        assert (s + t)[i / 8] == t[j / 8];
      }
    }
  }

  lemma {:induction false} BytesToBitsOne(c: byte)
    ensures BytesToBits([c]) == BitsOf(c, 8)
  {
    forall i | 0 <= i < 8
      ensures BytesToBits([c])[i] == BitsOf(c, 8)[i]
    {
      assert i / 8 == 0 && i % 8 == i;
    }
  }

  /** The eight bits of byte j of a file. */
  lemma {:induction false} ByteAt(s: seq<byte>, j: nat)
    requires j < |s|
    ensures BytesToBits(s)[8 * j..8 * j + 8] == BitsOf(s[j], 8)
  {
    var a := BytesToBits(s)[8 * j..8 * j + 8];
    forall i | 0 <= i < 8
      ensures a[i] == BitsOf(s[j], 8)[i]
    {
      assert (8 * j + i) / 8 == j && (8 * j + i) % 8 == i;
    }
  }

  /** Distinct byte files carry distinct bit streams. */
  lemma {:induction false} BytesToBitsInjective(s: seq<byte>, t: seq<byte>)
    requires BytesToBits(s) == BytesToBits(t)
    ensures s == t
  {
    forall j | 0 <= j < |s|
      ensures s[j] == t[j]
    {
      ByteAt(s, j);
      ByteAt(t, j);
      ByteOfBits(s[j]);
      ByteOfBits(t[j]);
    }
  }

  // ---------------------------------------------------------------------
  // What a reader sees: the bits still to come, and whether the file is open.

  datatype Stream = Stream(bits: seq<bool>, open: bool)

  function Remaining(s: Stream): nat
  {
    |s.bits| + if s.open then 1 else 0
  }

  /** n successive read_bit calls, packed as read_bits packs them. At end of
      file the first read returns 0 and closes the file; a read after that
      calls fgetc on a closed file, which is undefined (None). */
  function ReadN(s: Stream, n: nat): (r: Option<(byte, Stream)>)
    ensures r.Some? && n > 0 ==> Remaining(r.value.1) < Remaining(s)
    ensures r.Some? <==> n <= |s.bits| || (s.open && n == |s.bits| + 1)
  {
    if n <= |s.bits| then Some((Pack(s.bits, n), Stream(s.bits[n..], s.open)))
    else if s.open && n == |s.bits| + 1 then Some((Pack(s.bits + [false], n), Stream([], false)))
    else None
  }

  /** Reading n + 1 bits is reading n and then one more. */
  lemma {:induction false} ReadNStep(s: Stream, n: nat)
    requires ReadN(s, n + 1).Some?
    ensures ReadN(s, n).Some? && ReadN(ReadN(s, n).value.1, 1).Some?
    ensures ReadN(s, n + 1).value.0
         == (2 * ReadN(s, n).value.0 + ReadN(ReadN(s, n).value.1, 1).value.0) % 0x100
    ensures ReadN(s, n + 1).value.1 == ReadN(ReadN(s, n).value.1, 1).value.1
  {
    var t := ReadN(s, n).value.1;
    if n + 1 <= |s.bits| {
      assert t.bits[0] == s.bits[n];
      assert Pack(t.bits, 1) == if s.bits[n] then 1 else 0;
      assert t.bits[1..] == s.bits[n + 1..];
    } else {
      var e := s.bits + [false];
      PackSame(e, s.bits, n);
      assert !e[n];
      assert Pack(e, n + 1) == (2 * Pack(s.bits, n)) % 0x100;
      assert t.bits == [] && t.open;
      assert !(t.bits + [false])[0];
      assert Pack(t.bits + [false], 1) == 0;
    }
  }

  /** Reading n bits and then one more, as read_bits does. */
  lemma {:induction false} ReadNThen(s: Stream, n: nat, b: byte, mid: Stream, bit: byte, after: Stream)
    requires ReadN(s, n + 1).Some? && ReadN(s, n) == Some((b, mid)) && ReadN(mid, 1) == Some((bit, after))
    ensures ReadN(s, n + 1) == Some(((2 * b + bit) % 0x100, after))
  {
    ReadNStep(s, n);
  }

  /** Fetching byte pos of a file moves its eight bits into the buffer. */
  lemma {:induction false} FetchStep(data: seq<byte>, pos: nat)
    requires pos < |data|
    ensures BytesToBits(data[pos..]) == BitsOf(data[pos], 8) + BytesToBits(data[pos + 1..])
  {
    assert data[pos..] == [data[pos]] + data[pos + 1..];
    BytesToBitsAppend([data[pos]], data[pos + 1..]);
    BytesToBitsOne(data[pos]);
  }

  /** read_bit on a buffer holding the low k + 1 bits of cb returns bit k. */
  lemma {:induction false} ReadBitStep(cb: byte, k: nat, rest: seq<bool>)
    requires k <= 7
    ensures var bits := BitsOf(cb, k + 1) + rest;
      Pack(bits, 1) == Shr(cb, k) % 2 && bits[1..] == BitsOf(cb, k) + rest
  {
    Head(cb, k + 1);
    var bits := BitsOf(cb, k + 1) + rest;
    assert bits[0] == Bit(cb, k);
    assert bits[1..] == BitsOf(cb, k) + rest;
  }

  /** A byte written as eight bits reads back as itself. */
  lemma {:induction false} ReadByteBack(c: byte, rest: seq<bool>, open: bool)
    ensures ReadN(Stream(BitsOf(c, 8) + rest, open), 8) == Some((c, Stream(rest, open)))
  {
    var bits := BitsOf(c, 8) + rest;
    PackSame(bits, BitsOf(c, 8), 8);
    assert bits[8..] == rest;
    ByteOfBits(c);
  }

  /** What write_bits(c, k) appends reads back through read_bits(k) as the
      low k bits of c. */
  lemma {:induction false} ReadBack(c: int, k: nat, rest: seq<bool>, open: bool)
    requires k <= 8
    ensures 0 <= Low(c, k) < 0x100
    ensures ReadN(Stream(BitsOf(c, k) + rest, open), k) == Some((Low(c, k), Stream(rest, open)))
  {
    var bits := BitsOf(c, k) + rest;
    PackSame(bits, BitsOf(c, k), k);
    assert bits[k..] == rest;
    PackBitsOf(c, k);
    LowByte(c, k);
  }

  // ---------------------------------------------------------------------

  /** The bits pending in a writer's current byte: the 8 - left bits above
      the `left` free ones. */
  ghost function Pending(cb: byte, left: nat): seq<bool>
    requires 1 <= left <= 8
  {
    BitsOf(Shr(cb, left), 8 - left)
  }

  /** A BitWriter: `file` is what has been written to the file so far,
      `isOpen` says whether the fopen succeeded. The bits written but not yet
      emitted sit at the top of `currentByte`; `numBitsLeft` counts the free
      bits below them. */
  class BitWriter {
    var file: seq<byte>
    var isOpen: bool
    var currentByte: byte
    var numBitsLeft: byte
    /** Every bit written so far, emitted or still pending. */
    ghost var written: seq<bool>

    ghost predicate Valid()
      reads this
    {
      WriterInv(file, currentByte, numBitsLeft, written)
    }

    /** open_bit_writer: a fresh cursor; `succeeded` says whether fopen succeeded. */
    constructor Open(succeeded: bool)
      ensures Valid() && isOpen == succeeded && file == [] && written == []
      ensures currentByte == 0 && numBitsLeft == 8
    {
      file := [];
      isOpen := succeeded;
      currentByte := 0;
      numBitsLeft := 8;
      written := [];
      LowZero(8);
    }

    /** write_bits: appends the low numBitsToWrite bits of `bits`, most
        significant first; a byte is emitted as soon as eight bits are pending.
        Nothing happens when the file is not open. */
    method WriteBits(bits: byte, numBitsToWrite: byte)
      requires Valid() && numBitsToWrite <= 8
      modifies this
      ensures Valid() && isOpen == old(isOpen)
      ensures written == old(written) + if isOpen then BitsOf(bits, numBitsToWrite) else []
      ensures !isOpen ==> file == old(file) && currentByte == old(currentByte) && numBitsLeft == old(numBitsLeft)
    {
      if isOpen {
        if numBitsToWrite <= numBitsLeft {
          WriteFitting(bits, numBitsToWrite);
        } else {
          WriteSplitting(bits, numBitsToWrite);
        }
      }
    }

    /** The first branch of write_bits: the bits fit below the pending ones;
        the byte is emitted when that fills it. */
    method WriteFitting(bits: byte, n: byte)
      requires Valid() && isOpen && n <= numBitsLeft
      modifies this
      ensures Valid() && isOpen && written == old(written) + BitsOf(bits, n)
    {
      var f: seq<byte>, cb: byte, left: byte := file, currentByte, numBitsLeft;
      var low := Low(bits, n);
      FitCase(f, cb, left, bits, n, written);
      cb := cb + Shl(low, left - n);
      left := left - n;
      if left == 0 {
        f := f + [cb];
        cb := 0;
        left := 8;
      }
      file, currentByte, numBitsLeft, written := f, cb, left, written + BitsOf(bits, n);
    }

    /** The second branch of write_bits: the high numBitsLeft of the bits
        complete the current byte, which is emitted; the rest start the next. */
    method WriteSplitting(bits: byte, n: byte)
      requires Valid() && isOpen && numBitsLeft < n <= 8
      modifies this
      ensures Valid() && isOpen && written == old(written) + BitsOf(bits, n)
    {
      var f: seq<byte>, cb: byte, left: byte := file, currentByte, numBitsLeft;
      var rest := n - left;
      var bitsToWrite := Low(Shr(bits, rest), left);
      SplitCase(f, cb, left, bits, n, written);
      cb := cb + bitsToWrite;
      f := f + [cb];
      cb := 0;
      left := 8;
      var low := Low(bits, rest);
      cb := cb + Shl(low, left - rest);
      left := left - rest;
      file, currentByte, numBitsLeft, written := f, cb, left, written + BitsOf(bits, n);
    }

    /** flush_bit_writer: emits the current byte, pending bits left-aligned and
        zero-padded (a zero byte when nothing is pending), and starts afresh.
        fwrite on a file that failed to open is undefined, so it must be open. */
    method Flush()
      requires Valid() && isOpen
      modifies this
      ensures Valid() && isOpen
      ensures file == old(file) + [old(currentByte)]
      ensures old(numBitsLeft) == 8 ==> old(currentByte) == 0
      ensures currentByte == 0 && numBitsLeft == 8
      ensures written == BytesToBits(file) == Padded(old(written))
    {
      FlushStep(file, currentByte, numBitsLeft);
      FreshInv(file + [currentByte]);
      file := file + [currentByte];
      currentByte := 0;
      numBitsLeft := 8;
      written := BytesToBits(file);
    }

    /** close_bit_writer: flushes, then closes the file. */
    method Close()
      requires Valid() && isOpen
      modifies this
      ensures Valid() && !isOpen
      ensures file == old(file) + [old(currentByte)]
      ensures written == BytesToBits(file) == Padded(old(written))
    {
      Flush();
      isOpen := false;
    }

    /** An fwrite straight to the writer's file, past the cursor: the bytes
        land before any pending bits. */
    method WriteRaw(bytes: seq<byte>)
      requires Valid() && isOpen
      modifies this
      ensures Valid() && isOpen
      ensures file == old(file) + bytes
      ensures currentByte == old(currentByte) && numBitsLeft == old(numBitsLeft)
      ensures old(numBitsLeft) == 8 ==> written == old(written) + BytesToBits(bytes)
    {
      RawStep(file, bytes, Pending(currentByte, numBitsLeft));
      file := file + bytes;
      written := BytesToBits(file) + Pending(currentByte, numBitsLeft);
    }
  }

  /** A writer's invariant, on its fields: `left` free bits, all zero, below
      the pending ones, and everything written is the file's bits followed
      by the pending ones. */
  ghost predicate WriterInv(file: seq<byte>, cb: int, left: int, written: seq<bool>)
  {
    1 <= left <= 8 && 0 <= cb < 0x100 && Low(cb, left) == 0
    && written == BytesToBits(file) + Pending(cb, left)
  }

  /** A writer with nothing pending. */
  lemma {:induction false} FreshInv(file: seq<byte>)
    ensures WriterInv(file, 0, 8, BytesToBits(file))
  {
    LowZero(8);
    ShrZero(8);
    assert Pending(0, 8) == [];
  }

  /** The fitting branch of write_bits keeps the invariant, emitting the byte
      when it fills up. */
  lemma {:induction false} FitCase(file: seq<byte>, cb: int, left: int, bits: byte, n: nat, written: seq<bool>)
    requires WriterInv(file, cb, left, written) && n <= left
    ensures var next := cb + Shl(Low(bits, n), left - n);
      0 <= next < 0x100
      && (n < left ==> WriterInv(file, next, left - n, written + BitsOf(bits, n)))
      && (n == left ==> WriterInv(file + [next], 0, 8, written + BitsOf(bits, n)))
  {
    var next := cb + Shl(Low(bits, n), left - n);
    FitStep(cb, left, bits, n);
    Assoc(BytesToBits(file), Pending(cb, left), BitsOf(bits, n));
    if n == left {
      EmitStep(file, next);
      LowZero(8);
      assert Shr(next, 0) == next;
      assert Pending(0, 8) == [];
    }
  }

  /** The splitting branch of write_bits keeps the invariant: the high bits
      complete and emit the current byte, the rest start the next one. */
  lemma {:induction false} SplitCase(file: seq<byte>, cb: int, left: int, bits: byte, n: nat, written: seq<bool>)
    requires WriterInv(file, cb, left, written) && left < n <= 8
    ensures var rest := n - left;
      var full := cb + Low(Shr(bits, rest), left);
      var next := 0 + Shl(Low(bits, rest), 8 - rest);
      0 <= full < 0x100 && 0 <= next < 0x100
      && WriterInv(file + [full], next, 8 - rest, written + BitsOf(bits, n))
  {
    var rest := n - left;
    var full := cb + Low(Shr(bits, rest), left);
    SplitStep(cb, left, bits, rest);
    EmitStep(file, full);
    SplitRest(bits, rest);
    Regroup(BytesToBits(file), Pending(cb, left), BitsOf(Shr(bits, rest), left), BitsOf(bits, rest));
  }

  /** After the split the remaining `rest` bits are pending in a fresh byte. */
  lemma {:induction false} SplitRest(bits: byte, rest: nat)
    requires 1 <= rest <= 7
    ensures var next := 0 + Shl(Low(bits, rest), 8 - rest);
      0 <= next < 0x100 && Low(next, 8 - rest) == 0 && Pending(next, 8 - rest) == BitsOf(bits, rest)
  {
    LowZero(8);
    FitStep(0, 8, bits, rest);
    ShrZero(8);
    assert Pending(0, 8) == [];
  }

  lemma {:induction false} Regroup(f: seq<bool>, p: seq<bool>, h: seq<bool>, r: seq<bool>)
    ensures (f + p) + (h + r) == (f + (p + h)) + r
  {
  }

  /** Bytes written past the cursor come after the emitted bytes; with
      nothing pending they extend the written bits. */
  lemma {:induction false} RawStep(file: seq<byte>, bytes: seq<byte>, pending: seq<bool>)
    ensures |pending| == 0 ==> BytesToBits(file + bytes) + pending == (BytesToBits(file) + pending) + BytesToBits(bytes)
  {
    BytesToBitsAppend(file, bytes);
  }

  /** Emitting a byte appends its eight bits to the file's bit stream. */
  lemma {:induction false} EmitStep(file: seq<byte>, c: byte)
    ensures BytesToBits(file + [c]) == BytesToBits(file) + BitsOf(c, 8)
  {
    BytesToBitsAppend(file, [c]);
    BytesToBitsOne(c);
  }

  /** The fitting branch of write_bits: the low n bits of `bits`, shifted
      below the pending ones, are disjoint from them and join them. */
  lemma {:induction false} FitStep(cb: byte, left: nat, bits: byte, n: nat)
    requires 1 <= left <= 8 && n <= left && Low(cb, left) == 0
    ensures var next := cb + Shl(Low(bits, n), left - n);
      0 <= next < 0x100 && Low(next, left - n) == 0 &&
      BitsOf(Shr(next, left - n), 8 - (left - n)) == Pending(cb, left) + BitsOf(bits, n)
  {
    FitNext(cb, left, bits, n);
    FitBits(cb, left, bits, n);
  }

  /** The byte after the fitting branch holds the pending bits and the new
      ones, with left - n free bits below. */
  lemma {:induction false} FitNext(cb: byte, left: nat, bits: byte, n: nat)
    requires 1 <= left <= 8 && n <= left && Low(cb, left) == 0
    ensures var next := cb + Shl(Low(bits, n), left - n);
      0 <= next < 0x100 && Low(next, left - n) == 0 &&
      Shr(next, left - n) == Shl(Shr(cb, left), n) + Low(bits, n)
  {
    var m := Shl(Shr(cb, left), n) + Low(bits, n);
    var k := left - n;
    FitValue(cb, left, bits, n);
    FitRange(m, 8 - k, k);
  }

  /** The bits pending after the fitting branch. */
  lemma {:induction false} FitBits(cb: byte, left: nat, bits: byte, n: nat)
    requires 1 <= left <= 8 && n <= left
    ensures BitsOf(Shl(Shr(cb, left), n) + Low(bits, n), 8 - (left - n)) == Pending(cb, left) + BitsOf(bits, n)
  {
    Append(Shr(cb, left), bits, 8 - left, n);
  }

  /** The pending bits with the low n bits of `bits` below them, as a number. */
  lemma {:induction false} FitValue(cb: byte, left: nat, bits: byte, n: nat)
    requires 1 <= left <= 8 && n <= left && Low(cb, left) == 0
    ensures var m := Shl(Shr(cb, left), n) + Low(bits, n);
      cb + Shl(Low(bits, n), left - n) == Shl(m, left - n) && 0 <= m < Pow2(8 - (left - n))
  {
    Recompose(cb, left);
    FitEq(Shr(cb, left), Low(bits, n), n, left - n);
    FitBound(cb, left, n);
  }

  /** (q << (n + k)) | (low << k) == ((q << n) | low) << k */
  lemma {:induction false} FitEq(q: int, low: int, n: nat, k: nat)
    ensures Shl(q, n + k) + Shl(low, k) == Shl(Shl(q, n) + low, k)
  {
    ShlAdd(q, n, k);
    ShlSum(Shl(q, n), low, k);
  }

  lemma {:induction false} FitBound(cb: byte, left: nat, n: nat)
    requires 1 <= left <= 8 && n <= left
    ensures Shl(Shr(cb, left), n) + Pow2(n) <= Pow2(8 - (left - n))
    ensures 0 <= Shl(Shr(cb, left), n)
  {
    var j := 8 - left;
    Pow2Eight();
    assert j + left == 8;
    ShrBound(cb, j, left);
    ShlBound(Shr(cb, left), j, n);
    assert j + n == 8 - (left - n);
  }

  /** An m-bit value shifted left by k, with m + k = 8, is a byte whose low k
      bits are free. */
  lemma {:induction false} FitRange(m: int, j: nat, k: nat)
    requires 0 <= m < Pow2(j) && j + k == 8
    ensures 0 <= Shl(m, k) < 0x100 && Shr(Shl(m, k), k) == m && Low(Shl(m, k), k) == 0
  {
    ShlShr(m, 0, k);
    ShlBound(m, j, k);
    Pow2Eight();
    assert Shl(m, k) + 0 == Shl(m, k);
  }

  /** The splitting branch of write_bits: the high `left` of the low
      left + rest bits complete the current byte. */
  lemma {:induction false} SplitStep(cb: byte, left: nat, bits: byte, rest: nat)
    requires 1 <= left <= 8 && 1 <= rest <= 8 - left && Low(cb, left) == 0
    ensures var full := cb + Low(Shr(bits, rest), left);
      0 <= full < 0x100 && BitsOf(full, 8) == Pending(cb, left) + BitsOf(Shr(bits, rest), left)
    ensures BitsOf(bits, left + rest) == BitsOf(Shr(bits, rest), left) + BitsOf(bits, rest)
  {
    var q := Shr(cb, left);
    Recompose(cb, left);
    ShrBound(cb, 8 - left, left);
    ShlBound(q, 8 - left, left);
    Append(q, Shr(bits, rest), 8 - left, left);
    Split(bits, left, rest);
  }

  /** The byte flush_bit_writer emits completes the written bits to a byte
      boundary. */
  lemma {:induction false} FlushStep(file: seq<byte>, cb: byte, left: nat)
    requires 1 <= left <= 8 && Low(cb, left) == 0
    ensures BytesToBits(file + [cb]) == Padded(BytesToBits(file) + Pending(cb, left))
    ensures left == 8 ==> cb == 0
  {
    FlushByte(cb, left);
    EmitStep(file, cb);
    var w := BytesToBits(file) + Pending(cb, left);
    FlushPad(BytesToBits(file), Pending(cb, left), left);
    Assoc(BytesToBits(file), Pending(cb, left), Zeros(left));
    if left == 8 {
      Pow2Eight();
      LowOf(cb, 8);
    }
  }

  /** The emitted byte is the pending bits followed by `left` zeros. */
  lemma {:induction false} FlushByte(cb: byte, left: nat)
    requires 1 <= left <= 8 && Low(cb, left) == 0
    ensures BitsOf(cb, 8) == Pending(cb, left) + Zeros(left)
  {
    Split(cb, 8 - left, left);
    LowZero(left);
    LowOnly(cb, 0, left);
    BitsOfZero(left);
  }

  /** 8 - left pending bits after whole bytes need `left` bits of padding. */
  lemma {:induction false} FlushPad(a: seq<bool>, p: seq<bool>, left: nat)
    requires 1 <= left <= 8 && |a| % 8 == 0 && |p| == 8 - left
    ensures Padded(a + p) == a + p + Zeros(left)
  {
    PadLength(|a|, left);
  }

  lemma {:induction false} PadLength(x: int, left: int)
    requires 1 <= left <= 8 && x % 8 == 0
    ensures 8 - (x + (8 - left)) % 8 == left
  {
    var t := x / 8;
    assert x == 8 * t;
    assert x + (8 - left) == 8 * t + (8 - left);
  }

  // ---------------------------------------------------------------------

  /** A BitReader over the bytes `data` of its file: `pos` is the file
      position, `currentByte` the byte being read and `currentBit` the index of
      its next bit (-1 when a new byte must be fetched). */
  class BitReader {
    var data: seq<byte>
    var pos: nat
    var isOpen: bool
    var currentByte: byte
    var currentBit: int

    ghost predicate Valid()
      reads this
    {
      pos <= |data| && -1 <= currentBit <= 7
      && (!isOpen ==> currentBit == -1 && pos == |data|)
    }

    /** The unread bits of the current byte. */
    ghost function Buffered(): seq<bool>
      reads this
      requires Valid()
    {
      BitsOf(currentByte, currentBit + 1)
    }

    ghost function State(): Stream
      reads this
      requires Valid()
    {
      Stream(Buffered() + BytesToBits(data[pos..]), isOpen)
    }

    /** open_bit_reader; when fopen fails the file is NULL and nothing can be read. */
    constructor Open(contents: seq<byte>, succeeded: bool)
      ensures Valid() && State() == Stream(if succeeded then BytesToBits(contents) else [], succeeded)
      ensures currentBit == -1 && pos == 0 && data == (if succeeded then contents else [])
    {
      data := if succeeded then contents else [];
      pos := 0;
      isOpen := succeeded;
      currentByte := 0;
      currentBit := -1;
    }

    /** read_bit: the next bit, fetching a byte only when the current one is
        used up (`currentBit` below 0); at end of file it returns 0 and closes
        the file. Reading after
        that would call fgetc on a closed file, so it is excluded. */
    method ReadBit() returns (bit: byte)
      requires Valid() && isOpen
      modifies this
      ensures Valid() && data == old(data)
      ensures ReadN(old(State()), 1) == Some((bit, State()))
      ensures bit <= 1
      ensures old(currentBit) >= 0 ==>
        isOpen && pos == old(pos) && currentByte == old(currentByte) && currentBit == old(currentBit) - 1
      ensures old(currentBit) < 0 && old(pos) < |data| ==>
        isOpen && pos == old(pos) + 1 && currentByte == data[old(pos)] && currentBit == 6
      ensures old(currentBit) < 0 && old(pos) == |data| ==> !isOpen && bit == 0
    {
      ghost var s0 := State();
      if currentBit < 0 {
        assert Buffered() == [];
        if pos == |data| {
          assert s0.bits == [];
          assert Pack(s0.bits + [false], 1) == 0;
          isOpen := false;
          bit := 0;
          assert State().bits == [];
          return;
        } else {
          FetchStep(data, pos);
          currentByte := data[pos];
          pos := pos + 1;
          currentBit := 7;
        }
      }
      assert s0.bits == BitsOf(currentByte, currentBit + 1) + BytesToBits(data[pos..]);
      ReadBitStep(currentByte, currentBit, BytesToBits(data[pos..]));
      bit := Shr(currentByte, currentBit) % 2;
      currentBit := currentBit - 1;
    }

    /** read_bits: n successive bits packed most significant first into a
        uint8_t. `(bits << 1) | bit` shifts in a zero bit first, so the `|`
        adds the bit; the assignment truncates to eight bits. */
    method ReadBits(n: byte) returns (bits: byte)
      requires Valid() && ReadN(State(), n).Some?
      modifies this
      ensures Valid() && data == old(data)
      ensures ReadN(old(State()), n) == Some((bits, State()))
    {
      ghost var s0 := State();
      bits := 0;
      var i: byte := 0;
      while i < n
        invariant Valid() && data == old(data) && i <= n
        invariant ReadN(s0, i) == Some((bits, State()))
        decreases n - i
      {
        ReadNStep(s0, i);
        ghost var before, mid := bits, State();
        var bit := ReadBit();
        ReadNThen(s0, i, before, mid, bit, State());
        bits := (2 * bits + bit) % 0x100;
        i := i + 1;
      }
    }

    /** An fread of a 4-byte count straight from the reader's file, past the
        cursor. With fewer than four bytes left the count would be
        uninitialised, so that is excluded. */
    method ReadRawUint32() returns (count: nat)
      requires Valid() && isOpen && pos + 4 <= |data|
      modifies this
      ensures Valid() && data == old(data) && isOpen
      ensures count == LittleEndian32(old(data)[old(pos)..old(pos) + 4])
      ensures pos == old(pos) + 4 && currentByte == old(currentByte) && currentBit == old(currentBit)
      ensures State() == Stream(old(Buffered()) + BytesToBits(data[pos..]), true)
    {
      count := LittleEndian32(data[pos..pos + 4]);
      pos := pos + 4;
    }
  }

  /** The value of four bytes read as a little-endian uint32_t. */
  function LittleEndian32(b: seq<byte>): (n: nat)
    requires |b| == 4
    ensures n < 0x1_0000_0000
  {
    b[0] as int + 0x100 * (b[1] as int) + 0x1_0000 * (b[2] as int) + 0x100_0000 * (b[3] as int)
  }

  /** The four bytes of a uint32_t, least significant first. */
  function Uint32Bytes(n: nat): (b: seq<byte>)
    requires n < 0x1_0000_0000
    ensures |b| == 4
  {
    var n1 := n / 0x100;
    var n2 := n1 / 0x100;
    [n % 0x100, n1 % 0x100, n2 % 0x100, n2 / 0x100]
  }

  /** A count written as four bytes reads back as itself. */
  lemma {:induction false} Uint32RoundTrip(n: nat)
    requires n < 0x1_0000_0000
    ensures LittleEndian32(Uint32Bytes(n)) == n
  {
    var n1 := n / 0x100;
    var n2 := n1 / 0x100;
    var n3 := n2 / 0x100;
    assert n == n % 0x100 + 0x100 * n1;
    assert n1 == n1 % 0x100 + 0x100 * n2;
    assert n2 == n2 % 0x100 + 0x100 * n3;
    assert n3 < 0x100;
  }
}
