/**
 * The cursor arithmetic and the chunking loops that the four stream classes
 * share: a byte position plus a count of bits left in the current byte
 * (1..8), and loops that take min(bits still to do, bits left in the byte)
 * at a time.  The cursor (pos, bitsLeft) stands for the bit offset
 * 8 * pos + 8 - bitsLeft into the buffer's bit image.
 */
module Cursor {
  import opened Bits

  /** The bit offset a cursor stands for. */
  function Offset(pos: nat, bitsLeft: nat): int
  {
    8 * pos + 8 - bitsLeft
  }

  /** A cursor whose distance to the end of a whole number of bytes is a multiple of 8 is on a byte boundary. */
  lemma {:induction false} OnByteBoundary(len: nat, pos: nat, bitsLeft: nat)
    requires 1 <= bitsLeft <= 8 && (8 * len - Offset(pos, bitsLeft)) % 8 == 0
    ensures bitsLeft == 8
  {
    var d := 8 * len - Offset(pos, bitsLeft);
    assert d == 8 * (len - pos - 1) + bitsLeft;
    assert d % 8 == bitsLeft % 8 by {
      DivModUnique(d, 8, len - pos - 1 + bitsLeft / 8, bitsLeft % 8);
    }
  }

  /**
   * The buffer's bit image is `written` followed by zeros: every bit after
   * the cursor is clear, which is what lets the writers OR bits in.
   */
  ghost predicate Holds(s: seq<byte>, written: seq<bool>)
  {
    |written| <= 8 * |s| && BytesToBits(s) == written + Zeros(8 * |s| - |written|)
  }

  /** Any stretch of the zero tail is zeros. */
  lemma {:induction false} ZerosSlice(w: seq<bool>, r: nat, i: nat, j: nat)
    requires |w| <= i <= j <= |w| + r
    ensures (w + Zeros(r))[i..j] == Zeros(j - i)
    ensures (w + Zeros(r))[i..] == Zeros(|w| + r - i)
  {
  }

  /** The bit image of three consecutive pieces of a buffer. */
  lemma {:induction false} ImageParts(a: seq<byte>, m: seq<byte>, t: seq<byte>)
    ensures BytesToBits(a + m + t) == BytesToBits(a) + BytesToBits(m) + BytesToBits(t)
  {
    BytesToBitsAppend(a + m, t);
    BytesToBitsAppend(a, m);
  }

  /** The bytes wholly before the cursor hold the written bits. */
  lemma {:induction false} HeadOfImage(s: seq<byte>, written: seq<bool>, k: nat)
    requires Holds(s, written) && k <= |s| && 8 * k <= |written|
    ensures BytesToBits(s[..k]) == written[..8 * k]
  {
    BytesToBitsPrefix(s, k);
  }

  /** The bytes wholly after the cursor are zero. */
  lemma {:induction false} TailOfImage(s: seq<byte>, written: seq<bool>, k: nat)
    requires Holds(s, written) && k <= |s| && |written| <= 8 * k
    ensures BytesToBits(s[k..]) == Zeros(8 * (|s| - k))
  {
    assert s == s[..k] + s[k..];
    BytesToBitsAppend(s[..k], s[k..]);
    ZerosSlice(written, 8 * |s| - |written|, 8 * k, 8 * |s|);
  }

  /**
   * Replacing the byte under the cursor by one that keeps its written bits,
   * adds `more` after them and leaves the rest clear, appends `more`.
   */
  lemma {:induction false} PlaceByte(s: seq<byte>, pos: nat, written: seq<bool>, y: byte, more: seq<bool>)
    requires pos < |s| && 8 * pos <= |written| && |written| + |more| <= 8 * pos + 8
    requires Holds(s, written)
    requires ByteBits(y) == written[8 * pos..] + more + Zeros(8 * pos + 8 - |written| - |more|)
    ensures Holds(s[pos := y], written + more)
  {
    var a, t := s[..pos], s[pos + 1..];
    assert s[pos := y] == a + [y] + t;
    ImageParts(a, [y], t);
    HeadOfImage(s, written, pos);
    TailOfImage(s, written, pos + 1);
    assert BytesToBits([y]) == ByteBits(y) + BytesToBits([]);
    var z := 8 * pos + 8 - |written| - |more|;
    var rest := 8 * (|s| - pos - 1);
    assert written[..8 * pos] + written[8 * pos..] == written;
    assert Zeros(z) + Zeros(rest) == Zeros(8 * |s| - |written| - |more|);
    calc {
      BytesToBits(s[pos := y]);
      written[..8 * pos] + (written[8 * pos..] + more + Zeros(z)) + Zeros(rest);
      (written[..8 * pos] + written[8 * pos..]) + more + (Zeros(z) + Zeros(rest));
      written + more + Zeros(8 * |s| - |written| - |more|);
    }
  }

  // ---------------------------------------------------------------------
  // One step of the writers' slow path on the bit image
  // ---------------------------------------------------------------------

  /** The byte under a cursor holds the written bits of that byte, then zeros. */
  lemma {:induction false} CurrentByte(s: seq<byte>, pos: nat, bitsLeft: nat, written: seq<bool>)
    requires pos < |s| && 1 <= bitsLeft <= 8 && |written| == Offset(pos, bitsLeft)
    requires Holds(s, written)
    ensures ByteBits(s[pos]) == written[8 * pos..] + Zeros(bitsLeft)
    ensures s[pos] == Shl(ValueMSB(written[8 * pos..]), bitsLeft)
  {
    var image := BytesToBits(s);
    var p := written[8 * pos..];
    BytesToBitsAt(s, pos);
    assert image[8 * pos..|written|] == p;
    ZerosSlice(written, 8 * |s| - |written|, |written|, 8 * pos + 8);
    assert image[8 * pos..8 * pos + 8] == image[8 * pos..|written|] + image[|written|..8 * pos + 8];
    ByteValue(s[pos]);
    ValueShift(p, bitsLeft);
  }

  /**
   * OR-ing a chunk shifted to the top of the free bits into a byte whose
   * free bits are clear places the chunk's bits right after the used ones.
   */
  lemma {:induction false} MergeByte(p: seq<bool>, bitsLeft: nat, chunk: nat, width: nat)
    requires |p| + bitsLeft == 8 && 1 <= width <= bitsLeft && chunk < Pow2(width)
    ensures Shl(chunk, bitsLeft - width) < Pow2(bitsLeft)
    ensures Or(Shl(ValueMSB(p), bitsLeft), Shl(chunk, bitsLeft - width))
            == ValueMSB(p + BitsMSB(chunk, width) + Zeros(bitsLeft - width))
  {
    var sh := bitsLeft - width;
    var b := BitsMSB(chunk, width);
    ValueOfBits(chunk, width);
    LowSmall(chunk, width);
    ValueShift(b, sh);
    assert ValueMSB(b + Zeros(sh)) == Shl(chunk, sh);
    OrIntoZeroBits(ValueMSB(p), bitsLeft, Shl(chunk, sh));
    ValueAppend(p, b + Zeros(sh));
    assert p + b + Zeros(sh) == p + (b + Zeros(sh));
  }

  /**
   * OR-merging a chunk of `width` bits, shifted to the top of the
   * `bitsLeft` free bits of the current byte, appends exactly those bits
   * to the written prefix.
   */
  lemma {:induction false} MergeChunk(s: seq<byte>, pos: nat, bitsLeft: nat, written: seq<bool>, chunk: nat, width: nat)
    requires pos < |s| && 1 <= width <= bitsLeft <= 8 && chunk < Pow2(width)
    requires |written| == Offset(pos, bitsLeft) && Holds(s, written)
    ensures Shl(chunk, bitsLeft - width) < 256
    ensures Or(s[pos], Shl(chunk, bitsLeft - width)) < 256
    ensures Holds(s[pos := Or(s[pos], Shl(chunk, bitsLeft - width))], written + BitsMSB(chunk, width))
  {
    var p := written[8 * pos..];
    var b := BitsMSB(chunk, width);
    var q := p + b + Zeros(bitsLeft - width);
    CurrentByte(s, pos, bitsLeft, written);
    MergeByte(p, bitsLeft, chunk, width);
    Pow2Monotone(bitsLeft, 8);
    Pow2Values();
    var y := Or(s[pos], Shl(chunk, bitsLeft - width));
    assert y == ValueMSB(q);
    BitsOfValue(q);
    PlaceByte(s, pos, written, y, b);
  }

  /** Storing a whole byte at an aligned cursor appends its eight bits. */
  lemma {:induction false} StoreByte(s: seq<byte>, pos: nat, written: seq<bool>, x: byte)
    requires pos < |s| && |written| == 8 * pos && Holds(s, written)
    ensures Holds(s[pos := x], written + ByteBits(x))
  {
    assert written[8 * pos..] == [];
    assert ByteBits(x) == written[8 * pos..] + ByteBits(x) + Zeros(0);
    PlaceByte(s, pos, written, x, ByteBits(x));
  }

  /** Copying a block of bytes at an aligned cursor appends their bit image. */
  lemma {:induction false} CopyBlock(s: seq<byte>, pos: nat, written: seq<bool>, src: seq<byte>)
    requires pos + |src| <= |s| && |written| == 8 * pos && Holds(s, written)
    ensures Holds(s[..pos] + src + s[pos + |src|..], written + BytesToBits(src))
  {
    var end := pos + |src|;
    var t := s[..pos] + src + s[end..];
    var w := written + BytesToBits(src);
    assert |t| == |s| && |w| == 8 * end;
    ImageParts(s[..pos], src, s[end..]);
    HeadOfImage(s, written, pos);
    TailOfImage(s, written, end);
    assert written[..8 * pos] == written;
    assert BytesToBits(t) == w + Zeros(8 * (|s| - end));
    HoldsIntro(t, w);
  }

  lemma {:induction false} HoldsIntro(t: seq<byte>, w: seq<bool>)
    requires |w| <= 8 * |t| && BytesToBits(t) == w + Zeros(8 * |t| - |w|)
    ensures Holds(t, w)
  {
  }

  /** The first `used` bytes of a buffer hold the written bits, then zeros. */
  lemma {:induction false} ImagePrefix(s: seq<byte>, written: seq<bool>, used: nat)
    requires Holds(s, written) && |written| <= 8 * used <= 8 * |s|
    ensures Holds(s[..used], written)
  {
    BytesToBitsPrefix(s, used);
  }

  /** Growing a buffer with zero bytes keeps what it holds. */
  lemma {:induction false} GrowImage(s: seq<byte>, written: seq<bool>, extra: nat)
    requires Holds(s, written)
    ensures Holds(s + seq(extra, _ => 0), written)
  {
    BytesToBitsAppend(s, seq(extra, _ => 0));
    BytesToBitsZero(extra);
    assert Zeros(8 * |s| - |written|) + Zeros(8 * extra) == Zeros(8 * (|s| + extra) - |written|);
  }

  /**
   * bytesUsed(): the current byte counts once any of its bits is written,
   * so the result is the least number of whole bytes holding the bits.
   */
  function UsedBytes(pos: nat, bitsLeft: nat): (r: nat)
    requires 1 <= bitsLeft <= 8
    ensures Offset(pos, bitsLeft) <= 8 * r < Offset(pos, bitsLeft) + 8
  {
    pos + (if bitsLeft == 8 then 0 else 1)
  }

  /**
   * totalBitsLeft() as computed in uint32 arithmetic: the bits left in the
   * current byte plus eight per byte after it.  When the cursor sits just
   * past the end (pos == size) the inner difference wraps to 2^32 - 1, and
   * the whole sum wraps back to 0, so the result is always the number of
   * free bits.
   */
  function TotalBitsLeft(size: nat, pos: nat, bitsLeft: nat): (r: uint32)
    requires 1 <= bitsLeft <= 8 && Offset(pos, bitsLeft) <= 8 * size && 8 * size < U32
    ensures r == 8 * size - Offset(pos, bitsLeft)
  {
    if pos < size then
      ModSmall(size - pos - 1, U32);
      ModSmall(bitsLeft + 8 * (size - pos - 1), U32);
      Wrap32(bitsLeft + 8 * Wrap32(size - pos - 1))
    else
      DivModUnique(-1, U32, -1, U32 - 1);
      DivModUnique(8 + 8 * (U32 - 1), U32, 8, 0);
      Wrap32(bitsLeft + 8 * Wrap32(size - pos - 1))
  }

  /** A buffer that agrees with `before` except for `src` copied in at `pos`. */
  lemma {:induction false} Splice(before: seq<byte>, after: seq<byte>, pos: nat, src: seq<byte>)
    requires |after| == |before| && pos + |src| <= |before|
    requires forall i :: 0 <= i < |after| ==>
               after[i] == if pos <= i < pos + |src| then src[i - pos] else before[i]
    ensures after == before[..pos] + src + before[pos + |src|..]
  {
    var t := before[..pos] + src + before[pos + |src|..];
    forall i | 0 <= i < |after|
      ensures after[i] == t[i]
    {
      if i < pos {
      } else if i < pos + |src| {
        assert t[i] == src[i - pos];
      } else {
        assert t[i] == before[pos + |src|..][i - pos - |src|];
      }
    }
  }

  // ---------------------------------------------------------------------
  // Bytes emitted by the fast path
  // ---------------------------------------------------------------------

  /** Byte j (counting from the least significant) of a field: `(v >> 8j) & 0xff`. */
  function ByteOf(v: nat, j: nat): (r: byte)
    ensures ByteBits(r) == BitsMSB(Shr(v, 8 * j), 8)
  {
    Pow2Values();
    BitsLow(Shr(v, 8 * j), 8);
    Low(Shr(v, 8 * j), 8)
  }

  /** The low 8(j+1) bits of v are byte j followed by the low 8j bits. */
  lemma {:induction false} NextByteUp(v: nat, j: nat)
    ensures ByteBits(ByteOf(v, j)) + BitsMSB(v, 8 * j) == BitsMSB(v, 8 * j + 8)
  {
    BitsSplit(v, 8, 8 * j);
  }

  /** The k low bytes of a field in network order, most significant first. */
  function FieldBytes(v: nat, k: nat): (r: seq<byte>)
    ensures |r| == k
  {
    seq(k, i requires 0 <= i < k => ByteOf(v, k - 1 - i))
  }

  /** Storing a field's bytes most significant first stores its bits in order. */
  lemma {:induction false} FieldBytesBits(v: nat, k: nat)
    ensures BytesToBits(FieldBytes(v, k)) == BitsMSB(v, 8 * k)
  {
    if k > 0 {
      var r := FieldBytes(v, k);
      assert r[1..] == FieldBytes(v, k - 1);
      FieldBytesBits(v, k - 1);
      NextByteUp(v, k - 1);
    }
  }

  /**
   * One step of the slow path: the masked chunk carries the right bits of
   * the field, the bits still to write are unchanged in the low part of the
   * value copy, and the chunk extends the written top of the field.
   */
  lemma {:induction false} ChunkStep(value: nat, valueCopy: nat, toWrite: nat, overflow: nat, chunkBits: nat, bits: nat)
    requires toWrite == overflow + chunkBits && toWrite <= bits
    requires BitsMSB(valueCopy, toWrite) == BitsMSB(value, toWrite)
    ensures BitsMSB(Low(Shr(valueCopy, overflow), chunkBits), chunkBits) == BitsMSB(Shr(value, overflow), chunkBits)
    ensures BitsMSB(valueCopy, overflow) == BitsMSB(value, overflow)
    ensures BitsMSB(Shr(value, toWrite), bits - toWrite) + BitsMSB(Shr(value, overflow), chunkBits)
            == BitsMSB(Shr(value, overflow), bits - overflow)
  {
    BitsSplit(valueCopy, chunkBits, overflow);
    BitsSplit(value, chunkBits, overflow);
    var c := BitsMSB(valueCopy, toWrite);
    assert BitsMSB(Shr(valueCopy, overflow), chunkBits) == c[..chunkBits];
    assert BitsMSB(valueCopy, overflow) == c[chunkBits..];
    BitsLow(Shr(valueCopy, overflow), chunkBits);
    BitsSplit(Shr(value, overflow), bits - toWrite, chunkBits);
    ShrShr(value, overflow, chunkBits);
  }

  /** Regrouping an append whose last two parts are known to join up. */
  lemma {:induction false} AppendRegroup(w: seq<bool>, a: seq<bool>, b: seq<bool>, c: seq<bool>)
    requires a + b == c
    ensures (w + a) + b == w + c
  {
    assert (w + a) + b == w + (a + b);
  }

  /** Subtracting `y << k` (modulo 2^32) keeps the low k bits. */
  lemma {:induction false} SubKeepsLow(x: nat, y: nat, k: nat)
    requires k <= 32
    ensures BitsMSB(Wrap32(x - Shl(y, k)), k) == BitsMSB(x, k)
  {
    SubShlKeepsLow(x, y, k);
    BitsLow(Wrap32(x - Shl(y, k)), k);
    BitsLow(x, k);
  }

  // ---------------------------------------------------------------------
  // The write body shared by BitWriter::write and OBitStream::write
  // ---------------------------------------------------------------------

  /**
   * Writes the low `bits` bits of `value` at the cursor (pos0, bitsLeft0)
   * and returns the advanced cursor.  On an aligned cursor with a width of
   * 8, 16, 24 or 32 the bytes are stored whole, most significant first;
   * otherwise the bits are OR-merged chunk by chunk.
   */
  method Pack(buf: array<byte>, pos0: nat, bitsLeft0: nat, value: uint32, bits: nat, ghost written: seq<bool>)
    returns (pos: nat, bitsLeft: nat)
    requires bits <= 32
    requires 1 <= bitsLeft0 <= 8 && |written| == Offset(pos0, bitsLeft0)
    requires |written| + bits <= 8 * buf.Length && Holds(buf[..], written)
    modifies buf
    ensures 1 <= bitsLeft <= 8 && Offset(pos, bitsLeft) == |written| + bits
    ensures Holds(buf[..], written + BitsMSB(value, bits))
  {
    if bitsLeft0 == 8 && (bits == 8 || bits == 16 || bits == 24 || bits == 32) {
      ghost var before := buf[..];
      pos := StoreField(buf, pos0, value, bits);
      bitsLeft := 8;
      SpliceField(before, buf[..], pos0, value, bits / 8);
      CopyBlock(before, pos0, written, FieldBytes(value, bits / 8));
      FieldBytesBits(value, bits / 8);
    } else {
      pos, bitsLeft := MergeField(buf, pos0, bitsLeft0, value, bits, written);
    }
  }

  /**
   * The fast path: the bytes of the field are stored whole, most
   * significant first (the switch on the width falls through from case 32
   * to case 8).
   */
  method StoreField(buf: array<byte>, pos0: nat, value: uint32, bits: nat) returns (pos: nat)
    requires bits == 8 || bits == 16 || bits == 24 || bits == 32
    requires pos0 + bits / 8 <= buf.Length
    modifies buf
    ensures pos == pos0 + bits / 8
    ensures forall i :: 0 <= i < buf.Length ==>
              buf[i] == if pos0 <= i < pos then ByteOf(value, pos - 1 - i) else old(buf[i])
  {
    pos := pos0;
    if bits == 32 {
      buf[pos] := ByteOf(value, 3);
      pos := pos + 1;
    }
    if bits >= 24 {
      buf[pos] := ByteOf(value, 2);
      pos := pos + 1;
    }
    if bits >= 16 {
      buf[pos] := ByteOf(value, 1);
      pos := pos + 1;
    }
    // the last byte is the value truncated to uint8_t
    assert ByteOf(value, 0) == value % 256 by {
      Pow2Values();
      LowMod(value, 8);
    }
    buf[pos] := value % 256;
    pos := pos + 1;
  }

  /** A buffer whose bytes pos0 .. pos0+k-1 hold the field and the rest are unchanged. */
  lemma {:induction false} SpliceField(before: seq<byte>, after: seq<byte>, pos0: nat, value: nat, k: nat)
    requires |after| == |before| && pos0 + k <= |before|
    requires forall i :: 0 <= i < |after| ==>
               after[i] == if pos0 <= i < pos0 + k then ByteOf(value, pos0 + k - 1 - i) else before[i]
    ensures after == before[..pos0] + FieldBytes(value, k) + before[pos0 + k..]
  {
    var t := before[..pos0] + FieldBytes(value, k) + before[pos0 + k..];
    assert |t| == |after|;
    forall i | 0 <= i < |after|
      ensures after[i] == t[i]
    {
      if i < pos0 {
      } else if i < pos0 + k {
        assert t[i] == FieldBytes(value, k)[i - pos0];
      } else {
        assert t[i] == before[pos0 + k..][i - pos0 - k];
      }
    }
  }

  /**
   * The slow path: at most `bitsLeft` bits at a time are masked out of a
   * copy of the value, shifted to the top of the free bits of the current
   * byte and OR-ed in, then subtracted from the copy.
   */
  method MergeField(buf: array<byte>, pos0: nat, bitsLeft0: nat, value: uint32, bits: nat, ghost written: seq<bool>)
    returns (pos: nat, bitsLeft: nat)
    requires bits <= 32
    requires 1 <= bitsLeft0 <= 8 && |written| == Offset(pos0, bitsLeft0)
    requires |written| + bits <= 8 * buf.Length && Holds(buf[..], written)
    modifies buf
    ensures 1 <= bitsLeft <= 8 && Offset(pos, bitsLeft) == |written| + bits
    ensures Holds(buf[..], written + BitsMSB(value, bits))
  {
    pos, bitsLeft := pos0, bitsLeft0;
    var toWrite: nat := bits;
    var valueCopy: uint32 := value;
    while toWrite > 0
      invariant MergeInv(buf[..], written, value, bits, pos, bitsLeft, valueCopy, toWrite)
    {
      ghost var s0, posB, bitsLeftB, valueCopyB, toWriteB := buf[..], pos, bitsLeft, valueCopy, toWrite;
      // write at most bitsLeft bits into the current byte
      var chunkBits := if toWrite < bitsLeft then toWrite else bitsLeft;
      // bits that go to later bytes
      var overflow := if toWrite > bitsLeft then toWrite - bitsLeft else 0;
      // align the chunk to the right and mask it with (2 << (chunkBits - 1)) - 1
      var chunk := Low(Shr(valueCopy, overflow), chunkBits);
      // shift it to its place in the byte (an uint8_t) and OR it in
      var offsetByte := Shl(chunk, bitsLeft - chunkBits) % 256;
      MergeFits(s0, written, value, bits, pos, bitsLeft, valueCopy, toWrite, chunkBits, overflow, offsetByte);
      buf[pos] := Or(buf[pos], offsetByte);
      assert buf[..] == s0[posB := Or(s0[posB], offsetByte)];
      toWrite := toWrite - chunkBits;
      bitsLeft := bitsLeft - chunkBits;
      if bitsLeft == 0 {
        bitsLeft := 8;
        pos := pos + 1;
      }
      // subtract the written bits from the copy (uint32 arithmetic)
      valueCopy := Wrap32(valueCopy - Shl(offsetByte, overflow));
      MergeStep(s0, written, value, bits, posB, bitsLeftB, valueCopyB, toWriteB,
                chunkBits, overflow, offsetByte, pos, bitsLeft, valueCopy);
    }
  }

  /** The slow path's loop invariant. */
  ghost predicate MergeInv(s: seq<byte>, written: seq<bool>, value: nat, bits: nat,
                           pos: nat, bitsLeft: nat, valueCopy: nat, toWrite: nat)
  {
    && toWrite <= bits && 1 <= bitsLeft <= 8
    && Offset(pos, bitsLeft) == |written| + bits - toWrite
    && |written| + bits <= 8 * |s|
    // the bits still to write are intact in the low part of the copy
    && BitsMSB(valueCopy, toWrite) == BitsMSB(value, toWrite)
    // the top bits of the field are written
    && Holds(s, written + BitsMSB(Shr(value, toWrite), bits - toWrite))
  }

  /** The byte a loop iteration merges into exists, and stays a byte. */
  lemma {:induction false} MergeFits(s: seq<byte>, written: seq<bool>, value: nat, bits: nat,
                                     pos: nat, bitsLeft: nat, valueCopy: nat, toWrite: nat,
                                     chunkBits: nat, overflow: nat, offsetByte: nat)
    requires toWrite > 0
    requires MergeInv(s, written, value, bits, pos, bitsLeft, valueCopy, toWrite)
    requires chunkBits == (if toWrite < bitsLeft then toWrite else bitsLeft)
    requires overflow == (if toWrite > bitsLeft then toWrite - bitsLeft else 0)
    requires offsetByte == Shl(Low(Shr(valueCopy, overflow), chunkBits), bitsLeft - chunkBits) % 256
    ensures pos < |s| && Or(s[pos], offsetByte) < 256
  {
    var shifted := Shl(Low(Shr(valueCopy, overflow), chunkBits), bitsLeft - chunkBits);
    assert shifted < 256 && Or(s[pos], shifted) < 256 by {
      MergeChunk(s, pos, bitsLeft, written + BitsMSB(Shr(value, toWrite), bits - toWrite),
                 Low(Shr(valueCopy, overflow), chunkBits), chunkBits);
    }
    ModSmall(shifted, 256);
  }

  /** One iteration of the slow path's loop keeps its invariant. */
  lemma {:induction false} MergeStep(s: seq<byte>, written: seq<bool>, value: nat, bits: nat,
                                     pos: nat, bitsLeft: nat, valueCopy: nat, toWrite: nat,
                                     chunkBits: nat, overflow: nat, offsetByte: nat,
                                     pos': nat, bitsLeft': nat, valueCopy': nat)
    requires bits <= 32 && toWrite > 0
    requires MergeInv(s, written, value, bits, pos, bitsLeft, valueCopy, toWrite)
    requires chunkBits == (if toWrite < bitsLeft then toWrite else bitsLeft)
    requires overflow == (if toWrite > bitsLeft then toWrite - bitsLeft else 0)
    requires offsetByte == Shl(Low(Shr(valueCopy, overflow), chunkBits), bitsLeft - chunkBits) % 256
    requires valueCopy' == Wrap32(valueCopy - Shl(offsetByte, overflow))
    requires 1 <= bitsLeft' <= 8 && Offset(pos', bitsLeft') == Offset(pos, bitsLeft) + chunkBits
    requires pos < |s| && Or(s[pos], offsetByte) < 256
    ensures MergeInv(s[pos := Or(s[pos], offsetByte)], written, value, bits, pos', bitsLeft', valueCopy', overflow)
  {
    var chunk := Low(Shr(valueCopy, overflow), chunkBits);
    var shifted := Shl(chunk, bitsLeft - chunkBits);
    var done := written + BitsMSB(Shr(value, toWrite), bits - toWrite);
    var next := written + BitsMSB(Shr(value, overflow), bits - overflow);
    assert BitsMSB(valueCopy, overflow) == BitsMSB(value, overflow) && done + BitsMSB(chunk, chunkBits) == next by {
      ChunkStep(value, valueCopy, toWrite, overflow, chunkBits, bits);
      AppendRegroup(written, BitsMSB(Shr(value, toWrite), bits - toWrite), BitsMSB(chunk, chunkBits), BitsMSB(Shr(value, overflow), bits - overflow));
    }
    assert shifted < 256 && Holds(s[pos := Or(s[pos], shifted)], next) by {
      MergeChunk(s, pos, bitsLeft, done, chunk, chunkBits);
    }
    assert offsetByte == shifted by {
      ModSmall(shifted, 256);
    }
    assert BitsMSB(valueCopy', overflow) == BitsMSB(value, overflow) by {
      SubKeepsLow(valueCopy, shifted, overflow);
    }
    MergeInvNext(s, written, value, bits, pos, bitsLeft, valueCopy, toWrite, pos', bitsLeft', offsetByte, overflow, next, valueCopy');
  }

  /** Reassembles the loop invariant after one iteration from its parts. */
  lemma {:induction false} MergeInvNext(s: seq<byte>, written: seq<bool>, value: nat, bits: nat,
                                        pos: nat, bitsLeft: nat, valueCopy: nat, toWrite: nat,
                                        pos': nat, bitsLeft': nat, shifted: nat, overflow: nat,
                                        next: seq<bool>, valueCopy': nat)
    requires toWrite > 0
    requires MergeInv(s, written, value, bits, pos, bitsLeft, valueCopy, toWrite)
    requires 1 <= bitsLeft' <= 8
    requires overflow == if toWrite > bitsLeft then toWrite - bitsLeft else 0
    requires Offset(pos', bitsLeft') == Offset(pos, bitsLeft) + (if toWrite < bitsLeft then toWrite else bitsLeft)
    requires pos < |s| && Or(s[pos], shifted) < 256
    requires next == written + BitsMSB(Shr(value, overflow), bits - overflow)
    requires Holds(s[pos := Or(s[pos], shifted)], next)
    requires BitsMSB(valueCopy', overflow) == BitsMSB(value, overflow)
    ensures MergeInv(s[pos := Or(s[pos], shifted)], written, value, bits, pos', bitsLeft', valueCopy', overflow)
  {
  }
}
