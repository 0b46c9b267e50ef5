/**
 * The read side of the cursor model, shared by IBitStream and BitReader:
 * the loop of every `read` overload (extract at most the bits left in the
 * current byte, shift them into the result, roll over to the next byte)
 * and the loop of `skipBits`, which moves the cursor the same way without
 * producing a value.
 */
module Reading {
  import opened Bits
  import opened Cursor

  /** The `bits` bits of the image of `buf` starting at bit offset `start`, read MSB first. */
  function Field(buf: seq<byte>, start: nat, bits: nat): (r: nat)
    requires start + bits <= 8 * |buf|
    ensures r < Pow2(bits)
    ensures BitsMSB(r, bits) == BytesToBits(buf)[start .. start + bits]
  {
    BitsOfValue(BytesToBits(buf)[start .. start + bits]);
    ValueMSB(BytesToBits(buf)[start .. start + bits])
  }

  /**
   * Reading k of the bib bits still unread in byte `pos`: the byte shifted
   * right by bib - k and masked to k bits is the value of those k bits of
   * the image.
   */
  lemma {:induction false} ReadChunk(buf: seq<byte>, pos: nat, bib: nat, k: nat, lo: nat, hi: nat)
    requires pos < |buf| && 1 <= k <= bib <= 8 && lo == Offset(pos, bib) && hi == lo + k
    ensures hi <= 8 * |buf|
    ensures ValueMSB(BytesToBits(buf)[lo .. hi]) == Low(Shr(buf[pos], bib - k), k)
  {
    var b: nat := buf[pos];
    var bits := BitsMSB(Shr(b, bib - k), k);
    assert BytesToBits(buf)[lo .. hi] == bits by {
      ImageByteSlice(buf, pos, 8 - bib, 8 - bib + k, lo, hi);
      ByteMiddle(b, bib, k);
    }
    ValueOfBits(Shr(b, bib - k), k);
  }

  /** Bits i to j of byte `pos`, as bits of the whole image. */
  lemma {:induction false} ImageByteSlice(buf: seq<byte>, pos: nat, i: nat, j: nat, lo: nat, hi: nat)
    requires pos < |buf| && i <= j <= 8 && lo == 8 * pos + i && hi == 8 * pos + j
    ensures hi <= 8 * |buf|
    ensures BytesToBits(buf)[lo .. hi] == BitsMSB(buf[pos], 8)[i .. j]
  {
    BytesToBitsAt(buf, pos);
    SliceOfSlice(BytesToBits(buf), 8 * pos, 8 * pos + 8, i, j);
  }

  /** The k bits of a byte that lie bib - k bits above its low end. */
  lemma {:induction false} ByteMiddle(b: nat, bib: nat, k: nat)
    requires 1 <= k <= bib <= 8
    ensures BitsMSB(b, 8)[8 - bib .. 8 - bib + k] == BitsMSB(Shr(b, bib - k), k)
  {
    var high, mid, low := BitsMSB(Shr(Shr(b, bib - k), k), 8 - bib), BitsMSB(Shr(b, bib - k), k), BitsMSB(b, bib - k);
    BitsSplit(b, 8 - (bib - k), bib - k);
    BitsSplit(Shr(b, bib - k), 8 - bib, k);
    assert BitsMSB(b, 8) == high + mid + low;
    MiddleOf(high, mid, low);
  }

  /** A slice of a slice is a slice. */
  lemma {:induction false} SliceOfSlice(s: seq<bool>, a: nat, b: nat, c: nat, d: nat)
    requires a <= b <= |s| && c <= d <= b - a
    ensures s[a .. b][c .. d] == s[a + c .. a + d]
  {
    assert forall i :: 0 <= i < d - c ==> s[a .. b][c .. d][i] == s[a + c + i];
  }

  /** The middle part of a three-part concatenation. */
  lemma {:induction false} MiddleOf(x: seq<bool>, y: seq<bool>, z: seq<bool>)
    ensures (x + y + z)[|x| .. |x| + |y|] == y
  {
  }

  /** The read loop's invariant: `value` holds the field bits read so far. */
  ghost predicate ReadInv(buf: seq<byte>, start: nat, bits: nat, width: nat,
                          value: nat, pos: nat, bib: nat, remaining: nat)
  {
    && remaining <= bits <= width && 1 <= bib <= 8
    && start + bits <= 8 * |buf|
    && Offset(pos, bib) == start + bits - remaining
    && value == ValueMSB(BytesToBits(buf)[start .. start + bits - remaining])
  }

  /** Shifting the partial value left by k bits never overflows the output width. */
  lemma {:induction false} ShiftFits(value: nat, a: nat, k: nat, width: nat)
    requires value < Pow2(a) && a + k <= width
    ensures Low(Shl(value, k), width) == Shl(value, k)
  {
    ShlMul(value, k);
    Pow2Add(a, k);
    Pow2Monotone(a + k, width);
    assert value * Pow2(k) < Pow2(a) * Pow2(k) by {
      assert (Pow2(a) - value) * Pow2(k) >= Pow2(k) by {
        MulAtLeast(Pow2(a) - value, Pow2(k));
      }
    }
    LowSmall(Shl(value, k), width);
  }

  /** While bits remain to be read, the cursor is inside the buffer. */
  lemma {:induction false} ReadInBounds(buf: seq<byte>, start: nat, bits: nat, width: nat,
                                        value: nat, pos: nat, bib: nat, remaining: nat)
    requires remaining > 0 && ReadInv(buf, start, bits, width, value, pos, bib, remaining)
    ensures pos < |buf|
  {
  }

  /** One iteration of the read loop keeps the invariant. */
  lemma {:induction false} ReadStep(buf: seq<byte>, start: nat, bits: nat, width: nat,
                                    value: nat, pos: nat, bib: nat, remaining: nat,
                                    k: nat, chunk: nat, next: nat, pos': nat, bib': nat)
    requires ReadInv(buf, start, bits, width, value, pos, bib, remaining)
    requires pos < |buf| && k == (if bib < remaining then bib else remaining) && k > 0
    requires chunk == Low(Shr(buf[pos], bib - k), k) && next == Or(Low(Shl(value, k), width), chunk)
    requires 1 <= bib' <= 8 && Offset(pos', bib') == Offset(pos, bib) + k
    ensures ReadInv(buf, start, bits, width, next, pos', bib', remaining - k)
  {
    var c := Offset(pos, bib);
    var image := BytesToBits(buf);
    assert next == Shl(value, k) + chunk by {
      OrStep(value, c - start, k, width, chunk, next);
    }
    assert next == ValueMSB(image[start .. c + k]) by {
      ReadValueStep(buf, start, pos, bib, k, value);
    }
    ReadInvNext(buf, start, bits, width, pos', bib', remaining - k, next, c + k);
  }

  /** OR-ing the chunk into the shifted partial value adds it: their bits do not overlap. */
  lemma {:induction false} OrStep(value: nat, a: nat, k: nat, width: nat, chunk: nat, next: nat)
    requires value < Pow2(a) && a + k <= width && chunk < Pow2(k)
    requires next == Or(Low(Shl(value, k), width), chunk)
    ensures next == Shl(value, k) + chunk
  {
    ShiftFits(value, a, k, width);
    OrIntoZeroBits(value, k, chunk);
  }

  /** Appending the next k bits of byte `pos` to the field read so far. */
  lemma {:induction false} ReadValueStep(buf: seq<byte>, start: nat, pos: nat, bib: nat, k: nat, value: nat)
    requires pos < |buf| && 1 <= k <= bib <= 8 && start <= Offset(pos, bib)
    requires value == ValueMSB(BytesToBits(buf)[start .. Offset(pos, bib)])
    ensures Offset(pos, bib) + k <= 8 * |buf|
    ensures ValueMSB(BytesToBits(buf)[start .. Offset(pos, bib) + k]) == Shl(value, k) + Low(Shr(buf[pos], bib - k), k)
  {
    var image := BytesToBits(buf);
    var c := Offset(pos, bib);
    ReadChunk(buf, pos, bib, k, c, c + k);
    SliceSplit(image, start, c, c + k);
    AppendValue(image[start .. c + k], image[start .. c], image[c .. c + k], k, value, Low(Shr(buf[pos], bib - k), k));
  }

  /** The value of a concatenation, for named parts. */
  lemma {:induction false} AppendValue(whole: seq<bool>, front: seq<bool>, chunk: seq<bool>, k: nat, value: nat, chunkValue: nat)
    requires whole == front + chunk && |chunk| == k
    requires value == ValueMSB(front) && chunkValue == ValueMSB(chunk)
    ensures ValueMSB(whole) == Shl(value, k) + chunkValue
  {
    ValueAppend(front, chunk);
  }

  /** A slice is the concatenation of its two halves. */
  lemma {:induction false} SliceSplit(s: seq<bool>, i: nat, j: nat, l: nat)
    requires i <= j <= l <= |s|
    ensures s[i .. l] == s[i .. j] + s[j .. l]
  {
  }

  /** Reassembles the read loop's invariant from its parts. */
  lemma {:induction false} ReadInvNext(buf: seq<byte>, start: nat, bits: nat, width: nat,
                                       pos': nat, bib': nat, remaining': nat, value': nat, hi: nat)
    requires remaining' <= bits <= width && 1 <= bib' <= 8 && start + bits <= 8 * |buf|
    requires hi == start + bits - remaining' && Offset(pos', bib') == hi
    requires start <= hi <= 8 * |buf| && value' == ValueMSB(BytesToBits(buf)[start .. hi])
    ensures ReadInv(buf, start, bits, width, value', pos', bib', remaining')
  {
  }

  /**
   * The loop of the `read` overloads: the result is the next `bits` bits of
   * the image read MSB first, and the cursor moves forward by `bits`.  The
   * result variable has `width` bits (8, 16, 32 or 64), so `<<=` is taken
   * modulo 2^width; with `bits <= width` nothing is ever shifted out.
   */
  method Unpack(buf: seq<byte>, pos0: nat, bib0: nat, bits: nat, width: nat)
    returns (value: nat, pos: nat, bib: nat)
    requires 1 <= bib0 <= 8 && bits <= width
    requires Offset(pos0, bib0) + bits <= 8 * |buf|
    ensures 1 <= bib <= 8 && Offset(pos, bib) == Offset(pos0, bib0) + bits
    ensures value == Field(buf, Offset(pos0, bib0), bits)
  {
    ghost var start := Offset(pos0, bib0);
    value, pos, bib := 0, pos0, bib0;
    var remaining: nat := bits;
    while remaining > 0
      invariant ReadInv(buf, start, bits, width, value, pos, bib, remaining)
    {
      ghost var valueB, posB, bibB, remainingB := value, pos, bib, remaining;
      ReadInBounds(buf, start, bits, width, value, pos, bib, remaining);
      var k := if bib < remaining then bib else remaining;
      // preserve the old value
      value := Low(Shl(value, k), width);
      // align the bits to the right and mask them with (2 << (k - 1)) - 1
      var shiftBy := bib - k;
      var chunk := Low(Shr(buf[pos], shiftBy), k);
      value := Or(value, chunk);
      bib := bib - k;
      if bib == 0 {
        bib := 8;
        pos := pos + 1;
      }
      remaining := remaining - k;
      ReadStep(buf, start, bits, width, valueB, posB, bibB, remainingB, k, chunk, value, pos, bib);
    }
  }

  /** The loop of `skipBits`: the cursor moves forward by exactly `bits`. */
  method Advance(pos0: nat, bib0: nat, bits: nat) returns (pos: nat, bib: nat)
    requires 1 <= bib0 <= 8
    ensures 1 <= bib <= 8 && Offset(pos, bib) == Offset(pos0, bib0) + bits
  {
    pos, bib := pos0, bib0;
    var remaining: nat := bits;
    while remaining > 0
      invariant 1 <= bib <= 8
      invariant Offset(pos, bib) + remaining == Offset(pos0, bib0) + bits
    {
      var k := if bib < remaining then bib else remaining;
      bib := bib - k;
      if bib == 0 {
        bib := 8;
        pos := pos + 1;
      }
      remaining := remaining - k;
    }
  }

  /** Reading `bits` bits from the suffix starting at `start`. */
  lemma {:induction false} SuffixSplit(image: seq<bool>, start: nat, bits: nat)
    requires start + bits <= |image|
    ensures image[start..][..bits] == image[start .. start + bits]
    ensures image[start..][bits..] == image[start + bits..]
  {
  }

  /** The bytes at an aligned cursor are the next whole bytes of the image. */
  lemma {:induction false} AlignedSlice(data: seq<byte>, pos: nat, n: nat)
    requires pos + n <= |data|
    ensures BytesToBits(data[pos .. pos + n]) == BytesToBits(data)[8 * pos .. 8 * pos + 8 * n]
  {
    assert data == data[..pos] + data[pos .. pos + n] + data[pos + n..];
    ImageParts(data[..pos], data[pos .. pos + n], data[pos + n..]);
  }

  // ---------------------------------------------------------------------
  // readBytes and skipBytes as the source has them
  // ---------------------------------------------------------------------

  /**
   * readBytes(n) / skipBytes(n) of both readers as written: the bit count
   * `uiBytes << 3` is a uint32, so from 2^29 bytes on it wraps; the guard
   * compares the wrapped count, while the cursor moves by all n bytes.
   * The result is whether the call succeeds, the new remaining bit count
   * and the new byte position.
   */
  function SkipBytesAsWritten(bitsRemaining: nat, bib: nat, pos: nat, n: nat): (r: (bool, nat, nat))
    requires bitsRemaining < U32 && n < U32
    ensures 8 * n < U32 ==> (r.0 <==> bib == 8 && 8 * n <= bitsRemaining)
    ensures r.0 ==> r.1 <= bitsRemaining && r.2 == pos + n
    ensures !r.0 ==> r == (false, bitsRemaining, pos)
  {
    var bits := Wrap32(8 * n);
    if bib != 8 || bits > bitsRemaining then (false, bitsRemaining, pos)
    else (true, bitsRemaining - bits, pos + n)
  }

  /**
   * With nothing left to read, skipBytes(2^29) as written succeeds and
   * moves the cursor 2^29 bytes past the end of the data.
   */
  lemma {:induction false} SkipBytesRunsPastEnd()
    ensures SkipBytesAsWritten(0, 8, 0, 0x2000_0000) == (true, 0, 0x2000_0000)
  {
    assert Wrap32(8 * 0x2000_0000) == 0;
  }
}
