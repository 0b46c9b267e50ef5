/**
 * IBitStream: a bit reader over a buffer it holds (a shared Buffer, or a
 * copy of a string's bytes).  Fields are read most significant bit first
 * into 8-, 16-, 32- or 64-bit outputs; the stream can also hand out whole
 * bytes, skip bits or bytes, and peek at the current byte.
 */
module IBitStreams {
  import opened Bits
  import opened Cursor
  import opened Reading

  class IBitStream {
    /** The bytes read from; the stream never writes them. */
    const data: seq<byte>
    /** The number of bits not yet read (m_uiBitsRemaining). */
    var bitsRemaining: nat
    /** Unread bits in the current byte, 1..8 (m_uiBitsInCurrentByte). */
    var bib: nat
    /** The current byte (m_uiCurrentBytePos). */
    var pos: nat

    /** The cursor lies inside the data and the remaining count agrees with it. */
    ghost predicate Valid()
      reads this
    {
      && 8 * |data| < U32
      && 1 <= bib <= 8
      && Offset(pos, bib) <= 8 * |data|
      && bitsRemaining == 8 * |data| - Offset(pos, bib)
    }

    /** The bits not yet read, in stream order. */
    ghost function Pending(): (r: seq<bool>)
      reads this
      requires Valid()
      ensures |r| == bitsRemaining
    {
      BytesToBits(data)[Offset(pos, bib)..]
    }

    /** A stream over a Buffer: nothing read yet. */
    constructor (buffer: seq<byte>)
      requires 8 * |buffer| < U32
      ensures Valid() && data == buffer
      ensures pos == 0 && bib == 8 && bitsRemaining == 8 * |buffer|
      ensures Pending() == BytesToBits(buffer)
    {
      data := buffer;
      bitsRemaining := 8 * |buffer|;
      bib := 8;
      pos := 0;
    }

    /** A stream over a copy of a string's bytes. */
    constructor FromString(s: seq<char>)
      requires 8 * |s| < U32
      requires forall i :: 0 <= i < |s| ==> s[i] as int < 256
      ensures Valid() && |data| == |s| && forall i :: 0 <= i < |s| ==> data[i] == s[i] as int
      ensures pos == 0 && bib == 8 && bitsRemaining == 8 * |s|
    {
      data := seq(|s|, i requires 0 <= i < |s| => s[i] as int);
      bitsRemaining := 8 * |s|;
      bib := 8;
      pos := 0;
    }

    /** getBitsRemaining(): the number of unread bits. */
    function GetBitsRemaining(): (r: nat)
      reads this
      requires Valid()
      ensures r == |Pending()|
      ensures r == 8 * |data| - Offset(pos, bib)
    {
      bitsRemaining
    }

    /** getBytesRemaining(): the number of whole unread bytes, rounded down. */
    function GetBytesRemaining(): (r: nat)
      reads this
      requires Valid()
      ensures 8 * r <= |Pending()| < 8 * r + 8
    {
      bitsRemaining / 8
    }

    /** The loop shared by the read overloads; `width` is the output's width. */
    method ReadBits(bits: nat, width: nat) returns (value: nat)
      requires Valid() && bits <= width && bits <= bitsRemaining
      modifies this
      ensures Valid() && value < Pow2(bits)
      ensures value == ValueMSB(old(Pending())[..bits])
      ensures Pending() == old(Pending())[bits..]
    {
      ghost var start := Offset(pos, bib);
      value, pos, bib := Unpack(data, pos, bib, bits, width);
      bitsRemaining := bitsRemaining - bits;
      SuffixSplit(BytesToBits(data), start, bits);
    }

    /**
     * read(uint64_t&, n): fails when fewer than n bits remain, otherwise
     * yields the next n bits.  On failure the caller's variable keeps
     * `prior`.
     */
    method Read64(prior: nat, bits: nat) returns (ok: bool, value: nat)
      requires Valid() && bits <= 64
      modifies this
      ensures Valid()
      ensures ok <==> bits <= old(bitsRemaining)
      ensures ok ==> value == ValueMSB(old(Pending())[..bits]) && Pending() == old(Pending())[bits..]
      ensures !ok ==> value == prior && unchanged(this)
    {
      if bits > bitsRemaining {
        return false, prior;
      }
      value := ReadBits(bits, 64);
      ok := true;
    }

    /** read(uint32_t&, n): as Read64 for a 32-bit output. */
    method Read32(prior: nat, bits: nat) returns (ok: bool, value: nat)
      requires Valid() && bits <= 32
      modifies this
      ensures Valid()
      ensures ok <==> bits <= old(bitsRemaining)
      ensures ok ==> value == ValueMSB(old(Pending())[..bits]) && Pending() == old(Pending())[bits..]
      ensures !ok ==> value == prior && unchanged(this)
    {
      if bits > bitsRemaining {
        return false, prior;
      }
      value := ReadBits(bits, 32);
      ok := true;
    }

    /** read(uint16_t&, n): also fails when n exceeds 16. */
    method Read16(prior: nat, bits: nat) returns (ok: bool, value: nat)
      requires Valid()
      modifies this
      ensures Valid()
      ensures ok <==> bits <= 16 && bits <= old(bitsRemaining)
      ensures ok ==> value == ValueMSB(old(Pending())[..bits]) && Pending() == old(Pending())[bits..]
      ensures !ok ==> value == prior && unchanged(this)
    {
      if bits > 16 || bits > bitsRemaining {
        return false, prior;
      }
      value := ReadBits(bits, 16);
      ok := true;
    }

    /** read(uint8_t&, n): also fails when n exceeds 8. */
    method Read8(prior: nat, bits: nat) returns (ok: bool, value: nat)
      requires Valid()
      modifies this
      ensures Valid()
      ensures ok <==> bits <= 8 && bits <= old(bitsRemaining)
      ensures ok ==> value == ValueMSB(old(Pending())[..bits]) && Pending() == old(Pending())[bits..]
      ensures !ok ==> value == prior && unchanged(this)
    {
      if bits > 8 || bits > bitsRemaining {
        return false, prior;
      }
      value := ReadBits(bits, 8);
      ok := true;
    }

    /**
     * readBytes(dst, n): only on a byte boundary and when n whole bytes
     * remain; copies the n bytes at the cursor and moves past them.  On
     * failure nothing is copied (the result is empty).
     */
    method ReadBytes(n: nat) returns (ok: bool, bytes: seq<byte>)
      requires Valid()
      modifies this
      ensures Valid()
      ensures ok <==> old(bib) == 8 && 8 * n <= old(bitsRemaining)
      ensures ok ==> bytes == data[old(pos) .. old(pos) + n] && pos == old(pos) + n && bib == 8
      ensures ok ==> BytesToBits(bytes) == old(Pending())[..8 * n] && Pending() == old(Pending())[8 * n..]
      ensures !ok ==> bytes == [] && unchanged(this)
    {
      if bib != 8 || 8 * n > bitsRemaining {
        return false, [];
      }
      bytes := data[pos .. pos + n];
      AlignedSlice(data, pos, n);
      bitsRemaining := bitsRemaining - 8 * n;
      pos := pos + n;
      ok := true;
    }

    /** skipBits(n): moves the cursor as a read of n bits would, producing nothing. */
    method SkipBits(bits: nat) returns (ok: bool)
      requires Valid()
      modifies this
      ensures Valid()
      ensures ok <==> bits <= old(bitsRemaining)
      ensures ok ==> Pending() == old(Pending())[bits..]
      ensures !ok ==> unchanged(this)
    {
      if bits > bitsRemaining {
        return false;
      }
      pos, bib := Advance(pos, bib, bits);
      bitsRemaining := bitsRemaining - bits;
      ok := true;
    }

    /** skipBytes(n): only on a byte boundary and when n whole bytes remain. */
    method SkipBytes(n: nat) returns (ok: bool)
      requires Valid()
      modifies this
      ensures Valid()
      ensures ok <==> old(bib) == 8 && 8 * n <= old(bitsRemaining)
      ensures ok ==> pos == old(pos) + n && bib == 8 && Pending() == old(Pending())[8 * n..]
      ensures !ok ==> unchanged(this)
    {
      if bib != 8 || 8 * n > bitsRemaining {
        return false;
      }
      bitsRemaining := bitsRemaining - 8 * n;
      pos := pos + n;
      ok := true;
    }

    /**
     * peekAtCurrentByte(): the byte under the cursor; its low `bib` bits are
     * the next unread bits.
     */
    function PeekAtCurrentByte(): (r: byte)
      reads this
      requires Valid() && pos < |data|
      ensures ByteBits(r)[8 - bib..] == Pending()[..bib]
    {
      BytesToBitsAt(data, pos);
      data[pos]
    }
  }
}
