/**
 * BitReader: the IBitStream reader over borrowed memory, a pointer and a
 * length that it neither copies nor owns.  It reads into 8-, 16- or 32-bit
 * outputs.
 */
module BitReaders {
  import opened Bits
  import opened Cursor
  import opened Reading

  class BitReader {
    /** The borrowed memory (m_pBitStream); the reader never writes it. */
    const data: array<byte>
    /** The number of bytes to read from it (m_uiLength). */
    const length: nat
    /** The number of bits not yet read (m_uiBitsRemaining). */
    var bitsRemaining: nat
    /** Unread bits in the current byte, 1..8 (m_uiBitsInCurrentByte). */
    var bib: nat
    /** The current byte (m_uiCurrentBytePos). */
    var pos: nat

    /** The cursor lies inside the data and the remaining count agrees with it. */
    ghost predicate Valid()
      reads this
    {
      && length <= data.Length && 8 * length < U32
      && 1 <= bib <= 8
      && Offset(pos, bib) <= 8 * length
      && bitsRemaining == 8 * length - Offset(pos, bib)
    }

    /** The bits not yet read, in stream order. */
    ghost function Pending(): (r: seq<bool>)
      reads this, data
      requires Valid()
      ensures |r| == bitsRemaining
    {
      BytesToBits(data[..length])[Offset(pos, bib)..]
    }

    /** A reader over the first `len` bytes at `stream`: nothing read yet, nothing copied. */
    constructor (stream: array<byte>, len: nat)
      requires len <= stream.Length && 8 * len < U32
      ensures Valid() && data == stream && length == len
      ensures pos == 0 && bib == 8 && bitsRemaining == 8 * len
      ensures Pending() == BytesToBits(stream[..len])
    {
      data := stream;
      length := len;
      bitsRemaining := 8 * len;
      bib := 8;
      pos := 0;
    }

    /** getBitsRemaining(): the number of unread bits. */
    function GetBitsRemaining(): (r: nat)
      reads this, data
      requires Valid()
      ensures r == |Pending()|
      ensures r == 8 * length - Offset(pos, bib)
    {
      bitsRemaining
    }

    /** getBytesRemaining(): the number of whole unread bytes, rounded down. */
    function GetBytesRemaining(): (r: nat)
      reads this, data
      requires Valid()
      ensures 8 * r <= |Pending()| < 8 * r + 8
    {
      bitsRemaining / 8
    }

    /** The loop shared by the read overloads; `width` is the output's width. */
    method ReadBits(bits: nat, width: nat) returns (value: nat)
      requires Valid() && bits <= width && bits <= bitsRemaining
      modifies this
      ensures Valid() && value < Pow2(bits)
      ensures value == ValueMSB(old(Pending())[..bits])
      ensures Pending() == old(Pending())[bits..]
    {
      ghost var start := Offset(pos, bib);
      value, pos, bib := Unpack(data[..length], pos, bib, bits, width);
      bitsRemaining := bitsRemaining - bits;
      SuffixSplit(BytesToBits(data[..length]), start, bits);
    }

    /**
     * read(uint32_t&, n): fails when fewer than n bits remain, otherwise
     * yields the next n bits.  On failure the caller's variable keeps
     * `prior`.
     */
    method Read32(prior: nat, bits: nat) returns (ok: bool, value: nat)
      requires Valid() && bits <= 32
      modifies this
      ensures Valid()
      ensures ok <==> bits <= old(bitsRemaining)
      ensures ok ==> value == ValueMSB(old(Pending())[..bits]) && Pending() == old(Pending())[bits..]
      ensures !ok ==> value == prior && unchanged(this)
    {
      if bits > bitsRemaining {
        return false, prior;
      }
      value := ReadBits(bits, 32);
      ok := true;
    }

    /** read(uint16_t&, n): also fails when n exceeds 16. */
    method Read16(prior: nat, bits: nat) returns (ok: bool, value: nat)
      requires Valid()
      modifies this
      ensures Valid()
      ensures ok <==> bits <= 16 && bits <= old(bitsRemaining)
      ensures ok ==> value == ValueMSB(old(Pending())[..bits]) && Pending() == old(Pending())[bits..]
      ensures !ok ==> value == prior && unchanged(this)
    {
      if bits > 16 || bits > bitsRemaining {
        return false, prior;
      }
      value := ReadBits(bits, 16);
      ok := true;
    }

    /** read(uint8_t&, n): also fails when n exceeds 8. */
    method Read8(prior: nat, bits: nat) returns (ok: bool, value: nat)
      requires Valid()
      modifies this
      ensures Valid()
      ensures ok <==> bits <= 8 && bits <= old(bitsRemaining)
      ensures ok ==> value == ValueMSB(old(Pending())[..bits]) && Pending() == old(Pending())[bits..]
      ensures !ok ==> value == prior && unchanged(this)
    {
      if bits > 8 || bits > bitsRemaining {
        return false, prior;
      }
      value := ReadBits(bits, 8);
      ok := true;
    }

    /**
     * readBytes(dst, n): only on a byte boundary and when n whole bytes
     * remain; copies the n bytes at the cursor and moves past them.  On
     * failure nothing is copied (the result is empty).
     */
    method ReadBytes(n: nat) returns (ok: bool, bytes: seq<byte>)
      requires Valid()
      modifies this
      ensures Valid()
      ensures ok <==> old(bib) == 8 && 8 * n <= old(bitsRemaining)
      ensures ok ==> bytes == data[old(pos) .. old(pos) + n] && pos == old(pos) + n && bib == 8
      ensures ok ==> BytesToBits(bytes) == old(Pending())[..8 * n] && Pending() == old(Pending())[8 * n..]
      ensures !ok ==> bytes == [] && unchanged(this)
    {
      if bib != 8 || 8 * n > bitsRemaining {
        return false, [];
      }
      bytes := data[pos .. pos + n];
      assert data[..length][pos .. pos + n] == bytes;
      AlignedSlice(data[..length], pos, n);
      bitsRemaining := bitsRemaining - 8 * n;
      pos := pos + n;
      ok := true;
    }

    /** skipBits(n): moves the cursor as a read of n bits would, producing nothing. */
    method SkipBits(bits: nat) returns (ok: bool)
      requires Valid()
      modifies this
      ensures Valid()
      ensures ok <==> bits <= old(bitsRemaining)
      ensures ok ==> Pending() == old(Pending())[bits..]
      ensures !ok ==> unchanged(this)
    {
      if bits > bitsRemaining {
        return false;
      }
      pos, bib := Advance(pos, bib, bits);
      bitsRemaining := bitsRemaining - bits;
      ok := true;
    }

    /** skipBytes(n): only on a byte boundary and when n whole bytes remain. */
    method SkipBytes(n: nat) returns (ok: bool)
      requires Valid()
      modifies this
      ensures Valid()
      ensures ok <==> old(bib) == 8 && 8 * n <= old(bitsRemaining)
      ensures ok ==> pos == old(pos) + n && bib == 8 && Pending() == old(Pending())[8 * n..]
      ensures !ok ==> unchanged(this)
    {
      if bib != 8 || 8 * n > bitsRemaining {
        return false;
      }
      bitsRemaining := bitsRemaining - 8 * n;
      pos := pos + n;
      ok := true;
    }

    /**
     * peekAtCurrentByte(): the byte under the cursor; its low `bib` bits are
     * the next unread bits.
     */
    function PeekAtCurrentByte(): (r: byte)
      reads this, data
      requires Valid() && pos < length
      ensures ByteBits(r)[8 - bib..] == Pending()[..bib]
    {
      BytesToBitsAt(data[..length], pos);
      data[pos]
    }
  }
}
