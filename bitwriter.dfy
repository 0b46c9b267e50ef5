/**
 * BitWriter: a bit writer over a caller-owned destination region of fixed
 * size.  Fields of 1 to 32 bits are packed most significant bit first; a
 * write that does not fit returns false and changes nothing.  It can also
 * copy whole bytes, either from memory or out of an IBitStream.
 */
module BitWriters {
  import opened Bits
  import opened Cursor
  import opened IBitStreams

  class BitWriter {
    /** The destination region (m_pDestination, m_uiBufferSize bytes); not owned. */
    const dest: array<byte>
    /** The current byte (m_uiCurrentBytePos). */
    var pos: nat
    /** Free bits in the current byte, 1..8 (m_uiBitsLeft). */
    var bitsLeft: nat
    /** The bits written so far, in order. */
    ghost var Bits: seq<bool>

    /**
     * The cursor stands for the number of bits written, and the region
     * holds those bits followed by zeros.
     */
    ghost predicate Valid()
      reads this, dest
    {
      && 8 * dest.Length < U32
      && 1 <= bitsLeft <= 8
      && |Bits| == Offset(pos, bitsLeft)
      && Holds(dest[..], Bits)
    }

    /** The constructor clears the whole region and starts at its first bit. */
    constructor (destination: array<byte>)
      requires 8 * destination.Length < U32
      modifies destination
      ensures Valid() && dest == destination && Bits == []
      ensures pos == 0 && bitsLeft == 8
      ensures dest[..] == seq(dest.Length, _ => 0)
    {
      dest := destination;
      pos := 0;
      bitsLeft := 8;
      Bits := [];
      new;
      forall i | 0 <= i < dest.Length {
        dest[i] := 0;
      }
      assert dest[..] == seq(dest.Length, _ => 0);
      BytesToBitsZero(dest.Length);
    }

    /** reset(): back to the first bit, with the whole region cleared again. */
    method Reset()
      requires Valid()
      modifies this, dest
      ensures Valid() && Bits == []
      ensures pos == 0 && bitsLeft == 8
      ensures dest[..] == seq(dest.Length, _ => 0)
    {
      bitsLeft := 8;
      pos := 0;
      Bits := [];
      forall i | 0 <= i < dest.Length {
        dest[i] := 0;
      }
      assert dest[..] == seq(dest.Length, _ => 0);
      BytesToBitsZero(dest.Length);
    }

    /** totalBitsLeft(): the number of bits that can still be written. */
    function TotalBitsLeft(): (r: nat)
      reads this, dest
      requires Valid()
      ensures r == 8 * dest.Length - |Bits|
      ensures r == 0 <==> |Bits| == 8 * dest.Length
    {
      Cursor.TotalBitsLeft(dest.Length, pos, bitsLeft)
    }

    /** bytesUsed(): the number of bytes touched, i.e. the bits written rounded up to whole bytes. */
    function BytesUsed(): (r: nat)
      reads this, dest
      requires Valid()
      ensures |Bits| <= 8 * r < |Bits| + 8
      ensures r <= dest.Length
    {
      UsedBytes(pos, bitsLeft)
    }

    /**
     * str(): a copy of the bytes used; they hold the bits written, padded
     * with zeros to a whole byte.  Empty exactly when nothing was written.
     */
    function Str(): (r: seq<byte>)
      reads this, dest
      requires Valid()
      ensures |r| == BytesUsed() && Holds(r, Bits)
      ensures r == [] <==> Bits == []
    {
      ImagePrefix(dest[..], Bits, BytesUsed());
      dest[..BytesUsed()]
    }

    /**
     * write(value, n): appends the low n bits of value, most significant
     * first; fails and changes nothing when fewer than n bits are free.
     */
    method Write(value: uint32, bits: nat) returns (ok: bool)
      requires Valid() && bits <= 32
      modifies this, dest
      ensures Valid()
      ensures ok <==> bits <= old(TotalBitsLeft())
      ensures ok ==> Bits == old(Bits) + BitsMSB(value, bits)
      ensures !ok ==> unchanged(this) && unchanged(dest)
    {
      if TotalBitsLeft() < bits {
        return false;
      }
      pos, bitsLeft := Pack(dest, pos, bitsLeft, value, bits, Bits);
      Bits := Bits + BitsMSB(value, bits);
      ok := true;
    }

    /**
     * write8Bits(value): stores the byte directly on a byte boundary and
     * otherwise writes it as an 8-bit field; fails when fewer than 8 bits
     * are free.
     */
    method Write8Bits(value: byte) returns (ok: bool)
      requires Valid()
      modifies this, dest
      ensures Valid()
      ensures ok <==> 8 <= old(TotalBitsLeft())
      ensures ok ==> Bits == old(Bits) + ByteBits(value)
      ensures !ok ==> unchanged(this) && unchanged(dest)
    {
      if TotalBitsLeft() < 8 {
        return false;
      }
      if bitsLeft == 8 {
        StoreByte(dest[..], pos, Bits, value);
        dest[pos] := value;
        pos := pos + 1;
        Bits := Bits + ByteBits(value);
      } else {
        ok := Write(value, 8);
      }
      ok := true;
    }

    /**
     * writeBytes(src, n): on a byte boundary, when the n bytes fit, copies
     * them in and moves past them; otherwise fails and changes nothing.
     */
    method WriteBytes(src: seq<byte>) returns (ok: bool)
      requires Valid()
      modifies this, dest
      ensures Valid()
      ensures ok <==> old(bitsLeft) == 8 && |src| <= dest.Length - old(pos)
      ensures ok ==> Bits == old(Bits) + BytesToBits(src) && pos == old(pos) + |src| && bitsLeft == 8
      ensures !ok ==> unchanged(this) && unchanged(dest)
    {
      if bitsLeft != 8 || dest.Length - pos < |src| {
        return false;
      }
      CopyIn(src);
      ok := true;
    }

    /** The aligned copy shared by writeBytes and the two bulk transfers. */
    method CopyIn(src: seq<byte>)
      requires Valid() && bitsLeft == 8 && pos + |src| <= dest.Length
      modifies this, dest
      ensures Valid()
      ensures Bits == old(Bits) + BytesToBits(src) && pos == old(pos) + |src| && bitsLeft == 8
    {
      ghost var before := dest[..];
      forall i | 0 <= i < |src| {
        dest[pos + i] := src[i];
      }
      Splice(before, dest[..], pos, src);
      CopyBlock(before, pos, Bits, src);
      pos := pos + |src|;
      Bits := Bits + BytesToBits(src);
    }

    /**
     * write(in): moves every byte left in `in` to this writer.  Both must be
     * on a byte boundary and the bytes must fit; otherwise nothing changes
     * on either side.
     */
    method WriteStream(input: IBitStream) returns (ok: bool)
      requires Valid() && input.Valid()
      modifies this, dest, input
      ensures Valid() && input.Valid()
      ensures ok <==> old(bitsLeft) == 8 && old(input.bitsRemaining) % 8 == 0
                      && old(input.bitsRemaining) / 8 <= dest.Length - old(pos)
      ensures ok ==> Bits == old(Bits) + old(input.Pending()) && input.Pending() == []
      ensures ok ==> pos == old(pos) + old(input.bitsRemaining) / 8 && bitsLeft == 8
      ensures !ok ==> unchanged(this) && unchanged(dest) && unchanged(input)
    {
      if bitsLeft != 8 {
        return false;
      }
      if input.GetBitsRemaining() % 8 != 0 {
        return false;
      }
      var bytesLeft := dest.Length - pos;
      var n := input.GetBytesRemaining();
      if n > bytesLeft {
        return false;
      }
      ok := Transfer(input, n);
    }

    /**
     * write(in, n): moves the next n bytes of `in` to this writer, under
     * the same conditions plus that `in` has n bytes left.
     */
    method WriteStreamBytes(input: IBitStream, n: nat) returns (ok: bool)
      requires Valid() && input.Valid()
      modifies this, dest, input
      ensures Valid() && input.Valid()
      ensures ok <==> old(bitsLeft) == 8 && old(input.bitsRemaining) % 8 == 0
                      && n <= old(input.bitsRemaining) / 8 && n <= dest.Length - old(pos)
      ensures ok ==> Bits == old(Bits) + old(input.Pending())[..8 * n] && input.Pending() == old(input.Pending())[8 * n..]
      ensures ok ==> pos == old(pos) + n && bitsLeft == 8
      ensures !ok ==> unchanged(this) && unchanged(dest) && unchanged(input)
    {
      if bitsLeft != 8 {
        return false;
      }
      if input.GetBitsRemaining() % 8 != 0 {
        return false;
      }
      if input.GetBytesRemaining() < n {
        return false;
      }
      var bytesLeft := dest.Length - pos;
      if n > bytesLeft {
        return false;
      }
      ok := Transfer(input, n);
    }

    /** The body shared by both bulk transfers, once every check has passed. */
    method Transfer(input: IBitStream, n: nat) returns (ok: bool)
      requires Valid() && input.Valid() && bitsLeft == 8
      requires input.bitsRemaining % 8 == 0 && 8 * n <= input.bitsRemaining && pos + n <= dest.Length
      modifies this, dest, input
      ensures Valid() && input.Valid() && ok
      ensures Bits == old(Bits) + old(input.Pending())[..8 * n] && input.Pending() == old(input.Pending())[8 * n..]
      ensures pos == old(pos) + n && bitsLeft == 8
    {
      // a remaining count that is a multiple of 8 puts the reader on a byte boundary
      OnByteBoundary(|input.data|, input.pos, input.bib);
      var bytes;
      ok, bytes := input.ReadBytes(n);
      CopyIn(bytes);
    }
  }
}
