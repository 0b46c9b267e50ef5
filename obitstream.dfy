/**
 * OBitStream: a bit writer that owns its buffer and grows it on demand, so
 * that writing a field never fails.  Fields of 1 to 32 bits are packed most
 * significant bit first, exactly as BitWriter does.
 */
module OBitStreams {
  import opened Bits
  import opened Cursor

  /** DEFAULT_BUFFER_SIZE. */
  const DefaultBufferSize: nat := 1024

  /** The size `write` grows to: max(2 * size, 2 * (size + n / 8)). */
  function GrownSize(size: nat, bits: nat): (r: nat)
    ensures r >= 2 * size && r >= 2 * (size + bits / 8)
    ensures r == 2 * size || r == 2 * (size + bits / 8)
  {
    var bytes := bits / 8;
    if 2 * size >= 2 * (size + bytes) then 2 * size else 2 * (size + bytes)
  }

  /**
   * For a non-empty buffer, growing to GrownSize always leaves room for
   * the field: at least n bits are free afterwards, whatever was written.
   */
  lemma {:induction false} GrowthSuffices(size: nat, used: nat, bits: nat)
    requires size >= 1 && used <= 8 * size
    ensures bits <= 8 * GrownSize(size, bits) - used
  {
    var q := bits / 8;
    assert bits < 8 * q + 8;
    assert 8 * GrownSize(size, bits) - used >= 16 * size + 16 * q - 8 * size;
    assert 16 * size + 16 * q - 8 * size >= 8 + 16 * q;
  }

  /**
   * When the next field does not fit, the grown buffer holds fewer bytes
   * than a quarter of the bits written plus half the field's width: growth
   * never outpaces the data.
   */
  lemma {:induction false} GrowthBound(size: nat, used: nat, bits: nat)
    requires 8 * size < used + bits
    ensures 4 * GrownSize(size, bits) < used + 2 * bits
  {
    var q := bits / 8;
    assert 8 * q <= bits;
  }

  class OBitStream {
    /** The owned buffer (m_buffer, m_uiBufferSize bytes); replaced when it grows. */
    var buf: array<byte>
    /** The current byte (m_uiCurrentBytePos). */
    var pos: nat
    /** Free bits in the current byte, 1..8 (m_uiBitsLeft). */
    var bitsLeft: nat
    /** The bits written so far, in order. */
    ghost var Bits: seq<bool>

    /**
     * The buffer is not empty, the cursor stands for the number of bits
     * written, and the buffer holds those bits followed by zeros.
     */
    ghost predicate Valid()
      reads this, buf
    {
      && 1 <= buf.Length && 8 * buf.Length < U32
      && 1 <= bitsLeft <= 8
      && |Bits| == Offset(pos, bitsLeft)
      && Holds(buf[..], Bits)
    }

    /** OBitStream(size): a cleared buffer of `size` bytes, nothing written. */
    constructor (size: nat := DefaultBufferSize)
      requires 1 <= size && 8 * size < U32
      ensures Valid() && fresh(buf) && buf.Length == size && Bits == []
      ensures pos == 0 && bitsLeft == 8
      ensures buf[..] == seq(size, _ => 0)
    {
      buf := new byte[size](_ => 0);
      pos := 0;
      bitsLeft := 8;
      Bits := [];
      new;
      assert buf[..] == seq(size, _ => 0);
      BytesToBitsZero(size);
    }

    /** OBitStream(buffer): writes into the given buffer, which is cleared first. */
    constructor FromBuffer(buffer: array<byte>)
      requires 1 <= buffer.Length && 8 * buffer.Length < U32
      modifies buffer
      ensures Valid() && buf == buffer && Bits == []
      ensures pos == 0 && bitsLeft == 8
      ensures buf[..] == seq(buf.Length, _ => 0)
    {
      buf := buffer;
      pos := 0;
      bitsLeft := 8;
      Bits := [];
      new;
      forall i | 0 <= i < buf.Length {
        buf[i] := 0;
      }
      assert buf[..] == seq(buf.Length, _ => 0);
      BytesToBitsZero(buf.Length);
    }

    /** totalBitsLeft(): the number of bits that can be written without growing. */
    function TotalBitsLeft(): (r: nat)
      reads this, buf
      requires Valid()
      ensures r == 8 * buf.Length - |Bits|
    {
      Cursor.TotalBitsLeft(buf.Length, pos, bitsLeft)
    }

    /** bytesUsed(): the bits written rounded up to whole bytes. */
    function BytesUsed(): (r: nat)
      reads this, buf
      requires Valid()
      ensures |Bits| <= 8 * r < |Bits| + 8
      ensures r <= buf.Length
    {
      UsedBytes(pos, bitsLeft)
    }

    /**
     * str(): a copy of the bytes used; they hold the bits written, padded
     * with zeros to a whole byte.  Empty exactly when nothing was written.
     */
    function Str(): (r: seq<byte>)
      reads this, buf
      requires Valid()
      ensures |r| == BytesUsed() && Holds(r, Bits)
      ensures r == [] <==> Bits == []
    {
      ImagePrefix(buf[..], Bits, BytesUsed());
      buf[..BytesUsed()]
    }

    /**
     * increaseBufferSize(newSize): a new cleared buffer of newSize bytes
     * that starts with the old buffer's bytes.
     */
    method IncreaseBufferSize(newSize: nat)
      requires Valid() && buf.Length <= newSize && 8 * newSize < U32
      modifies this
      ensures Valid() && fresh(buf) && buf.Length == newSize
      ensures buf[..] == old(buf[..]) + seq(newSize - old(buf.Length), _ => 0)
      ensures Bits == old(Bits) && pos == old(pos) && bitsLeft == old(bitsLeft)
    {
      ghost var before := buf[..];
      GrowImage(before, Bits, newSize - buf.Length);
      var grown := new byte[newSize](_ => 0);
      forall i | 0 <= i < buf.Length {
        grown[i] := buf[i];
      }
      assert grown[..] == before + seq(newSize - buf.Length, _ => 0);
      buf := grown;
    }

    /**
     * write(value, n): appends the low n bits of value, most significant
     * first.  When fewer than n bits are free the buffer first grows to
     * GrownSize, which always makes room.
     */
    method Write(value: uint32, bits: nat)
      requires Valid() && bits <= 32
      requires TotalBitsLeft() < bits ==> 8 * GrownSize(buf.Length, bits) < U32
      modifies this, buf
      ensures Valid() && Bits == old(Bits) + BitsMSB(value, bits)
      ensures if old(TotalBitsLeft()) < bits then fresh(buf) && buf.Length == GrownSize(old(buf.Length), bits)
              else buf == old(buf)
    {
      if TotalBitsLeft() < bits {
        var newSize := GrownSize(buf.Length, bits);
        GrowthSuffices(buf.Length, |Bits|, bits);
        IncreaseBufferSize(newSize);
      }
      pos, bitsLeft := Pack(buf, pos, bitsLeft, value, bits, Bits);
      Bits := Bits + BitsMSB(value, bits);
    }

    /**
     * write8Bits(value): doubles the buffer when fewer than 8 bits are free,
     * then stores the byte directly on a byte boundary and otherwise writes
     * it as an 8-bit field.
     */
    method Write8Bits(value: byte)
      requires Valid()
      requires TotalBitsLeft() < 8 ==> 16 * buf.Length < U32
      modifies this, buf
      ensures Valid() && Bits == old(Bits) + ByteBits(value)
      ensures if old(TotalBitsLeft()) < 8 then fresh(buf) && buf.Length == 2 * old(buf.Length)
              else buf == old(buf)
    {
      if TotalBitsLeft() < 8 {
        IncreaseBufferSize(2 * buf.Length);
      }
      if bitsLeft == 8 {
        StoreByte(buf[..], pos, Bits, value);
        buf[pos] := value;
        pos := pos + 1;
        Bits := Bits + ByteBits(value);
      } else {
        Write(value, 8);
      }
    }

    /**
     * writeBytes(src, n), as corrected: on a byte boundary, when the n bytes
     * fit without growing, copies them in and moves past them; otherwise
     * fails and changes nothing.
     */
    method WriteBytes(src: seq<byte>) returns (ok: bool)
      requires Valid()
      modifies this, buf
      ensures Valid() && buf == old(buf)
      ensures ok <==> old(bitsLeft) == 8 && |src| <= buf.Length - old(pos)
      ensures ok ==> Bits == old(Bits) + BytesToBits(src) && pos == old(pos) + |src| && bitsLeft == 8
      ensures !ok ==> unchanged(this) && unchanged(buf)
    {
      if bitsLeft != 8 || buf.Length - pos < |src| {
        return false;
      }
      ghost var before := buf[..];
      forall i | 0 <= i < |src| {
        buf[pos + i] := src[i];
      }
      Splice(before, buf[..], pos, src);
      CopyBlock(before, pos, Bits, src);
      pos := pos + |src|;
      Bits := Bits + BytesToBits(src);
      ok := true;
    }
  }

  // ---------------------------------------------------------------------
  // writeBytes as the source has it
  // ---------------------------------------------------------------------

  /** A writer's state as plain values: its buffer and its cursor. */
  datatype Sink = Sink(buffer: seq<byte>, pos: nat, bitsLeft: nat)

  /** The cursor is well formed and lies inside the buffer. */
  predicate SinkValid(st: Sink)
  {
    1 <= st.bitsLeft <= 8 && Offset(st.pos, st.bitsLeft) <= 8 * |st.buffer|
  }

  /** str() of a writer in state `st`: its first bytesUsed() bytes. */
  function SinkStr(st: Sink): (r: seq<byte>)
    requires SinkValid(st)
    ensures Offset(st.pos, st.bitsLeft) <= 8 * |r| < Offset(st.pos, st.bitsLeft) + 8
  {
    st.buffer[..UsedBytes(st.pos, st.bitsLeft)]
  }

  /**
   * OBitStream::writeBytes as written: the bytes are copied in at the
   * cursor, but the cursor is left where it was (BitWriter::writeBytes
   * advances it).
   */
  function WriteBytesAsWritten(st: Sink, src: seq<byte>): (r: (bool, Sink))
    requires SinkValid(st)
    ensures r.0 <==> st.bitsLeft == 8 && |src| <= |st.buffer| - st.pos
    ensures r.0 ==> r.1.pos == st.pos && r.1.bitsLeft == st.bitsLeft && |r.1.buffer| == |st.buffer|
    ensures r.0 ==> r.1.buffer[st.pos .. st.pos + |src|] == src
    ensures r.0 ==> r.1.buffer[..st.pos] == st.buffer[..st.pos]
    ensures r.0 ==> r.1.buffer[st.pos + |src|..] == st.buffer[st.pos + |src|..]
    ensures !r.0 ==> r.1 == st
  {
    if st.bitsLeft != 8 || |st.buffer| - st.pos < |src| then (false, st)
    else
      var b := st.buffer[..st.pos] + src + st.buffer[st.pos + |src|..];
      assert b[st.pos .. st.pos + |src|] == src;
      assert b[..st.pos] == st.buffer[..st.pos];
      assert b[st.pos + |src|..] == st.buffer[st.pos + |src|..];
      (true, st.(buffer := b))
  }

  /**
   * On a fresh 12-byte stream, writeBytes of one byte reports success, yet
   * str() is still empty: the byte is not counted as written, and the next
   * write would OR into it.
   */
  lemma {:induction false} WriteBytesLosesBytes()
    ensures var r := WriteBytesAsWritten(Sink(seq(12, _ => 0), 0, 8), [0xAB]);
            r.0 && SinkStr(r.1) == [] && r.1.buffer[0] == 0xAB
  {
    var r := WriteBytesAsWritten(Sink(seq(12, _ => 0), 0, 8), [0xAB]);
    assert r.1.buffer[0 .. 1] == [0xAB];
  }
}
