/**
 * The laws the bit codec is used for: writing a sequence of (value, width)
 * fields with OBitStream and reading the same widths back with IBitStream
 * returns every value modulo 2^width (the RTP header round trip), the byte
 * counts and contents the writer reports for concrete field sequences, and
 * the agreement of BitReader with IBitStream over the same bytes.
 */
module Codec {
  import opened Bits
  import opened Cursor
  import opened OBitStreams
  import opened IBitStreams
  import opened BitReaders

  /** One field to write: a value and its width in bits. */
  datatype FieldSpec = FieldSpec(value: uint32, width: nat)

  /** Every width is one the writers accept. */
  predicate WellFormed(fields: seq<FieldSpec>)
  {
    forall i :: 0 <= i < |fields| ==> fields[i].width <= 32
  }

  /** The sum of the widths. */
  function TotalWidth(fields: seq<FieldSpec>): nat
  {
    if fields == [] then 0 else TotalWidth(fields[..|fields| - 1]) + fields[|fields| - 1].width
  }

  /** The bits a writer holds after writing the fields in order. */
  function Encoding(fields: seq<FieldSpec>): (r: seq<bool>)
    ensures |r| == TotalWidth(fields)
  {
    if fields == [] then []
    else
      var last := fields[|fields| - 1];
      Encoding(fields[..|fields| - 1]) + BitsMSB(last.value, last.width)
  }

  /** Encoding two runs of fields one after the other. */
  lemma {:induction false} EncodingAppend(a: seq<FieldSpec>, b: seq<FieldSpec>)
    ensures Encoding(a + b) == Encoding(a) + Encoding(b)
    decreases |b|
  {
    if b == [] {
      assert a + b == a;
    } else {
      var c := b[..|b| - 1];
      var last := b[|b| - 1];
      assert (a + b)[..|a + b| - 1] == a + c;
      EncodingAppend(a, c);
      assert Encoding(a + b) == Encoding(a + c) + BitsMSB(last.value, last.width);
    }
  }

  /** The first field's bits come first. */
  lemma {:induction false} EncodingFront(fields: seq<FieldSpec>)
    requires fields != []
    ensures Encoding(fields) == BitsMSB(fields[0].value, fields[0].width) + Encoding(fields[1..])
  {
    assert fields == [fields[0]] + fields[1..];
    EncodingAppend([fields[0]], fields[1..]);
    assert [fields[0]][..0] == [];
  }

  /** The fields before position i take no more bits than all of them. */
  lemma {:induction false} PrefixWidth(fields: seq<FieldSpec>, i: nat)
    requires i < |fields|
    ensures TotalWidth(fields[..i]) + fields[i].width <= TotalWidth(fields)
  {
    assert fields == fields[..i + 1] + fields[i + 1..];
    EncodingAppend(fields[..i + 1], fields[i + 1..]);
    assert fields[..i + 1][..i] == fields[..i];
  }

  /** Reading the next field's width off the unread bits leaves the later fields. */
  lemma {:induction false} PendingStep(fields: seq<FieldSpec>, j: nat, pad: nat)
    requires j < |fields|
    ensures var w := fields[j].width;
            && w <= |Encoding(fields[j..]) + Zeros(pad)|
            && (Encoding(fields[j..]) + Zeros(pad))[..w] == BitsMSB(fields[j].value, w)
            && (Encoding(fields[j..]) + Zeros(pad))[w..] == Encoding(fields[j + 1..]) + Zeros(pad)
  {
    EncodingFront(fields[j..]);
    assert fields[j..][1..] == fields[j + 1..];
  }

  /**
   * Writes the fields in order into a new OBitStream of `size` bytes and
   * returns its str().  The stream grows whenever a field does not fit;
   * each growth leaves it shorter, in bytes, than the bits written, so
   * its size stays a uint32 for any initial size and fields whose sum
   * does.
   */
  method Encode(fields: seq<FieldSpec>, size: nat) returns (out: seq<byte>)
    requires WellFormed(fields) && 1 <= size && 8 * (size + TotalWidth(fields)) < U32
    ensures Holds(out, Encoding(fields))
    ensures TotalWidth(fields) <= 8 * |out| < TotalWidth(fields) + 8
  {
    var ob := new OBitStream(size);
    var i := 0;
    while i < |fields|
      invariant 0 <= i <= |fields| && ob.Valid() && fresh(ob) && fresh(ob.buf)
      invariant ob.buf.Length <= size + TotalWidth(fields[..i]) && ob.Bits == Encoding(fields[..i])
    {
      PrefixWidth(fields, i);
      TotalWidthStep(fields, i);
      assert fields[..i + 1][..i] == fields[..i];
      if ob.TotalBitsLeft() < fields[i].width {
        GrowthBound(ob.buf.Length, |ob.Bits|, fields[i].width);
      }
      ob.Write(fields[i].value, fields[i].width);
      i := i + 1;
    }
    assert fields[..i] == fields;
    out := ob.Str();
  }

  /**
   * The round trip: encode the fields with an OBitStream of `size` bytes
   * (growing as needed), open an IBitStream on the bytes and read the same
   * widths back.  Every read succeeds (`allRead`) and returns the value
   * modulo 2^width.
   */
  method RoundTrip(fields: seq<FieldSpec>, size: nat) returns (values: seq<nat>, allRead: bool)
    requires WellFormed(fields) && 1 <= size && 8 * (size + TotalWidth(fields)) < U32
    ensures allRead && |values| == |fields|
    ensures forall i :: 0 <= i < |fields| ==> values[i] == fields[i].value % Pow2(fields[i].width)
  {
    var bytes := Encode(fields, size);
    var ib := new IBitStream(bytes);
    ghost var pad := 8 * |bytes| - TotalWidth(fields);
    values, allRead := [], true;
    var j := 0;
    while j < |fields|
      invariant 0 <= j <= |fields| && |values| == j && ib.Valid() && allRead
      invariant ib.Pending() == Encoding(fields[j..]) + Zeros(pad)
      invariant forall i :: 0 <= i < j ==> values[i] == fields[i].value % Pow2(fields[i].width)
    {
      var f := fields[j];
      PendingStep(fields, j, pad);
      var ok, v := ib.Read32(0xFFFF_FFFF, f.width);
      allRead := allRead && ok;
      assert v == ValueMSB(BitsMSB(f.value, f.width));
      assert v == f.value % Pow2(f.width) by {
        ValueOfBits(f.value, f.width);
        LowMod(f.value, f.width);
      }
      values := values + [v];
      j := j + 1;
    }
  }

  // ---------------------------------------------------------------------
  // The concrete scenarios of the unit tests
  // ---------------------------------------------------------------------

  /** The first 8 bytes of the RTP fixed header (section 5.1 of RFC 3550) as fields. */
  function RtpFields(): (r: seq<FieldSpec>)
    ensures WellFormed(r) && |r| == 8
  {
    [FieldSpec(2, 2), FieldSpec(0, 1), FieldSpec(0, 1), FieldSpec(0, 4),
     FieldSpec(1, 1), FieldSpec(96, 7), FieldSpec(257, 16), FieldSpec(123456789, 32)]
  }

  /** One more field adds its width. */
  lemma {:induction false} TotalWidthStep(fields: seq<FieldSpec>, k: nat)
    requires k < |fields|
    ensures TotalWidth(fields[..k + 1]) == TotalWidth(fields[..k]) + fields[k].width
  {
    assert fields[..k + 1][..k] == fields[..k];
  }

  /** The header fields take 64 bits. */
  lemma {:induction false} RtpWidth()
    ensures TotalWidth(RtpFields()) == 64
  {
    var f := RtpFields();
    assert f[..0] == [];
    TotalWidthStep(f, 0);
    TotalWidthStep(f, 1);
    TotalWidthStep(f, 2);
    TotalWidthStep(f, 3);
    TotalWidthStep(f, 4);
    TotalWidthStep(f, 5);
    TotalWidthStep(f, 6);
    TotalWidthStep(f, 7);
    assert f[..8] == f;
  }

  /**
   * The header written into a 12-byte OBitStream and read back with
   * IBitStream yields every field unchanged: version 2, padding 0,
   * extension 0, CSRC count 0, marker 1, payload type 96, sequence number
   * 257 and timestamp 123456789.
   */
  method RtpHeaderRoundTrip() returns (values: seq<nat>, allRead: bool)
    ensures allRead && values == [2, 0, 0, 0, 1, 96, 257, 123456789]
  {
    RtpWidth();
    values, allRead := RoundTrip(RtpFields(), 12);
    Pow2Values();
    assert Pow2(1) == 2 && Pow2(2) == 4 && Pow2(4) == 16 && Pow2(7) == 128;
    assert values[0] == 2 % 4 && values[5] == 96 % 128 && values[6] == 257 % Pow2(16);
  }

  /**
   * bytesUsed() and the size of str() after each write of the header
   * widths 2, 1, 1, 4, 1, 7, 16 and 32 into a 12-byte OBitStream; the
   * counts do not depend on the values written.
   */
  method BufferUsage(values: seq<uint32>) returns (used: seq<nat>, sizes: seq<nat>)
    requires |values| == 8
    ensures used == [1, 1, 1, 1, 2, 2, 4, 8] && sizes == used
  {
    var ob := new OBitStream(12);
    var widths := [2, 1, 1, 4, 1, 7, 16, 32];
    used, sizes := [], [];
    var i := 0;
    while i < 8
      invariant 0 <= i <= 8 && ob.Valid() && fresh(ob) && fresh(ob.buf) && ob.buf.Length == 12
      invariant |ob.Bits| == [0, 2, 3, 4, 8, 9, 16, 32, 64][i]
      invariant used == [1, 1, 1, 1, 2, 2, 4, 8][..i] && sizes == used
    {
      var u, n := WriteCounted(ob, values[i], widths[i]);
      used, sizes := used + [u], sizes + [n];
      i := i + 1;
    }
  }

  /** Writes one field that fits and reports bytesUsed() and the size of str() afterwards. */
  method WriteCounted(ob: OBitStream, value: uint32, width: nat) returns (used: nat, size: nat)
    requires ob.Valid() && width <= 32 && width <= ob.TotalBitsLeft()
    modifies ob, ob.buf
    ensures ob.Valid() && ob.buf == old(ob.buf) && ob.Bits == old(ob.Bits) + BitsMSB(value, width)
    ensures size == used && 8 * used - 8 < |ob.Bits| <= 8 * used
  {
    ob.Write(value, width);
    used := ob.BytesUsed();
    size := |ob.Str()|;
  }

  /** The value of a 3-byte buffer read most significant byte first. */
  lemma {:induction false} BigEndianThree(s: seq<byte>)
    requires |s| == 3
    ensures BigEndian(s) == 65536 * (s[0] as int) + 256 * (s[1] as int) + s[2] as int
  {
    var a: nat, b: nat, c: nat := s[0], s[1], s[2];
    Pow2Values();
    assert BigEndian(s[..1]) == a by {
      assert s[..1][..0] == [];
      ShlMul(0, 8);
    }
    assert BigEndian(s[..2]) == 256 * a + b by {
      assert s[..2][..1] == s[..1];
      ShlMul(a, 8);
    }
    assert s[..3] == s;
    ShlMul(256 * a + b, 8);
  }

  /** 2^22, the weight of the first field when a 2-bit field precedes a 22-bit one. */
  lemma {:induction false} Pow2TwentyTwo()
    ensures Pow2(22) == 4194304
  {
    Pow2Add(16, 6);
    Pow2Values();
  }

  /** A 2-bit field followed by a 22-bit field, read back as one 24-bit number. */
  lemma {:induction false} TwoFieldValue(x: nat, y: nat)
    requires x < 4 && y < 4194304
    ensures ValueMSB(BitsMSB(x, 2) + BitsMSB(y, 22)) == x * 4194304 + y
  {
    var a, b := BitsMSB(x, 2), BitsMSB(y, 22);
    Pow2TwentyTwo();
    ValueAppend(a, b);
    ValueOfBits(x, 2);
    ValueOfBits(y, 22);
    LowSmall(x, 2);
    LowSmall(y, 22);
    ShlMul(x, 22);
  }

  /** The only three bytes worth 0x555555 read most significant first. */
  lemma {:induction false} ThreeFives(a: int, b: int, c: int)
    requires 0 <= a < 256 && 0 <= b < 256 && 0 <= c < 256
    requires 65536 * a + 256 * b + c == 0x555555
    ensures a == 0x55 && b == 0x55 && c == 0x55
  {
    DivModUnique(0x555555, 256, 256 * a + b, c);
    DivModUnique(0x5555, 256, a, b);
  }

  /**
   * Three bytes whose bits are 1 in 2 bits followed by 1398101 in 22 bits
   * are 0x55, 0x55, 0x55.
   */
  lemma {:induction false} AlternatingBytes(bytes: seq<byte>, written: seq<bool>, x: nat, y: nat)
    requires x == 1 && y == 1398101 && written == BitsMSB(x, 2) + BitsMSB(y, 22)
    requires Holds(bytes, written) && 8 * |bytes| < |written| + 8
    ensures bytes == [0x55, 0x55, 0x55]
  {
    assert |bytes| == 3 && BytesToBits(bytes) == written by {
      assert Zeros(0) == [];
    }
    ValueOfBytes(bytes);
    TwoFieldValue(x, y);
    BigEndianThree(bytes);
    ThreeFives(bytes[0], bytes[1], bytes[2]);
  }

  /**
   * Writing 1 in 2 bits and then 1398101 in 22 bits gives 1 and then 3
   * bytes used, all of them 0x55 (the bit pattern 01 repeated).
   */
  method AlternatingBits() returns (afterFirst: nat, afterSecond: nat, bytes: seq<byte>)
    ensures afterFirst == 1 && afterSecond == 3
    ensures bytes == [0x55, 0x55, 0x55]
  {
    var x: uint32, y: uint32 := 1, 1398101;
    var ob := new OBitStream(12);
    var size;
    afterFirst, size := WriteCounted(ob, x, 2);
    afterSecond, size := WriteCounted(ob, y, 22);
    bytes := ob.Str();
    AlternatingBytes(bytes, ob.Bits, x, y);
  }

  /**
   * With writeBytes corrected to advance the cursor, a byte written into a
   * fresh 12-byte stream shows up in str().
   */
  method WriteBytesShows() returns (ok: bool, bytes: seq<byte>)
    ensures ok && bytes == [0xAB]
  {
    var x: byte := 0xAB;
    var ob := new OBitStream(12);
    ok := ob.WriteBytes([x]);
    bytes := ob.Str();
    assert 8 * |bytes| - |ob.Bits| == 0;
    SameByte(bytes, x);
  }

  /** A one-byte buffer whose bits are those of x holds x. */
  lemma {:induction false} SameByte(bytes: seq<byte>, x: byte)
    requires |bytes| == 1 && BytesToBits(bytes) == BytesToBits([x])
    ensures bytes == [x]
  {
    BytesToBitsAt(bytes, 0);
    BytesToBitsAt([x], 0);
    ByteValue(bytes[0]);
    ByteValue(x);
  }

  // ---------------------------------------------------------------------
  // BitReader and IBitStream agree
  // ---------------------------------------------------------------------

  /** A reader call: read(value, n) into a 32-bit output, or skipBits(n). */
  datatype ReadOp = ReadField(width: nat) | Skip(bits: nat)

  /**
   * Runs the same calls on an IBitStream over `bytes` and on a BitReader
   * over a copy of them; both report the same success flags and values.
   */
  method ReadersAgree(bytes: seq<byte>, ops: seq<ReadOp>) returns (fromStream: seq<(bool, nat)>, fromReader: seq<(bool, nat)>)
    requires 8 * |bytes| < U32
    requires forall i :: 0 <= i < |ops| ==> ops[i].ReadField? ==> ops[i].width <= 32
    ensures |fromStream| == |ops| && fromStream == fromReader
  {
    var ib, br := OpenBoth(bytes);
    fromStream, fromReader := [], [];
    var i := 0;
    while i < |ops|
      invariant 0 <= i <= |ops| && ib.Valid() && br.Valid() && fresh(ib) && fresh(br)
      invariant ib.Pending() == br.Pending()
      invariant |fromStream| == i && fromStream == fromReader
    {
      var r1, r2 := Step(ib, br, ops[i]);
      fromStream, fromReader := fromStream + [r1], fromReader + [r2];
      i := i + 1;
    }
  }

  /** An IBitStream over `bytes` and a BitReader over a copy of them. */
  method OpenBoth(bytes: seq<byte>) returns (ib: IBitStream, br: BitReader)
    requires 8 * |bytes| < U32
    ensures fresh(ib) && fresh(br) && ib.Valid() && br.Valid()
    ensures ib.Pending() == br.Pending() == BytesToBits(bytes)
  {
    ib := new IBitStream(bytes);
    var copy := new byte[|bytes|](i requires 0 <= i < |bytes| => bytes[i]);
    assert copy[..|bytes|] == bytes;
    br := new BitReader(copy, |bytes|);
  }

  /** One call made on both readers, which hold the same unread bits. */
  method Step(ib: IBitStream, br: BitReader, op: ReadOp) returns (r1: (bool, nat), r2: (bool, nat))
    requires ib.Valid() && br.Valid() && ib.Pending() == br.Pending()
    requires op.ReadField? ==> op.width <= 32
    modifies ib, br
    ensures ib.Valid() && br.Valid() && ib.Pending() == br.Pending()
    ensures r1 == r2
  {
    match op {
      case ReadField(width) =>
        var ok1, v1 := ib.Read32(0, width);
        var ok2, v2 := br.Read32(0, width);
        r1, r2 := (ok1, v1), (ok2, v2);
      case Skip(bits) =>
        var ok1 := ib.SkipBits(bits);
        var ok2 := br.SkipBits(bits);
        r1, r2 := (ok1, 0), (ok2, 0);
    }
  }
}
