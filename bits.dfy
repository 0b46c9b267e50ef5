/**
 * Bit-level specification shared by the four stream classes.
 *
 * A byte buffer is read as a sequence of bits, most significant bit of the
 * first byte first (network order).  Fields are written and read as the low
 * `n` bits of an unsigned value, most significant bit first.
 */
module Bits {

  /** An octet, the element type of every buffer. */
  type byte = x: int | 0 <= x < 256

  /** The C++ `uint32_t`. */
  type uint32 = x: int | 0 <= x < 0x1_0000_0000

  const U32: nat := 0x1_0000_0000

  /** The C++ conversion of an integer to `uint32_t`: reduction modulo 2^32. */
  function Wrap32(v: int): uint32
  {
    v % U32
  }

  function Pow2(n: nat): (r: nat)
    ensures r >= 1
  {
    if n == 0 then 1 else 2 * Pow2(n - 1)
  }

  /** The low `n` bits of `v`, most significant first. */
  function BitsMSB(v: nat, n: nat): (r: seq<bool>)
    ensures |r| == n
  {
    if n == 0 then [] else BitsMSB(v / 2, n - 1) + [v % 2 == 1]
  }

  /** The unsigned number whose binary digits, most significant first, are `bits`. */
  function ValueMSB(bits: seq<bool>): (r: nat)
    ensures r < Pow2(|bits|)
  {
    if bits == [] then 0
    else 2 * ValueMSB(bits[..|bits| - 1]) + (if bits[|bits| - 1] then 1 else 0)
  }

  /** `v >> k` on an unbounded unsigned number. */
  function Shr(v: nat, k: nat): nat
  {
    if k == 0 then v else Shr(v / 2, k - 1)
  }

  /** `v & (2^k - 1)`: the low k bits of v. */
  function Low(v: nat, k: nat): (r: nat)
    ensures r < Pow2(k)
  {
    if k == 0 then 0 else 2 * Low(v / 2, k - 1) + v % 2
  }

  /** `v << k` on an unbounded unsigned number (nothing is shifted out). */
  function Shl(v: nat, k: nat): nat
  {
    if k == 0 then v else 2 * Shl(v, k - 1)
  }

  function Zeros(n: nat): seq<bool>
  {
    seq(n, _ => false)
  }

  /** The eight bits of a byte, most significant first. */
  function ByteBits(b: byte): seq<bool>
  {
    BitsMSB(b, 8)
  }

  /** The bit image of a buffer: the bytes in order, each most significant bit first. */
  function BytesToBits(s: seq<byte>): (r: seq<bool>)
    ensures |r| == 8 * |s|
  {
    if s == [] then [] else ByteBits(s[0]) + BytesToBits(s[1..])
  }

  /** Bitwise OR of two unsigned numbers (the C++ `|`). */
  function Or(a: nat, b: nat): nat
    decreases a + b
  {
    if a == 0 then b
    else if b == 0 then a
    else 2 * Or(a / 2, b / 2) + (if a % 2 == 1 || b % 2 == 1 then 1 else 0)
  }

  // ---------------------------------------------------------------------
  // Arithmetic on powers of two
  // ---------------------------------------------------------------------

  lemma {:induction false} Pow2Add(a: nat, b: nat)
    ensures Pow2(a + b) == Pow2(a) * Pow2(b)
  {
    if a > 0 {
      Pow2Add(a - 1, b);
      calc {
        Pow2(a + b);
        2 * Pow2(a - 1 + b);
        2 * (Pow2(a - 1) * Pow2(b));
        (2 * Pow2(a - 1)) * Pow2(b);
        Pow2(a) * Pow2(b);
      }
    }
  }

  lemma {:induction false} Pow2Monotone(a: nat, b: nat)
    requires a <= b
    ensures Pow2(a) <= Pow2(b)
  {
    if a < b {
      Pow2Monotone(a, b - 1);
    }
  }

  lemma {:induction false} Pow2Values()
    ensures Pow2(8) == 256 && Pow2(16) == 0x1_0000 && Pow2(24) == 0x100_0000
    ensures Pow2(32) == U32
  {
    Pow2Add(8, 8);
    Pow2Add(16, 8);
    Pow2Add(16, 16);
  }

  lemma {:induction false} MulAtLeast(a: int, d: int)
    requires a >= 1 && d > 0
    ensures a * d >= d
  {
    if a > 1 {
      MulAtLeast(a - 1, d);
      assert a * d == (a - 1) * d + d;
    }
  }

  /** Quotient and remainder are unique. */
  lemma {:induction false} DivModUnique(v: int, d: int, q: int, r: int)
    requires d > 0 && 0 <= r < d && v == q * d + r
    ensures v / d == q && v % d == r
  {
    var q', r' := v / d, v % d;
    assert v == q' * d + r';
    assert (q' - q) * d == r - r' by {
      assert (q' - q) * d == q' * d - q * d;
    }
    assert (q - q') * d == -((q' - q) * d);
    if q' > q {
      MulAtLeast(q' - q, d);
    } else if q' < q {
      MulAtLeast(q - q', d);
    }
  }

  /** A remainder of a number below the divisor is the number. */
  lemma {:induction false} ModSmall(x: nat, d: nat)
    requires x < d
    ensures x % d == x
  {
    DivModUnique(x, d, 0, x);
  }

  lemma {:induction false} MulRotate(a: int, b: int, c: int)
    ensures a * (b * c) == b * (c * a)
  {
  }

  lemma {:induction false} ModAddMultiple(x: int, p: int, z: int)
    requires p > 0
    ensures (x + p * z) % p == x % p
  {
    assert x == (x / p) * p + x % p;
    assert x + p * z == (x / p + z) * p + x % p;
    DivModUnique(x + p * z, p, x / p + z, x % p);
  }

  lemma {:induction false} DivTwice(v: nat, p: nat)
    requires p > 0
    ensures v / 2 / p == v / (2 * p)
    ensures v % (2 * p) == 2 * (v / 2 % p) + v % 2
  {
    var h := v / 2;
    assert v == 2 * h + v % 2;
    assert h == (h / p) * p + h % p;
    assert v == (h / p) * (2 * p) + (2 * (h % p) + v % 2);
    DivModUnique(v, 2 * p, h / p, 2 * (h % p) + v % 2);
  }

  lemma {:induction false} ShrShr(v: nat, a: nat, b: nat)
    ensures Shr(Shr(v, a), b) == Shr(v, a + b)
  {
    if a > 0 {
      ShrShr(v / 2, a - 1, b);
    }
  }

  /** Shifting left by k is multiplying by 2^k. */
  lemma {:induction false} ShlMul(v: nat, k: nat)
    ensures Shl(v, k) == v * Pow2(k)
  {
    if k > 0 {
      ShlMul(v, k - 1);
    }
  }

  /** Masking with 2^k - 1 is the remainder modulo 2^k. */
  lemma {:induction false} LowMod(v: nat, k: nat)
    ensures Low(v, k) == v % Pow2(k)
  {
    if k > 0 {
      LowMod(v / 2, k - 1);
      DivTwice(v, Pow2(k - 1));
    } else {
      DivModUnique(v, 1, v, 0);
    }
  }

  /** A number that fits in k bits is its own mask. */
  lemma {:induction false} LowSmall(v: nat, k: nat)
    requires v < Pow2(k)
    ensures Low(v, k) == v
  {
    if k > 0 {
      LowSmall(v / 2, k - 1);
    }
  }

  /** Shifting in k zero bits and shifting them out again. */
  lemma {:induction false} ShrShl(v: nat, k: nat)
    ensures Shr(Shl(v, k), k) == v && Low(Shl(v, k), k) == 0
  {
    if k > 0 {
      ShlShift(v, k);
      ShrShl(v, k - 1);
    }
  }

  lemma {:induction false} ShlShift(v: nat, k: nat)
    requires k > 0
    ensures Shl(v, k) == Shl(2 * v, k - 1)
  {
    if k > 1 {
      ShlShift(v, k - 1);
    }
  }

  /** Subtracting a multiple of 2^k, modulo 2^32, keeps the low k bits. */
  lemma {:induction false} SubMultipleMod(x: int, y: int, k: nat)
    requires k <= 32
    ensures ((x - y * Pow2(k)) % U32) % Pow2(k) == x % Pow2(k)
  {
    var p := Pow2(k);
    var m := Pow2(32 - k);
    assert p * m == U32 by {
      Pow2Add(k, 32 - k);
      Pow2Values();
    }
    var z := x - y * p;
    var t := z / U32;
    var w := z % U32;
    assert w == x + p * (-y - m * t) by {
      assert z == t * U32 + w;
      assert t * U32 == t * (p * m);
      MulRotate(t, p, m);
    }
    ModAddMultiple(x, p, -y - m * t);
  }

  /** The same on masks: subtracting `y << k` modulo 2^32 keeps the low k bits. */
  lemma {:induction false} SubShlKeepsLow(x: nat, y: nat, k: nat)
    requires k <= 32
    ensures Low(Wrap32(x - Shl(y, k)), k) == Low(x, k)
  {
    ShlMul(y, k);
    SubMultipleMod(x, y, k);
    LowMod(Wrap32(x - Shl(y, k)), k);
    LowMod(x, k);
  }

  // ---------------------------------------------------------------------
  // Bitwise OR where the operands do not overlap
  // ---------------------------------------------------------------------

  /** OR-ing `b` into the zero low `k` bits of `a << k` is addition. */
  lemma {:induction false} OrIntoZeroBits(a: nat, k: nat, b: nat)
    requires b < Pow2(k)
    ensures Or(Shl(a, k), b) == Shl(a, k) + b
  {
    if k > 0 && Shl(a, k) != 0 && b != 0 {
      OrIntoZeroBits(a, k - 1, b / 2);
    }
  }

  // ---------------------------------------------------------------------
  // BitsMSB and ValueMSB
  // ---------------------------------------------------------------------

  /** The low m + k bits are the m bits above the low k, then the low k. */
  lemma {:induction false} BitsSplit(v: nat, m: nat, k: nat)
    ensures BitsMSB(v, m + k) == BitsMSB(Shr(v, k), m) + BitsMSB(v, k)
  {
    if k > 0 {
      var q := v / 2;
      BitsSplit(q, m, k - 1);
      var last := [v % 2 == 1];
      var mid := BitsMSB(q, k - 1);
      var hi := BitsMSB(Shr(v, k), m);
      assert BitsMSB(v, m + k) == BitsMSB(q, m + k - 1) + last;
      assert (hi + mid) + last == hi + (mid + last);
    }
  }

  /** Only the low n bits of v matter. */
  lemma {:induction false} BitsLow(v: nat, n: nat)
    ensures BitsMSB(Low(v, n), n) == BitsMSB(v, n)
  {
    if n > 0 {
      var w := Low(v, n);
      assert w / 2 == Low(v / 2, n - 1);
      assert w % 2 == v % 2;
      BitsLow(v / 2, n - 1);
    }
  }

  lemma {:induction false} ValueAppend(a: seq<bool>, b: seq<bool>)
    ensures ValueMSB(a + b) == Shl(ValueMSB(a), |b|) + ValueMSB(b)
  {
    if b != [] {
      var ab, b' := a + b, b[..|b| - 1];
      var c := if b[|b| - 1] then 1 else 0;
      assert ab[..|ab| - 1] == a + b';
      assert ab[|ab| - 1] == b[|b| - 1];
      assert ValueMSB(ab) == 2 * ValueMSB(a + b') + c;
      assert ValueMSB(b) == 2 * ValueMSB(b') + c;
      ValueAppend(a, b');
    } else {
      assert a + b == a;
    }
  }

  lemma {:induction false} ValueZeros(n: nat)
    ensures ValueMSB(Zeros(n)) == 0
  {
    if n > 0 {
      assert Zeros(n)[..n - 1] == Zeros(n - 1);
      ValueZeros(n - 1);
    }
  }

  /** Appending k zero bits multiplies the value by 2^k. */
  lemma {:induction false} ValueShift(a: seq<bool>, k: nat)
    ensures ValueMSB(a + Zeros(k)) == Shl(ValueMSB(a), k)
  {
    ValueAppend(a, Zeros(k));
    ValueZeros(k);
  }

  /** Reading back the bits of a field gives the field's low n bits. */
  lemma {:induction false} ValueOfBits(v: nat, n: nat)
    ensures ValueMSB(BitsMSB(v, n)) == Low(v, n)
  {
    if n > 0 {
      var r := BitsMSB(v, n);
      assert r[..n - 1] == BitsMSB(v / 2, n - 1);
      ValueOfBits(v / 2, n - 1);
    }
  }

  /** Writing the value of a bit sequence gives back that bit sequence. */
  lemma {:induction false} BitsOfValue(bits: seq<bool>)
    ensures BitsMSB(ValueMSB(bits), |bits|) == bits
  {
    if bits != [] {
      var n := |bits|;
      var v := ValueMSB(bits);
      BitsOfValue(bits[..n - 1]);
      assert v / 2 == ValueMSB(bits[..n - 1]);
      assert bits == bits[..n - 1] + [bits[n - 1]];
    }
  }

  lemma {:induction false} ByteValue(b: byte)
    ensures ValueMSB(ByteBits(b)) == b
  {
    ValueOfBits(b, 8);
    Pow2Values();
    LowSmall(b, 8);
  }

  // ---------------------------------------------------------------------
  // Bit images of buffers
  // ---------------------------------------------------------------------

  lemma {:induction false} BytesToBitsAppend(a: seq<byte>, b: seq<byte>)
    ensures BytesToBits(a + b) == BytesToBits(a) + BytesToBits(b)
  {
    if a != [] {
      assert (a + b)[1..] == a[1..] + b;
      BytesToBitsAppend(a[1..], b);
    } else {
      assert a + b == b;
    }
  }

  lemma {:induction false} BytesToBitsAt(s: seq<byte>, i: nat)
    requires i < |s|
    ensures BytesToBits(s)[8 * i .. 8 * i + 8] == ByteBits(s[i])
  {
    assert s == s[..i] + s[i..];
    BytesToBitsAppend(s[..i], s[i..]);
    assert s[i..][1..] == s[i + 1..];
    assert BytesToBits(s[i..]) == ByteBits(s[i]) + BytesToBits(s[i + 1..]);
  }

  lemma {:induction false} BytesToBitsPrefix(s: seq<byte>, k: nat)
    requires k <= |s|
    ensures BytesToBits(s[..k]) == BytesToBits(s)[..8 * k]
  {
    assert s == s[..k] + s[k..];
    BytesToBitsAppend(s[..k], s[k..]);
  }

  lemma {:induction false} BytesToBitsUpdate(s: seq<byte>, i: nat, x: byte)
    requires i < |s|
    ensures BytesToBits(s[i := x]) ==
            BytesToBits(s)[..8 * i] + ByteBits(x) + BytesToBits(s)[8 * i + 8..]
  {
    var t := s[i := x];
    assert s == s[..i] + [s[i]] + s[i + 1..];
    assert t == s[..i] + [x] + s[i + 1..];
    BytesToBitsAppend(s[..i] + [s[i]], s[i + 1..]);
    BytesToBitsAppend(s[..i], [s[i]]);
    BytesToBitsAppend(s[..i] + [x], s[i + 1..]);
    BytesToBitsAppend(s[..i], [x]);
    assert BytesToBits([x]) == ByteBits(x) + BytesToBits([]);
    assert BytesToBits([s[i]]) == ByteBits(s[i]) + BytesToBits([]);
  }

  lemma {:induction false} BytesToBitsZero(n: nat)
    ensures BytesToBits(seq(n, _ => 0)) == Zeros(8 * n)
  {
    if n > 0 {
      var s: seq<byte> := seq(n, _ => 0);
      assert s[1..] == seq(n - 1, _ => 0);
      BytesToBitsZero(n - 1);
      assert ByteBits(0) == Zeros(8) by {
        BitsOfValue(Zeros(8));
        ValueZeros(8);
      }
    }
  }

  /** The value of a buffer's bit image is the buffer read as a big-endian number. */
  function BigEndian(s: seq<byte>): nat
  {
    if s == [] then 0 else Shl(BigEndian(s[..|s| - 1]), 8) + s[|s| - 1]
  }

  lemma {:induction false} ValueOfBytes(s: seq<byte>)
    ensures ValueMSB(BytesToBits(s)) == BigEndian(s)
  {
    if s != [] {
      var n := |s|;
      var init, last := s[..n - 1], s[n - 1];
      assert s == init + [last];
      BytesToBitsAppend(init, [last]);
      assert [last][1..] == [];
      assert BytesToBits([last]) == ByteBits(last);
      ValueAppend(BytesToBits(init), ByteBits(last));
      ValueOfBytes(init);
      ByteValue(last);
      assert ValueMSB(BytesToBits(s)) == Shl(BigEndian(init), 8) + last;
    }
  }
}
