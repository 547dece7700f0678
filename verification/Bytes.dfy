/** Bytes, bits inside bytes, bitmaps of bytes, and little-endian 16- and 32-bit words.

    A byte is an integer 0..255.  The kernel's `b & (1 << i)`, `b |= 1 << i` and `b &= ~(1 << i)`
    act on one binary digit; here they are written as arithmetic on that digit. */
module Bytes {

  type byte = b: int | 0 <= b < 0x100
  type u16 = w: int | 0 <= w < 0x1_0000
  type u32 = w: int | 0 <= w < 0x1_0000_0000

  // ----- one bit of a number

  function Pow2(k: nat): (p: nat)
    ensures p >= 1
  {
    if k == 0 then 1 else 2 * Pow2(k - 1)
  }

  /** `b & (1 << i)` is non-zero. */
  predicate Bit(b: nat, i: nat)
    decreases i
  {
    if i == 0 then b % 2 == 1 else Bit(b / 2, i - 1)
  }

  /** Bit `i` is the binary digit of weight 2^i. */
  lemma {:induction false} BitIsDigit(b: nat, i: nat)
    ensures Bit(b, i) <==> b / Pow2(i) % 2 == 1
    decreases i
  {
    if i > 0 {
      BitIsDigit(b / 2, i - 1);
      DivTwice(b, Pow2(i - 1));
    }
  }

  lemma DivTwice(b: nat, p: nat)
    requires p > 0
    ensures b / 2 / p == b / (2 * p)
  {
    var q, r := b / 2 / p, b / 2 % p;
    assert b == 2 * (q * p + r) + b % 2;
    assert b == q * (2 * p) + (2 * r + b % 2);
    QuotientIs(b, 2 * p, q, 2 * r + b % 2);
  }

  lemma QuotientIs(x: nat, m: nat, q: nat, r: nat)
    requires x == q * m + r && r < m
    ensures x / m == q
  {
    var d := x / m - q;
    assert d * m == r - x % m;
    assert d >= 1 ==> d * m >= m;
    assert d <= -1 ==> d * m + m <= 0;
  }

  /** `b | (1 << i)` */
  function SetBit(b: nat, i: nat): (r: nat)
    decreases i
    ensures forall j: nat :: Bit(r, j) <==> j == i || Bit(b, j)
  {
    if i == 0 then
      var r := b / 2 * 2 + 1;
      assert r / 2 == b / 2 && r % 2 == 1;
      r
    else
      var r := 2 * SetBit(b / 2, i - 1) + b % 2;
      assert r / 2 == SetBit(b / 2, i - 1) && r % 2 == b % 2;
      r
  }

  /** `b & ~(1 << i)` */
  function ClearBit(b: nat, i: nat): (r: nat)
    decreases i
    ensures forall j: nat :: Bit(r, j) <==> j != i && Bit(b, j)
  {
    if i == 0 then
      var r := b / 2 * 2;
      assert r / 2 == b / 2 && r % 2 == 0;
      r
    else
      var r := 2 * ClearBit(b / 2, i - 1) + b % 2;
      assert r / 2 == ClearBit(b / 2, i - 1) && r % 2 == b % 2;
      r
  }

  /** Setting or clearing one of the low `k` bits does not carry out of them. */
  lemma {:induction false} BitOpsKeepWidth(b: nat, i: nat, k: nat)
    requires i < k && b < Pow2(k)
    ensures SetBit(b, i) < Pow2(k) && ClearBit(b, i) < Pow2(k)
    decreases i
  {
    if i > 0 {
      BitOpsKeepWidth(b / 2, i - 1, k - 1);
    }
  }

  lemma BitOpsOnByte(b: byte, i: nat)
    requires i < 8
    ensures SetBit(b, i) < 256 && ClearBit(b, i) < 256
  {
    assert Pow2(8) == 256 by {
      assert Pow2(4) == 16;
    }
    BitOpsKeepWidth(b, i, 8);
  }

  lemma {:induction false} ZeroHasNoBits(i: nat)
    ensures !Bit(0, i)
    decreases i
  {
    if i > 0 { ZeroHasNoBits(i - 1); }
  }

  // ----- bitmaps

  /** `bitmap[k / 8] & (1 << (k % 8))` */
  predicate BitAt(bitmap: seq<byte>, k: nat)
    requires k < 8 * |bitmap|
  {
    Bit(bitmap[k / 8], k % 8)
  }

  function WithBit(bitmap: seq<byte>, k: nat): (r: seq<byte>)
    requires k < 8 * |bitmap|
    ensures |r| == |bitmap|
    ensures forall j | 0 <= j < 8 * |bitmap| :: BitAt(r, j) <==> j == k || BitAt(bitmap, j)
  {
    BitOpsOnByte(bitmap[k / 8], k % 8);
    bitmap[k / 8 := SetBit(bitmap[k / 8], k % 8)]
  }

  function WithoutBit(bitmap: seq<byte>, k: nat): (r: seq<byte>)
    requires k < 8 * |bitmap|
    ensures |r| == |bitmap|
    ensures forall j | 0 <= j < 8 * |bitmap| :: BitAt(r, j) <==> j != k && BitAt(bitmap, j)
  {
    BitOpsOnByte(bitmap[k / 8], k % 8);
    bitmap[k / 8 := ClearBit(bitmap[k / 8], k % 8)]
  }

  // ----- little-endian words

  /** Byte `i` of the little-endian form of `w`. */
  function ByteOf(w: u32, i: nat): byte
    requires i < 4
  {
    (if i == 0 then w else if i == 1 then w / 0x100 else if i == 2 then w / 0x1_0000 else w / 0x100_0000) % 0x100
  }

  function U16(s: seq<byte>, at: nat): u16
    requires at + 2 <= |s|
  {
    s[at] as int + 0x100 * s[at + 1] as int
  }

  function U32(s: seq<byte>, at: nat): u32
    requires at + 4 <= |s|
  {
    s[at] as int + 0x100 * s[at + 1] as int + 0x1_0000 * s[at + 2] as int + 0x100_0000 * s[at + 3] as int
  }

  lemma WordOfDigits(w: u32)
    ensures ByteOf(w, 0) as int + 0x100 * ByteOf(w, 1) as int + 0x1_0000 * ByteOf(w, 2) as int
            + 0x100_0000 * ByteOf(w, 3) as int == w
  {
    var h, t := w / 0x100, w / 0x1_0000;
    assert t == h / 0x100 && w / 0x100_0000 == t / 0x100;
    assert w == 0x100 * h + w % 0x100 && h == 0x100 * t + h % 0x100 && t == 0x100 * (t / 0x100) + t % 0x100;
  }

  lemma BytesOfWord(s: seq<byte>, at: nat, w: u32)
    requires at + 4 <= |s|
    requires forall i | 0 <= i < 4 :: s[at + i] == ByteOf(w, i)
    ensures U32(s, at) == w
    ensures w == s[at] as int + 256 * (s[at + 1] as int + 256 * (s[at + 2] as int + 256 * s[at + 3] as int))
  {
    WordOfDigits(w);
    assert s[at + 0] == ByteOf(w, 0) && s[at + 1] == ByteOf(w, 1);
    assert s[at + 2] == ByteOf(w, 2) && s[at + 3] == ByteOf(w, 3);
  }

  lemma BytesOfHalf(s: seq<byte>, at: nat, w: u16)
    requires at + 2 <= |s|
    requires s[at] == ByteOf(w, 0) && s[at + 1] == ByteOf(w, 1)
    ensures U16(s, at) == w == s[at] as int + 256 * s[at + 1] as int
  {
  }
}
