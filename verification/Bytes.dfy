/** Bytes, little-endian words inside byte buffers, and bitmaps. */
module Bytes {

  type byte = x: int | 0 <= x < 256
  type Buffer = seq<byte>

  const WORD := 0x1_0000_0000
  const WORD64 := 0x1_0000_0000_0000_0000

  function Zeros(n: nat): (b: Buffer)
    ensures |b| == n && forall i :: 0 <= i < n ==> b[i] == 0
  {
    seq(n, i => 0)
  }

  // ---- little-endian words ----

  function Get16(b: Buffer, off: nat): (v: nat)
    requires off + 2 <= |b|
    ensures v < 0x10000
  {
    var b0: int, b1: int := b[off], b[off + 1];
    b0 + 256 * b1
  }

  function Get32(b: Buffer, off: nat): (v: nat)
    requires off + 4 <= |b|
    ensures v < WORD
  {
    var b0: int, b1: int, b2: int, b3: int := b[off], b[off + 1], b[off + 2], b[off + 3];
    b0 + 256 * b1 + 65536 * b2 + 16777216 * b3
  }

  /** Stores the low 16 bits of v. */
  function Put16(b: Buffer, off: nat, v: nat): (r: Buffer)
    requires off + 2 <= |b|
    ensures |r| == |b|
  {
    b[off := v % 256][off + 1 := v / 256 % 256]
  }

  /** Stores the low 32 bits of v. */
  function Put32(b: Buffer, off: nat, v: nat): (r: Buffer)
    requires off + 4 <= |b|
    ensures |r| == |b|
  {
    var v1 := v / 256;
    var v2 := v1 / 256;
    b[off := v % 256][off + 1 := v1 % 256][off + 2 := v2 % 256][off + 3 := v2 / 256 % 256]
  }

  lemma Split256(v: nat)
    ensures v == 256 * (v / 256) + v % 256
  {
  }

  lemma RemainderOfHalf(v: nat, q: nat, low: nat)
    requires v == 0x10000 * q + low && low < 0x10000
    ensures v % 0x10000 == low
  {
  }

  lemma LowHalf(v: nat, v1: nat)
    requires v1 == v / 256
    ensures v % 0x10000 == v % 256 + 256 * (v1 % 256)
  {
    var b0, b1, v2 := v % 256, v1 % 256, v1 / 256;
    Split256(v);
    Split256(v1);
    RemainderOfHalf(v, v2, b0 + 256 * b1);
  }

  lemma Get16Put16(b: Buffer, off: nat, v: nat)
    requires off + 2 <= |b|
    ensures Get16(Put16(b, off, v), off) == v % 0x10000
    ensures forall i :: 0 <= i < |b| && !(off <= i < off + 2) ==> Put16(b, off, v)[i] == b[i]
  {
    LowHalf(v, v / 256);
  }

  lemma RemainderOfWord(v: nat, q: nat, low: nat)
    requires v == WORD * q + low && low < WORD
    ensures v % WORD == low
  {
  }

  lemma LowWord(v: nat, v1: nat, v2: nat, v3: nat)
    requires v1 == v / 256 && v2 == v1 / 256 && v3 == v2 / 256
    ensures v % WORD == v % 256 + 256 * (v1 % 256) + 65536 * (v2 % 256) + 16777216 * (v3 % 256)
  {
    var b0, b1, b2, b3, v4 := v % 256, v1 % 256, v2 % 256, v3 % 256, v3 / 256;
    Split256(v);
    Split256(v1);
    Split256(v2);
    Split256(v3);
    RemainderOfWord(v, v4, b0 + 256 * b1 + 65536 * b2 + 16777216 * b3);
  }

  lemma Get32Put32(b: Buffer, off: nat, v: nat)
    requires off + 4 <= |b|
    ensures Get32(Put32(b, off, v), off) == v % WORD
    ensures forall i :: 0 <= i < |b| && !(off <= i < off + 4) ==> Put32(b, off, v)[i] == b[i]
  {
    LowWord(v, v / 256, v / 256 / 256, v / 256 / 256 / 256);
  }

  /** A word apart from the written one keeps its value. */
  lemma Get32Frame(b: Buffer, off: nat, v: nat, other: nat)
    requires off + 4 <= |b| && other + 4 <= |b|
    requires other + 4 <= off || off + 4 <= other
    ensures Get32(Put32(b, off, v), other) == Get32(b, other)
  {
  }

  lemma Get32Zeros(n: nat, off: nat)
    requires off + 4 <= n
    ensures Get32(Zeros(n), off) == 0
  {
  }

  /** The number bytes stand for, the first lowest. */
  function LittleEndian(b: Buffer): (v: nat) {
    if b == [] then 0 else b[0] + 256 * LittleEndian(b[1..])
  }

  function Pow256(n: nat): nat {
    if n == 0 then 1 else 256 * Pow256(n - 1)
  }

  lemma {:induction false} LittleEndianJoin(a: Buffer, b: Buffer)
    ensures LittleEndian(a + b) == LittleEndian(a) + Pow256(|a|) * LittleEndian(b)
  {
    if a == [] {
      assert a + b == b;
    } else {
      LittleEndianJoin(a[1..], b);
      assert (a + b)[1..] == a[1..] + b;
      assert 256 * (Pow256(|a| - 1) * LittleEndian(b)) == 256 * Pow256(|a| - 1) * LittleEndian(b);
    }
  }

  lemma LittleEndianMore(c: byte, b: Buffer)
    ensures LittleEndian([c] + b) == c + 256 * LittleEndian(b)
  {
    assert ([c] + b)[1..] == b;
  }

  lemma Get16Is(b: Buffer, off: nat)
    requires off + 2 <= |b|
    ensures Get16(b, off) == LittleEndian(b[off..off + 2])
  {
    assert b[off..off + 2] == [b[off]] + ([b[off + 1]] + []);
    LittleEndianMore(b[off], [b[off + 1]] + []);
    LittleEndianMore(b[off + 1], []);
  }

  lemma TwoBytes()
    ensures Pow256(2) == 65536
  {
    assert Pow256(1) == 256;
  }

  lemma Get32Is(b: Buffer, off: nat)
    requires off + 4 <= |b|
    ensures Get32(b, off) == LittleEndian(b[off..off + 4])
  {
    hide LittleEndian, Pow256;
    Get16Is(b, off);
    Get16Is(b, off + 2);
    assert b[off..off + 4] == b[off..off + 2] + b[off + 2..off + 4];
    LittleEndianJoin(b[off..off + 2], b[off + 2..off + 4]);
    TwoBytes();
  }

  // ---- bits ----

  function Pow2(n: nat): (p: nat)
    ensures p >= 1
  {
    if n == 0 then 1 else 2 * Pow2(n - 1)
  }

  predicate Bit(v: nat, i: nat)
  {
    if i == 0 then v % 2 == 1 else Bit(v / 2, i - 1)
  }

  function SetBit(v: nat, i: nat): (r: nat)
    ensures Bit(r, i)
  {
    if i == 0 then (if v % 2 == 1 then v else v + 1) else 2 * SetBit(v / 2, i - 1) + v % 2
  }

  function ClearBit(v: nat, i: nat): (r: nat)
    ensures !Bit(r, i)
  {
    if i == 0 then v - v % 2 else 2 * ClearBit(v / 2, i - 1) + v % 2
  }

  lemma {:induction false} SetBitBits(v: nat, i: nat, j: nat)
    ensures Bit(SetBit(v, i), j) <==> j == i || Bit(v, j)
  {
    if i > 0 && j > 0 {
      SetBitBits(v / 2, i - 1, j - 1);
    }
  }

  lemma {:induction false} ClearBitBits(v: nat, i: nat, j: nat)
    ensures Bit(ClearBit(v, i), j) <==> j != i && Bit(v, j)
  {
    if i > 0 && j > 0 {
      ClearBitBits(v / 2, i - 1, j - 1);
    }
  }

  lemma {:induction false} ClearSetBit(v: nat, i: nat)
    requires !Bit(v, i)
    ensures ClearBit(SetBit(v, i), i) == v
  {
    if i > 0 {
      ClearSetBit(v / 2, i - 1);
    }
  }

  lemma {:induction false} ClearUnsetBit(v: nat, i: nat)
    requires !Bit(v, i)
    ensures ClearBit(v, i) == v
  {
    if i > 0 {
      ClearUnsetBit(v / 2, i - 1);
    }
  }

  /** Setting or clearing a bit below n keeps an n-bit number an n-bit number. */
  lemma {:induction false} BitWidth(v: nat, i: nat, n: nat)
    requires i < n && v < Pow2(n)
    ensures SetBit(v, i) < Pow2(n) && ClearBit(v, i) < Pow2(n)
  {
    if i > 0 {
      BitWidth(v / 2, i - 1, n - 1);
    }
  }

  /** All n bits are set exactly in the largest n-bit number. */
  lemma {:induction false} AllOnes(v: nat, n: nat)
    requires v < Pow2(n)
    ensures v == Pow2(n) - 1 ==> forall i: nat :: i < n ==> Bit(v, i)
    ensures v != Pow2(n) - 1 ==> exists i: nat :: i < n && !Bit(v, i)
  {
    if n > 0 {
      AllOnes(v / 2, n - 1);
      if v == Pow2(n) - 1 {
        assert v / 2 == Pow2(n - 1) - 1;
        assert forall i: nat :: i < n - 1 ==> Bit(v / 2, i);
        forall i: nat | i < n ensures Bit(v, i) {
          if i > 0 {
            var k: nat := i - 1;
            assert Bit(v / 2, k);
          }
        }
      } else if v % 2 == 0 {
        assert !Bit(v, 0);
      } else {
        var k: nat :| k < n - 1 && !Bit(v / 2, k);
        assert !Bit(v, k + 1);
      }
    }
  }

  lemma Pow8()
    ensures Pow2(8) == 256
  {
    assert Pow2(4) == 16;
  }

  lemma BitWidth8(b: byte, i: nat)
    requires i < 8
    ensures SetBit(b, i) < 256 && ClearBit(b, i) < 256
  {
    Pow8();
    BitWidth(b, i, 8);
  }

  lemma FullByte(b: byte)
    ensures b == 0xFF ==> forall i: nat :: i < 8 ==> Bit(b, i)
    ensures b != 0xFF ==> exists i: nat :: i < 8 && !Bit(b, i)
  {
    Pow8();
    AllOnes(b, 8);
  }

  /** Bit i of a number is the one worth 2^i. */
  lemma {:induction false} BitIs(high: nat, b: nat, low: nat, i: nat)
    requires b < 2 && low < Pow2(i)
    ensures Bit(high * Pow2(i + 1) + b * Pow2(i) + low, i) <==> b == 1
  {
    var v := high * Pow2(i + 1) + b * Pow2(i) + low;
    if i == 0 {
      assert v == 2 * high + b;
    } else {
      var half := high * Pow2(i) + b * Pow2(i - 1);
      assert high * Pow2(i + 1) == 2 * (high * Pow2(i)) && b * Pow2(i) == 2 * (b * Pow2(i - 1));
      assert v == 2 * half + low && v / 2 == half + low / 2;
      BitIs(high, b, low / 2, i - 1);
    }
  }

  // ---- bitmaps ----

  predicate BitAt(bits: Buffer, n: nat)
    requires n < 8 * |bits|
  {
    Bit(bits[n / 8], n % 8)
  }

  function SetBitAt(bits: Buffer, n: nat): (r: Buffer)
    requires n < 8 * |bits|
    ensures |r| == |bits|
  {
    BitWidth8(bits[n / 8], n % 8);
    bits[n / 8 := SetBit(bits[n / 8], n % 8)]
  }

  function ClearBitAt(bits: Buffer, n: nat): (r: Buffer)
    requires n < 8 * |bits|
    ensures |r| == |bits|
  {
    BitWidth8(bits[n / 8], n % 8);
    bits[n / 8 := ClearBit(bits[n / 8], n % 8)]
  }

  lemma SetBitAtBits(bits: Buffer, n: nat, m: nat)
    requires n < 8 * |bits| && m < 8 * |bits|
    ensures BitAt(SetBitAt(bits, n), m) <==> m == n || BitAt(bits, m)
  {
    SetBitBits(bits[n / 8], n % 8, m % 8);
  }

  lemma ClearBitAtBits(bits: Buffer, n: nat, m: nat)
    requires n < 8 * |bits| && m < 8 * |bits|
    ensures BitAt(ClearBitAt(bits, n), m) <==> m != n && BitAt(bits, m)
  {
    ClearBitBits(bits[n / 8], n % 8, m % 8);
  }

  /** Clearing a bit that was clear before it was set gives back the bitmap. */
  lemma ClearAfterSet(bits: Buffer, n: nat)
    requires n < 8 * |bits| && !BitAt(bits, n)
    ensures ClearBitAt(SetBitAt(bits, n), n) == bits
  {
    ClearSetBit(bits[n / 8], n % 8);
  }

  /** Clearing a clear bit changes nothing. */
  lemma ClearUnset(bits: Buffer, n: nat)
    requires n < 8 * |bits| && !BitAt(bits, n)
    ensures ClearBitAt(bits, n) == bits
  {
    ClearUnsetBit(bits[n / 8], n % 8);
  }

  /** Number of clear bits among the first n. */
  function ClearBits(bits: Buffer, n: nat): (c: nat)
    requires n <= 8 * |bits|
    ensures c <= n
  {
    if n == 0 then 0 else ClearBits(bits, n - 1) + (if BitAt(bits, n - 1) then 0 else 1)
  }

  lemma {:induction false} ClearBitsZero(bits: Buffer, n: nat)
    requires n <= 8 * |bits|
    ensures ClearBits(bits, n) == 0 <==> forall i: nat :: i < n ==> BitAt(bits, i)
  {
    if n > 0 {
      ClearBitsZero(bits, n - 1);
    }
  }

  lemma ClearBitsPositive(bits: Buffer, i: nat, n: nat)
    requires i < n <= 8 * |bits| && !BitAt(bits, i)
    ensures ClearBits(bits, n) > 0
  {
    ClearBitsZero(bits, n);
  }

  lemma {:induction false} ClearBitsSet(bits: Buffer, i: nat, n: nat)
    requires i < 8 * |bits| && n <= 8 * |bits| && !BitAt(bits, i)
    ensures ClearBits(SetBitAt(bits, i), n) == ClearBits(bits, n) - (if i < n then 1 else 0)
  {
    if n > 0 {
      ClearBitsSet(bits, i, n - 1);
      SetBitAtBits(bits, i, n - 1);
    }
  }

  lemma {:induction false} ClearBitsClear(bits: Buffer, i: nat, n: nat)
    requires i < 8 * |bits| && n <= 8 * |bits| && BitAt(bits, i)
    ensures ClearBits(ClearBitAt(bits, i), n) == ClearBits(bits, n) + (if i < n then 1 else 0)
  {
    if n > 0 {
      ClearBitsClear(bits, i, n - 1);
      ClearBitAtBits(bits, i, n - 1);
    }
  }
}
