/** 64-bit two's-complement words, as bytes and as bits. */
module Words {
  import opened Bytes

  const TWO31 := 0x8000_0000
  const TWO32 := 0x1_0000_0000
  const TWO63 := 0x8000_0000_0000_0000
  const TWO64 := 0x1_0000_0000_0000_0000

  type Long = x: int | -TWO63 <= x < TWO63

  /** The word congruent to x: what C arithmetic that wraps leaves. */
  function Wrap(x: int): Long {
    var r := x % TWO64;
    if r < TWO63 then r else r - TWO64
  }

  lemma WrapLong(v: Long)
    ensures Wrap(v) == v
  {
  }

  /** The cast (int) of a word: its low half, signed. */
  function Int32(x: Long): int {
    var r := x % TWO32;
    if r < TWO31 then r else r - TWO32
  }

  lemma WrapMod(v: Long)
    ensures 0 <= v % TWO64 < TWO64 && Wrap(v % TWO64) == v
  {
  }

  lemma Pow256Of8()
    ensures Pow256(8) == TWO64
  {
  }

  function LongBytes(v: Long): (bs: seq<Byte>)
    ensures |bs| == 8
  {
    ToBytes(v % TWO64, 8)
  }

  function BytesLong(bs: seq<Byte>): Long
    requires |bs| == 8
  {
    Wrap(FromBytes(bs))
  }

  lemma BytesOfLong(v: Long)
    ensures BytesLong(LongBytes(v)) == v
  {
    hide Wrap, Pow256, FromBytes, ToBytes;
    Pow256Of8();
    WrapMod(v);
    FromToBytes(v % TWO64, 8);
  }

  lemma ModWrap(u: int)
    requires 0 <= u < TWO64
    ensures Wrap(u) % TWO64 == u
  {
  }

  lemma LongOfBytes(bs: seq<Byte>)
    requires |bs| == 8
    ensures LongBytes(BytesLong(bs)) == bs
  {
    hide Wrap, Pow256, FromBytes, ToBytes;
    Pow256Of8();
    ToFromBytes(bs);
    ModWrap(FromBytes(bs));
  }

  // ---------- bitwise operations ----------

  function AndBits(a: nat, b: nat, n: nat): nat {
    if n == 0 then 0 else (a % 2) * (b % 2) + 2 * AndBits(a / 2, b / 2, n - 1)
  }

  function XorBits(a: nat, b: nat, n: nat): nat {
    if n == 0 then 0 else (a + b) % 2 + 2 * XorBits(a / 2, b / 2, n - 1)
  }

  function And(a: Long, b: Long): Long {
    Wrap(AndBits(a % TWO64, b % TWO64, 64))
  }

  function Xor(a: Long, b: Long): Long {
    Wrap(XorBits(a % TWO64, b % TWO64, 64))
  }

  function Pow2(n: nat): nat {
    if n == 0 then 1 else 2 * Pow2(n - 1)
  }

  lemma {:induction false} Pow2Plus8(k: nat)
    ensures Pow2(k + 8) == 256 * Pow2(k)
  {
    assert Pow2(k + 8) == 2 * Pow2(k + 7) && Pow2(k + 7) == 2 * Pow2(k + 6);
    assert Pow2(k + 6) == 2 * Pow2(k + 5) && Pow2(k + 5) == 2 * Pow2(k + 4);
    assert Pow2(k + 4) == 2 * Pow2(k + 3) && Pow2(k + 3) == 2 * Pow2(k + 2);
    assert Pow2(k + 2) == 2 * Pow2(k + 1) && Pow2(k + 1) == 2 * Pow2(k);
  }

  lemma Pow2Of64()
    ensures Pow2(64) == TWO64
  {
    Pow2Plus8(0); Pow2Plus8(8); Pow2Plus8(16); Pow2Plus8(24);
    Pow2Plus8(32); Pow2Plus8(40); Pow2Plus8(48); Pow2Plus8(56);
  }

  lemma Halves(a: nat)
    ensures a == 2 * (a / 2) + a % 2 && 0 <= a % 2 < 2 && (a % 2) * (a % 2) == a % 2
  {
  }

  lemma {:induction false} AndBitsSelf(a: nat, n: nat)
    requires a < Pow2(n)
    ensures AndBits(a, a, n) == a
  {
    if n > 0 {
      Halves(a);
      AndBitsSelf(a / 2, n - 1);
    }
  }

  lemma {:induction false} XorBitsSelf(a: nat, n: nat)
    ensures XorBits(a, a, n) == 0
  {
    if n > 0 {
      XorBitsSelf(a / 2, n - 1);
      assert XorBits(a, a, n) == 2 * XorBits(a / 2, a / 2, n - 1);
    }
  }

  /** andq of a register with itself leaves it; xorq of a register with itself clears it. */
  lemma SelfBits(a: Long)
    ensures And(a, a) == a && Xor(a, a) == 0
  {
    Pow2Of64();
    WrapMod(a);
    AndBitsSelf(a % TWO64, 64);
    XorBitsSelf(a % TWO64, 64);
  }
}
