/** What the arithmetic unit of lab4/y64sim.c computes: sums and bits of words, flags, and every condition after them. */
module Y86Arith {
  import opened Prelude
  import opened Words
  import opened Y86Isa

  // ---------- results ----------

  /** Bit i of a word or natural number. */
  function Bit(v: nat, i: nat): nat {
    if i == 0 then v % 2 else Bit(v / 2, i - 1)
  }

  lemma {:induction false} AndBitAt(a: nat, b: nat, n: nat, i: nat)
    requires i < n
    ensures Bit(AndBits(a, b, n), i) == if Bit(a, i) == 1 && Bit(b, i) == 1 then 1 else 0
  {
    var r := AndBits(a / 2, b / 2, n - 1);
    var low := (a % 2) * (b % 2);
    assert low == if a % 2 == 1 && b % 2 == 1 then 1 else 0;
    assert AndBits(a, b, n) == low + 2 * r;
    if i > 0 { AndBitAt(a / 2, b / 2, n - 1, i - 1); }
  }

  lemma {:induction false} XorBitAt(a: nat, b: nat, n: nat, i: nat)
    requires i < n
    ensures Bit(XorBits(a, b, n), i) == if Bit(a, i) != Bit(b, i) then 1 else 0
  {
    var r := XorBits(a / 2, b / 2, n - 1);
    var low := (a + b) % 2;
    assert low == if a % 2 != b % 2 then 1 else 0;
    assert XorBits(a, b, n) == low + 2 * r;
    if i > 0 { XorBitAt(a / 2, b / 2, n - 1, i - 1); }
  }

  lemma {:induction false} BitsBelow(a: nat, b: nat, n: nat)
    ensures AndBits(a, b, n) < Pow2(n) && XorBits(a, b, n) < Pow2(n)
  {
    if n > 0 {
      BitsBelow(a / 2, b / 2, n - 1);
      assert (a % 2) * (b % 2) <= 1;
    }
  }

  /** Numbers below 2 to the n with the same n bits are the same. */
  lemma {:induction false} BitsDecide(u: nat, v: nat, n: nat)
    requires u < Pow2(n) && v < Pow2(n) && forall i :: 0 <= i < n ==> Bit(u, i) == Bit(v, i)
    ensures u == v
  {
    if n > 0 {
      assert Bit(u, 0) == Bit(v, 0);
      forall i | 0 <= i < n - 1 ensures Bit(u / 2, i) == Bit(v / 2, i) {
        assert Bit(u, i + 1) == Bit(v, i + 1);
      }
      BitsDecide(u / 2, v / 2, n - 1);
    }
  }

  /** The four operations: the sum and the difference modulo 2 to the 64, and bit by bit "and" and "exclusive or". */
  lemma AluResults(a: Long, b: Long)
    ensures (ComputeAlu(0, a, b) - (a + b)) % TWO64 == 0 && (ComputeAlu(1, a, b) - (b - a)) % TWO64 == 0
    ensures forall i :: 0 <= i < 64 ==>
      Bit(ComputeAlu(2, a, b) % TWO64, i) == if Bit(a % TWO64, i) == 1 && Bit(b % TWO64, i) == 1 then 1 else 0
    ensures forall i :: 0 <= i < 64 ==>
      Bit(ComputeAlu(3, a, b) % TWO64, i) == if Bit(a % TWO64, i) != Bit(b % TWO64, i) then 1 else 0
  {
    var u, v := a % TWO64, b % TWO64;
    WrapDiffers(a + b);
    WrapDiffers(b - a);
    Pow2Of64();
    BitsBelow(u, v, 64);
    ModWrap(AndBits(u, v, 64));
    ModWrap(XorBits(u, v, 64));
    hide AndBits, XorBits, Wrap, Pow2, Bit;
    forall i | 0 <= i < 64 { AndBitAt(u, v, 64, i); }
    forall i | 0 <= i < 64 { XorBitAt(u, v, 64, i); }
  }

  lemma WrapDiffers(x: int)
    ensures (Wrap(x) - x) % TWO64 == 0
  {
    var q := x / TWO64;
    assert Wrap(x) - x == (if x % TWO64 < TWO63 then -q else -q - 1) * TWO64;
  }

  // ---------- flags and conditions ----------

  const INT_MIN := -TWO31

  lemma Int32Congruent(x: Long)
    ensures -TWO31 <= Int32(x) < TWO31 && (x - Int32(x)) / TWO32 * TWO32 == x - Int32(x)
  {
  }

  lemma WrapCongruent(x: int)
    ensures (Wrap(x) - x) / TWO64 * TWO64 == Wrap(x) - x
  {
  }

  /** The low half of a wrapped sum is the wrapped sum of low halves; sign is 1 for a sum and -1 for a difference. */
  lemma LowHalfOf(a: Long, b: Long, sign: int)
    requires sign == 1 || sign == -1
    ensures var d := Int32(b) + sign * Int32(a);
      Int32(Wrap(b + sign * a)) == if d < -TWO31 then d + TWO32 else if d >= TWO31 then d - TWO32 else d
  {
    Int32Congruent(a);
    Int32Congruent(b);
    var v := Wrap(b + sign * a);
    Int32Congruent(v);
    WrapCongruent(b + sign * a);
    var k := (v - Int32(v)) / TWO32 - (b - Int32(b)) / TWO32 - sign * ((a - Int32(a)) / TWO32) - (v - (b + sign * a)) / TWO64 * TWO32;
    assert Int32(v) == Int32(b) + sign * Int32(a) - k * TWO32;
  }

  lemma ZeroSum(x: int)
    requires -TWO64 <= x < TWO64
    ensures Wrap(x) == 0 <==> x == 0 || x == -TWO64
  {
  }

  /** After subq a, b: "less" compares the low halves and errs only for INT_MIN against 0, "equal" compares whole words, and the others
      follow; no further condition is ever met. */
  lemma SubqConditions(a: Long, b: Long)
    ensures var cc := ComputeCc(1, a, b, ComputeAlu(1, a, b));
      var less := Int32(b) < Int32(a) || (Int32(a) == INT_MIN && Int32(b) == 0);
      CondDoit(cc, 0)
      && (CondDoit(cc, 1) <==> less || a == b)
      && (CondDoit(cc, 2) <==> less)
      && (CondDoit(cc, 3) <==> a == b)
      && (CondDoit(cc, 4) <==> a != b)
      && (CondDoit(cc, 5) <==> !less)
      && (CondDoit(cc, 6) <==> !less && a != b)
      && (forall c :: c < 0 || c > 6 ==> !CondDoit(cc, c))
  {
    LowHalfOf(a, b, -1);
    ZeroSum(b - a);
    hide Wrap, Int32;
  }

  /** After addq a, b: overflow is that of the low halves, except that two times INT_MIN goes unnoticed; zero is seen on the whole sum. */
  lemma AddqFlags(a: Long, b: Long)
    ensures var cc, sum := ComputeCc(0, a, b, ComputeAlu(0, a, b)), Int32(a) + Int32(b);
      var twice := Int32(a) == INT_MIN && Int32(b) == INT_MIN;
      (cc.of <==> !(-TWO31 <= sum < TWO31) && !twice)
      && (cc.zf <==> a + b == 0 || a + b == -TWO64)
      && (CondDoit(cc, 2) <==> sum < 0 && !twice)
      && (CondDoit(cc, 5) <==> sum >= 0 || twice)
      && (CondDoit(cc, 1) <==> (sum < 0 && !twice) || a + b == 0 || a + b == -TWO64)
      && (CondDoit(cc, 6) <==> (sum >= 0 || twice) && a + b != 0 && a + b != -TWO64)
      && (CondDoit(cc, 3) <==> a + b == 0 || a + b == -TWO64)
      && (CondDoit(cc, 4) <==> a + b != 0 && a + b != -TWO64)
  {
    LowHalfOf(a, b, 1);
    ZeroSum(a + b);
    Int32Congruent(a);
    Int32Congruent(b);
    hide Wrap, Int32;
  }

  /** After andq or xorq with result v there is no overflow: the conditions compare v with 0, its sign being that of its low half. */
  lemma LogicConditions(op: int, a: Long, b: Long)
    requires op == 2 || op == 3
    ensures var v := ComputeAlu(op, a, b);
      var cc := ComputeCc(op, a, b, v);
      !cc.of && CondDoit(cc, 0)
      && (CondDoit(cc, 1) <==> Int32(v) < 0 || v == 0)
      && (CondDoit(cc, 2) <==> Int32(v) < 0)
      && (CondDoit(cc, 3) <==> v == 0)
      && (CondDoit(cc, 4) <==> v != 0)
      && (CondDoit(cc, 5) <==> Int32(v) >= 0)
      && (CondDoit(cc, 6) <==> Int32(v) >= 0 && v != 0)
  {
  }

  /** So andq of a register with itself tests that register. */
  lemma TestConditions(a: Long)
    ensures ComputeAlu(2, a, a) == a
    ensures var cc := ComputeCc(2, a, a, ComputeAlu(2, a, a));
      (CondDoit(cc, 1) <==> Int32(a) < 0 || a == 0) && (CondDoit(cc, 2) <==> Int32(a) < 0) && (CondDoit(cc, 3) <==> a == 0)
      && (CondDoit(cc, 4) <==> a != 0) && (CondDoit(cc, 5) <==> Int32(a) >= 0) && (CondDoit(cc, 6) <==> Int32(a) >= 0 && a != 0)
  {
    hide And, Xor, Int32;
    SelfBits(a);
    LogicConditions(2, a, a);
  }

  /** For operands that fit 32 bits, "less" is the signed comparison exactly when they are not INT_MIN and 0. */
  lemma LessOnSmallWords(a: Long, b: Long)
    requires Int32(a) == a && Int32(b) == b
    ensures (CondDoit(ComputeCc(1, a, b, ComputeAlu(1, a, b)), 2) <==> b < a) <==> !(a == INT_MIN && b == 0)
  {
    SubqConditions(a, b);
  }

  /** Beyond 32 bits it is not: 0 is less than 2 to the 32, but the flags say it is not. */
  lemma LessFailsOnWideWords()
    ensures !CondDoit(ComputeCc(1, TWO32, 0, ComputeAlu(1, TWO32, 0)), 2)
  {
    SubqConditions(TWO32, 0);
  }
}
