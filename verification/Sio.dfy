/** Integer printing in place: sio_ltoa and sio_reverse of lab10/csapp.c. */
module Sio {
  import opened Prelude
  import opened Words

  lemma DivBound(v: nat, b: int)
    requires b >= 2
    ensures v / b * b + v % b == v && 0 <= v % b < b && 0 <= v / b && 2 * (v / b) <= v
    ensures v / b == 0 ==> v % b == v
  {
    var q, r := v / b, v % b;
    assert v == q * b + r && 0 <= r < b;
    QuotientBound(v, b, q, r);
  }

  lemma QuotientBound(v: nat, b: int, q: int, r: int)
    requires b >= 2 && v == q * b + r && 0 <= r < b
    ensures 0 <= q && 2 * q <= v
  {
    TimesAtLeast(q, b);
    if q > 0 { TimesAtLeast(b - 2, q); }
  }

  /** C's % and /, which truncate toward zero. */
  function Rem(v: int, b: int): (r: int)
    requires b >= 2
    ensures -b < r < b
  {
    if v >= 0 then v % b else -(-v % b)
  }

  function Quot(v: int, b: int): (q: int)
    requires b >= 2
    ensures if v > 0 then 0 <= 2 * q <= v else q <= 0
  {
    if v >= 0 then DivBound(v, b); v / b else DivBound(-v, b); -(-v / b)
  }

  function DigitChar(c: int): char
    requires -36 < c < 36
  {
    if c < 10 then (c + 48) as char else (c - 10 + 97) as char
  }

  /** What sio_ltoa appends for v, least digit first: at least one character, then as long as the quotient is positive. */
  function Digits(v: int, b: int): (ds: string)
    requires 2 <= b <= 36
    ensures |ds| > 0 && '\0' !in ds
    decreases if v > 0 then v else 0
  {
    [DigitChar(Rem(v, b))] + if Quot(v, b) > 0 then Digits(Quot(v, b), b) else []
  }

  function Reversed(s: string): (r: string)
    ensures |r| == |s| && forall k :: 0 <= k < |s| ==> r[k] == s[|s| - 1 - k]
  {
    if s == [] then [] else Reversed(s[1..]) + [s[0]]
  }

  /** The string left by sio_ltoa; negating the least long wraps. */
  function Text(v: Long, b: int): string
    requires 2 <= b <= 36
  {
    if v < 0 then "-" + Reversed(Digits(Wrap(-(v as int)), b)) else Reversed(Digits(v, b))
  }

  const ALPHABET := "0123456789abcdefghijklmnopqrstuvwxyz"

  /** A digit c is character c of the alphabet. */
  lemma DigitsOfAlphabet(c: int)
    requires 0 <= c < 36
    ensures DigitChar(c) == ALPHABET[c]
  {
  }

  // ---------- reading back ----------

  function DigitValue(c: char, b: int): Option<nat> {
    var d := if '0' <= c <= '9' then c as int - 48 else if 'a' <= c <= 'z' then c as int - 87 else b;
    if d < b && d >= 0 then Some(d) else None
  }

  function ReadNat(s: string, b: nat): Option<int> {
    if s == [] then Some(0)
    else match (ReadNat(s[..|s| - 1], b), DigitValue(s[|s| - 1], b))
         case (Some(n), Some(d)) => Some(n * b + d)
         case _ => None
  }

  /** An optional minus and at least one digit. */
  function Read(s: string, b: nat): Option<int> {
    if |s| > 0 && s[0] == '-' then
      match ReadNat(s[1..], b)
      case Some(n) => if |s| > 1 then Some(-n) else None
      case None => None
    else
      match ReadNat(s, b)
      case Some(n) => if s != [] then Some(n) else None
      case None => None
  }

  /** The quotient shrinks and, with the remainder, gives the number back. */
  lemma QuotRem(v: nat, b: int)
    requires 2 <= b
    ensures Quot(v, b) * b + Rem(v, b) == v && 0 <= Rem(v, b) < b && 0 <= 2 * Quot(v, b) <= v
    ensures Quot(v, b) == 0 ==> Rem(v, b) == v
  {
    assert Quot(v, b) == v / b && Rem(v, b) == v % b;
    hide Quot, Rem;
    DivBound(v, b);
  }

  lemma {:induction false} DigitsReadBack(v: nat, b: int)
    requires 2 <= b <= 36
    ensures ReadNat(Reversed(Digits(v, b)), b) == Some(v)
    decreases v
  {
    hide Rem, Quot;
    QuotRem(v, b);
    var ds, q, d := Digits(v, b), Quot(v, b), Rem(v, b);
    var r := Reversed(ds);
    assert ds[0] == DigitChar(d) && DigitValue(ds[0], b) == Some(d);
    assert r[|r| - 1] == ds[0] && r[..|r| - 1] == Reversed(ds[1..]);
    if q > 0 {
      assert ds[1..] == Digits(q, b);
      DigitsReadBack(q, b);
    } else {
      assert ds[1..] == [];
      assert ReadNat([], b) == Some(0);
    }
  }

  lemma {:induction false} LastDigitNotZero(v: nat, b: int)
    requires 2 <= b <= 36 && v > 0
    ensures var ds := Digits(v, b); ds[|ds| - 1] != '0'
    decreases v
  {
    hide Rem, Quot;
    QuotRem(v, b);
    if Quot(v, b) > 0 { LastDigitNotZero(Quot(v, b), b); }
  }

  lemma {:induction false} DigitsAreFew(v: int, b: int, k: nat)
    requires 2 <= b <= 36 && v < Pow2(k)
    ensures |Digits(v, b)| <= if k == 0 then 1 else k
    decreases k
  {
    if v >= 0 { QuotRem(v, b); }
    hide Rem;
    if Quot(v, b) > 0 {
      hide Quot;
      DigitsAreFew(Quot(v, b), b, k - 1);
    }
  }

  lemma Pow2Of63()
    ensures Pow2(63) == TWO63
  {
    Pow2Of64();
    assert Pow2(64) == 2 * Pow2(63);
  }

  lemma TextIsShort(v: Long, b: int)
    requires 2 <= b <= 36
    ensures 1 <= |Text(v, b)| <= 64 && '\0' !in Text(v, b)
  {
    Pow2Of63();
    DigitsAreFew(if v < 0 then Wrap(-(v as int)) else v, b, 63);
  }

  lemma LeastDoesNotReadBack(b: int)
    requires 2 <= b <= 36
    ensures Read(Text(-TWO63, b), b) != Some(-TWO63)
  {
    var c := DigitChar(Rem(-TWO63, b));
    assert Wrap(TWO63) == -TWO63;
    assert Quot(-TWO63, b) <= 0;
    hide Rem, Quot, Wrap, DigitChar;
    assert Digits(-TWO63, b) == [c];
    assert Reversed([c]) == [c];
    assert Text(-TWO63, b) == ['-', c] && ['-', c][1..] == [c];
    OneDigit(c, b);
  }

  lemma ReadSigned(t: string, b: nat, n: int)
    requires t != [] && ReadNat(t, b) == Some(n)
    ensures Read("-" + t, b) == Some(-n)
    ensures t[0] != '-' ==> Read(t, b) == Some(n)
  {
  }

  /** Printing is invertible for every long but the least, whose negation overflows. */
  lemma ReadsBackExactly(v: Long, b: int)
    requires 2 <= b <= 36
    ensures Read(Text(v, b), b) == Some(v) <==> v != -TWO63
  {
    hide Wrap, ReadNat, Digits, Read, Reversed;
    if v == -TWO63 {
      LeastDoesNotReadBack(b);
    } else {
      var n: nat := if v < 0 then -(v as int) else v;
      WrapLong(n);
      DigitsReadBack(n, b);
      NoMinus(n, b);
      var ds := Digits(n, b);
      assert Reversed(ds)[0] == ds[|ds| - 1];
      ReadSigned(Reversed(ds), b, n);
    }
  }

  lemma OneDigit(c: char, b: int)
    requires 2 <= b <= 36
    ensures ReadNat([c], b).Some? ==> ReadNat([c], b).value < b
  {
  }

  lemma {:induction false} NoMinus(v: nat, b: int)
    requires 2 <= b <= 36
    ensures '-' !in Digits(v, b)
    decreases v
  {
    hide Rem, Quot;
    QuotRem(v, b);
    if Quot(v, b) > 0 { NoMinus(Quot(v, b), b); }
  }

  lemma ZeroDigits(b: int)
    requires 2 <= b <= 36
    ensures Digits(0, b) == "0"
  {
    QuotRem(0, b);
  }

  /** Nothing but 0 itself starts with a zero. */
  lemma NoLeadingZero(v: Long, b: int)
    requires 2 <= b <= 36 && v != -TWO63
    ensures var s := Text(v, b); var first := if v < 0 then 1 else 0;
      |s| > first && (s[first] == '0' <==> v == 0)
  {
    hide Wrap, Digits, Reversed;
    var n: nat := if v < 0 then -(v as int) else v;
    WrapLong(n);
    if n > 0 { LastDigitNotZero(n, b); } else { ZeroDigits(b); }
  }

  // ---------- in place ----------

  /** A terminated string starts the array. */
  ghost predicate Holds(s: array<char>, t: string)
    reads s
  {
    |t| < s.Length && s[..|t|] == t && s[|t|] == '\0'
  }

  method Strlen(s: array<char>, ghost t: string) returns (n: nat)
    requires Holds(s, t) && '\0' !in t
    ensures n == |t|
  {
    n := 0;
    assert forall k :: 0 <= k < |t| ==> s[k] == s[..|t|][k] && t[k] in t;
    while s[n] != '\0'
      invariant n <= |t|
      decreases |t| - n
    {
      n := n + 1;
    }
  }

  method Reverse(s: array<char>, ghost t: string)
    requires Holds(s, t) && '\0' !in t
    modifies s
    ensures Holds(s, Reversed(t)) && s[|t|..] == old(s[|t|..])
  {
    var n := Strlen(s, t);
    var i, j: int := 0, n - 1;
    while i < j
      invariant 0 <= i && i + j == n - 1 && i <= j + 1
      invariant forall k :: 0 <= k < i ==> s[k] == t[n - 1 - k] && s[n - 1 - k] == t[k]
      invariant forall k :: i <= k <= j ==> s[k] == t[k]
      invariant s[n..] == old(s[n..])
    {
      var c := s[i];
      s[i] := s[j];
      s[j] := c;
      i, j := i + 1, j - 1;
    }
    assert s[n] == old(s[n..])[0];
    assert s[..n] == Reversed(t);
  }

  /** The do-while loop: digits of w from the start of s on. */
  method PutDigits(w: int, s: array<char>, b: int) returns (i: nat)
    requires 2 <= b <= 36 && s.Length >= |Digits(w, b)|
    modifies s
    ensures i == |Digits(w, b)| && s[..i] == Digits(w, b)
  {
    hide Rem, Quot, DigitChar;
    i := 0;
    var v := w;
    ghost var ds := Digits(w, b);
    var more := true;
    while more
      invariant i <= |ds| && s[..i] == ds[..i] && if more then ds[i..] == Digits(v, b) else i == |ds|
      decreases more, v
    {
      assert ds[i] == DigitChar(Rem(v, b)) && ds[i + 1..] == ds[i..][1..];
      s[i] := DigitChar(Rem(v, b));
      i := i + 1;
      v := Quot(v, b);
      more := v > 0;
    }
  }

  lemma ReversedSnoc(s: string, c: char)
    ensures Reversed(s + [c]) == [c] + Reversed(s)
  {
    hide Reversed;
  }

  method Ltoa(v: Long, s: array<char>, b: int)
    requires 2 <= b <= 36 && s.Length > |Text(v, b)|
    modifies s
    ensures Holds(s, Text(v, b))
  {
    hide Digits, Wrap, Reversed;
    TextIsShort(v, b);
    var neg := v < 0;
    var w: int := if neg then Wrap(-(v as int)) else v;
    var i := PutDigits(w, s, b);
    ghost var all := Digits(w, b);
    if neg {
      s[i] := '-';
      i := i + 1;
      all := all + "-";
      ReversedSnoc(Digits(w, b), '-');
    }
    s[i] := '\0';
    assert s[..i] == all;
    Reverse(s, all);
  }
}
