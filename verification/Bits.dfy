/** Powers of two and the bitwise operators of unsigned machine words, written
    over natural numbers so that wrap-around is always explicit. */
module Bits {

  type Byte = b: nat | b < 0x100

  const WORD: nat := 0x1_0000_0000_0000_0000

  const HALF_WORD: int := 0x8000_0000_0000_0000

  function Pow2(n: nat): (r: nat)
    ensures r > 0
  {
    if n == 0 then 1 else 2 * Pow2(n - 1)
  }

  /** Bitwise or of two words. */
  function Or(a: nat, b: nat): (r: nat)
    decreases a + b
  {
    if a == 0 then b
    else if b == 0 then a
    else (if a % 2 == 1 || b % 2 == 1 then 1 else 0) + 2 * Or(a / 2, b / 2)
  }

  /** Logical shift right by s bits. */
  function Shr(a: nat, s: nat): nat {
    if s == 0 then a else Shr(a / 2, s - 1)
  }

  lemma Pow2Add(m: nat, n: nat)
    ensures Pow2(m + n) == Pow2(m) * Pow2(n)
  {
    if m == 0 {
    } else {
      Pow2Add(m - 1, n);
      assert Pow2(m + n) == 2 * Pow2(m - 1 + n);
      assert 2 * (Pow2(m - 1) * Pow2(n)) == (2 * Pow2(m - 1)) * Pow2(n);
    }
  }

  lemma Pow2Monotone(m: nat, n: nat)
    requires m <= n
    ensures Pow2(m) <= Pow2(n)
  {
    if m < n {
      Pow2Monotone(m, n - 1);
    }
  }

  lemma Pow2Values()
    ensures Pow2(6) == 64 && Pow2(12) == 4096 && Pow2(32) == 0x1_0000_0000
    ensures Pow2(63) == 0x8000_0000_0000_0000 && Pow2(64) == WORD
  {
    assert Pow2(6) == 64;
    assert Pow2(12) == 4096 by { Pow2Add(6, 6); }
    assert Pow2(24) == 0x100_0000 by { Pow2Add(12, 12); }
    assert Pow2(32) == 0x1_0000_0000 by { assert Pow2(8) == 256; Pow2Add(24, 8); }
    assert Pow2(64) == WORD by { Pow2Add(32, 32); }
    assert Pow2(64) == 2 * Pow2(63);
  }

  /** Where the powers of two lie relative to a 64-bit word. */
  lemma {:induction false} Pow2InWord(n: nat)
    ensures n <= 63 ==> Pow2(n) <= HALF_WORD
    ensures n == 63 ==> Pow2(n) == HALF_WORD
    ensures n == 64 ==> Pow2(n) == WORD
    ensures n >= 64 ==> Pow2(n) >= WORD
  {
    Pow2Values();
    if n <= 63 { Pow2Monotone(n, 63); } else { Pow2Monotone(64, n); }
  }

  lemma ShrAdd(a: nat, s: nat, u: nat)
    ensures Shr(Shr(a, s), u) == Shr(a, s + u)
  {
  }

  /** Shifting right drops the low s bits and nothing else. */
  lemma {:induction false} ShrSplit(a: nat, s: nat) returns (low: nat)
    ensures a == Shr(a, s) * Pow2(s) + low && low < Pow2(s)
    decreases s
  {
    if s == 0 {
      low := 0;
    } else {
      var rest := ShrSplit(a / 2, s - 1);
      low := 2 * rest + a % 2;
      SplitDoubles(Shr(a, s), Pow2(s - 1), rest, a / 2, a % 2);
    }
  }

  lemma SplitDoubles(q: nat, p: nat, rest: nat, h: nat, bit: nat)
    requires h == q * p + rest
    ensures 2 * h + bit == q * (2 * p) + (2 * rest + bit)
  {
    assert q * (2 * p) == 2 * (q * p);
  }

  /** Or commutes with shifting right. */
  lemma OrShr(a: nat, b: nat, s: nat)
    ensures Shr(Or(a, b), s) == Or(Shr(a, s), Shr(b, s))
    decreases s
  {
    if s == 0 {
    } else {
      OrHalf(a, b);
      OrShr(a / 2, b / 2, s - 1);
    }
  }

  lemma {:induction false} OrHalf(a: nat, b: nat)
    ensures Or(a, b) / 2 == Or(a / 2, b / 2)
    ensures Or(a, b) % 2 == (if a % 2 == 1 || b % 2 == 1 then 1 else 0)
  {
  }

  lemma MulTwice(x: nat, p: nat)
    ensures x * (2 * p) == 2 * (x * p)
  {
  }

  /** x * 2^s, by doubling. */
  function Shl(x: nat, s: nat): nat {
    if s == 0 then x else 2 * Shl(x, s - 1)
  }

  lemma {:induction false} ShlIsProduct(x: nat, s: nat)
    ensures Shl(x, s) == x * Pow2(s)
  {
    if s == 0 {
    } else {
      ShlIsProduct(x, s - 1);
      MulTwice(x, Pow2(s - 1));
    }
  }

  /** Filling the low s bits: (x * 2^s + r) | (2^s - 1). */
  lemma OrFill(x: nat, r: nat, s: nat)
    requires r < Pow2(s)
    ensures Or(x * Pow2(s) + r, Pow2(s) - 1) == x * Pow2(s) + (Pow2(s) - 1)
  {
    ShlIsProduct(x, s);
    OrFillShifted(x, r, s);
  }

  lemma {:induction false} OrFillShifted(x: nat, r: nat, s: nat)
    requires r < Pow2(s)
    ensures Or(Shl(x, s) + r, Pow2(s) - 1) == Shl(x, s) + (Pow2(s) - 1)
  {
    if s == 0 {
    } else {
      OrFillShifted(x, r / 2, s - 1);
      FillStep(Shl(x, s - 1), r, Pow2(s - 1));
    }
  }

  lemma {:induction false} FillStep(y: nat, r: nat, p: nat)
    requires p > 0 && Or(y + r / 2, p - 1) == y + (p - 1)
    ensures Or(2 * y + r, 2 * p - 1) == 2 * y + (2 * p - 1)
  {
    var a, b := 2 * y + r, 2 * p - 1;
    assert a / 2 == y + r / 2 && b / 2 == p - 1 && b % 2 == 1;
    OrHalf(a, b);
  }

  /** Or never exceeds the number of bits of its operands. */
  lemma OrBelow(a: nat, b: nat, n: nat)
    requires a < Pow2(n) && b < Pow2(n)
    ensures Or(a, b) < Pow2(n)
    decreases n
  {
    if n == 0 {
    } else {
      OrBelow(a / 2, b / 2, n - 1);
      OrHalf(a, b);
    }
  }

  /** Or of a multiple of 2^s with something below 2^s is addition. */
  lemma {:induction false} OrDisjoint(x: nat, r: nat, s: nat)
    requires r < Pow2(s)
    ensures Or(x * Pow2(s), r) == x * Pow2(s) + r
    decreases s
  {
    if s == 0 {
    } else {
      var p := Pow2(s - 1);
      var a := x * Pow2(s);
      MulTwice(x, p);
      OrDisjoint(x, r / 2, s - 1);
      OrHalf(a, r);
      assert Or(a, r) == 2 * Or(x * p, r / 2) + r % 2;
    }
  }

  lemma MulLe(a: nat, b: nat, d: nat)
    requires a <= b
    ensures a * d <= b * d
  {
  }

  /** Quotient and remainder are determined by what they must add up to. */
  lemma DivMod(x: nat, q: nat, r: nat, d: nat)
    requires r < d && x == q * d + r
    ensures x / d == q && x % d == r
  {
    assert x / d == q by {
      if x / d < q { MulLe(x / d + 1, q, d); }
      if x / d > q { MulLe(q + 1, x / d, d); }
    }
  }

  /** The n bytes of a number, least significant first. */
  function LittleEndian(v: nat, n: nat): (r: seq<Byte>)
    ensures |r| == n
    decreases n
  {
    if n == 0 then [] else [v % 0x100] + LittleEndian(v / 0x100, n - 1)
  }
}
