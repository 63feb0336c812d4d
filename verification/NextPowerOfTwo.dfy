/** The bit-smearing rounding of request sizes to a power of two. */
module NextPowerOfTwo {
  import opened Bits

  /** One smearing step, x |= x >> s. */
  function Smear(x: nat, s: nat): nat {
    Or(x, Shr(x, s))
  }

  /** The smearing steps by s, 2s, 4s, ... up to 32. */
  function SmearFrom(x: nat, s: nat): nat
    requires s > 0
    decreases 64 - s
  {
    if s > 32 then x else SmearFrom(Smear(x, s), 2 * s)
  }

  /** size--, the six smearing steps 1, 2, 4, 8, 16, 32, size++, all on 64-bit
      words. */
  function NextPower2(size: nat): (r: nat)
    requires size < WORD
  {
    var x := (size + WORD - 1) % WORD;
    (SmearFrom(x, 1) + 1) % WORD
  }

  /** x has exactly n bits and the top w of them are ones. */
  ghost predicate TopOnes(x: nat, n: nat, w: nat)
    requires w <= n
  {
    x < Pow2(n) && Shr(x, n - w) == Pow2(w) - 1
  }

  /** The number of bits of a positive word. */
  lemma {:induction false} BitLength(x: nat) returns (n: nat)
    requires x > 0
    ensures n > 0 && TopOnes(x, n, 1) && Pow2(n - 1) <= x
  {
    if x == 1 {
      n := 1;
      assert Pow2(1) == 2;
    } else {
      var m := BitLength(x / 2);
      n := m + 1;
      assert Pow2(n) == 2 * Pow2(m) && Pow2(m) == 2 * Pow2(m - 1);
      assert Shr(x, n - 1) == Shr(x / 2, m - 1);
    }
  }

  function Min(a: nat, b: nat): nat {
    if a <= b then a else b
  }

  lemma ShrSmall(x: nat, s: nat)
    requires x < Pow2(s)
    ensures Shr(x, s) == 0
    decreases s
  {
    if s > 0 {
      ShrSmall(x / 2, s - 1);
    }
  }

  lemma ShrLe(x: nat, s: nat)
    ensures Shr(x, s) <= x
    decreases s
  {
    if s > 0 {
      ShrLe(x / 2, s - 1);
    }
  }

  /** A smearing step by w doubles a run of w leading ones. */
  lemma {:induction false} SmearDoubles(x: nat, n: nat, w: nat)
    requires 0 < w
    requires TopOnes(x, n, Min(w, n))
    ensures TopOnes(Smear(x, w), n, Min(2 * w, n))
  {
    ShrLe(x, w);
    OrBelow(x, Shr(x, w), n);
    if n <= w {
      Pow2Monotone(n, w);
      ShrSmall(x, w);
    } else {
      SmearFills(x, n, w, Min(2 * w, n) - w);
    }
  }

  /** The u bits below the leading run of w ones are filled from that run. */
  lemma {:induction false} SmearFills(x: nat, n: nat, w: nat, u: nat)
    requires u <= w && w + u <= n && TopOnes(x, n, w)
    ensures Shr(Smear(x, w), n - (w + u)) == Pow2(w + u) - 1
  {
    var k := n - (w + u);
    OrShr(x, Shr(x, w), k);
    ShiftedRun(x, n, w, u);
    ShrAdd(x, k, u);
    var low := ShrSplit(Shr(x, k), u);
    OrFill(Pow2(w) - 1, low, u);
    Pow2Add(w, u);
    MulSubOne(Pow2(w), Pow2(u));
  }

  /** Shifted down by w, the run of w ones leaves u ones. */
  lemma ShiftedRun(x: nat, n: nat, w: nat, u: nat)
    requires u <= w && w + u <= n && TopOnes(x, n, w)
    ensures Shr(Shr(x, w), n - (w + u)) == Pow2(u) - 1
  {
    ShrAdd(x, w, n - (w + u));
    ShrAdd(x, n - w, w - u);
    ShrOnes(w, w - u);
  }

  lemma MulSubOne(p: nat, q: nat)
    requires p > 0
    ensures (p - 1) * q + q == p * q
  {
  }

  lemma ShrOnes(n: nat, s: nat)
    requires s <= n
    ensures Shr(Pow2(n) - 1, s) == Pow2(n - s) - 1
    decreases s
  {
    if s > 0 {
      assert (Pow2(n) - 1) / 2 == Pow2(n - 1) - 1;
      ShrOnes(n - 1, s - 1);
    }
  }

  /** Smearing a word of n bits, n at most 64, gives n ones. */
  lemma {:induction false} SmearedIsOnes(x: nat, n: nat, s: nat)
    requires 0 < n <= 64 && s in {1, 2, 4, 8, 16, 32, 64} && TopOnes(x, n, Min(s, n))
    ensures SmearFrom(x, s) == Pow2(n) - 1
    decreases 64 - s
  {
    if s <= 32 {
      SmearDoubles(x, n, s);
      SmearedIsOnes(Smear(x, s), n, 2 * s);
    }
  }

  /** The words that size-- turns into a word of n bits. */
  lemma {:induction false} RoundsToLength(size: nat, x: nat, n: nat)
    requires size < WORD && x == (if size == 0 then WORD - 1 else size - 1)
    requires 0 < n <= 64 && TopOnes(x, n, 1)
    ensures NextPower2(size) == if Pow2(n) == WORD then 0 else Pow2(n)
  {
    assert (size + WORD - 1) % WORD == x;
    SmearedIsOnes(x, n, 1);
    Pow2InWord(n);
  }

  /** For 1 <= size <= 2^63 the result is the least power of two at or above
      size; every other 64-bit input gives 0. */
  lemma {:induction false} NextPower2IsLeast(size: nat) returns (n: nat)
    requires size < WORD
    ensures 1 <= size <= HALF_WORD ==>
              n <= 63 && NextPower2(size) == Pow2(n) && size <= Pow2(n)
              && forall m: nat :: size <= Pow2(m) ==> Pow2(n) <= Pow2(m)
    ensures !(1 <= size <= HALF_WORD) ==> NextPower2(size) == 0
  {
    if size == 1 {
      n := 0;
      SmearZero(1);
    } else {
      var x := if size == 0 then WORD - 1 else size - 1;
      n := BitLength(x);
      LengthBounds(x, n);
      RoundsToLength(size, x, n);
      if 2 <= size <= HALF_WORD {
        LeastPower(size, n);
      }
    }
  }

  lemma {:induction false} SmearZero(s: nat)
    requires s > 0
    ensures SmearFrom(0, s) == 0
    decreases 64 - s
  {
    if s <= 32 {
      ShrLe(0, s);
      SmearZero(2 * s);
    }
  }

  lemma {:induction false} LengthBounds(x: nat, n: nat)
    requires 0 < x < WORD && 0 < n && Pow2(n - 1) <= x < Pow2(n)
    ensures n <= 64
    ensures if HALF_WORD <= x then Pow2(n) == WORD else n <= 63 && Pow2(n) <= HALF_WORD
  {
    Pow2InWord(n - 1);
    Pow2InWord(n);
  }

  lemma {:induction false} LeastPower(size: nat, n: nat)
    requires 0 < n && Pow2(n - 1) < size
    ensures forall m: nat :: size <= Pow2(m) ==> Pow2(n) <= Pow2(m)
  {
    forall m: nat | size <= Pow2(m) ensures Pow2(n) <= Pow2(m) {
      if m >= n {
        Pow2Monotone(n, m);
      } else {
        Pow2Monotone(m, n - 1);
      }
    }
  }
}
