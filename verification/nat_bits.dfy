/**
 * Unsigned machine words as naturals: `1 << e`, `&`, `|` and `(w >> k) & 1`
 * spelled out one bit at a time from the lowest, with the facts about them
 * that the benchmark containers rely on. Also the two multiplication facts
 * the flag index of the flag-vector hash set needs.
 */
module NatBits {

  /** `1 << e`, that is 2^e. */
  function Pow2(e: nat): (p: nat)
    ensures p >= 1
  {
    if e == 0 then 1 else 2 * Pow2(e - 1)
  }

  lemma {:induction false} PowMono(e: nat, n: nat)
    requires e <= n
    ensures Pow2(e) <= Pow2(n)
  {
    if e < n {
      PowMono(e, n - 1);
    }
  }

  lemma MulMono(a: nat, b: nat, c: nat)
    requires a <= b
    ensures a * c <= b * c && c * a <= c * b
  {
  }

  lemma MulSucc(a: nat, c: nat)
    ensures (a + 1) * c == a * c + c && c * (a + 1) == c * a + c
  {
  }

  /** Quotient and remainder are unique: whoever writes x as d * q + r with r < d has found them. */
  lemma ModUnique(x: nat, d: nat, q: nat, r: nat)
    requires 0 <= r < d && x == d * q + r
    ensures x % d == r && x / d == q
  {
    var q0, r0 := x / d, x % d;
    assert x == d * q0 + r0;
    if q0 < q {
      MulMono(q0 + 1, q, d);
    } else if q < q0 {
      MulMono(q + 1, q0, d);
    }
  }

  /** The remainder is what is left over after the quotient's multiples. */
  lemma DivMod(x: nat, d: nat)
    requires d > 0
    ensures x == d * (x / d) + x % d && x % d <= x
  {
  }

  /** Reducing modulo 2^e peels off the lowest bit and reduces the rest modulo 2^(e-1). */
  lemma HalfMod(x: nat, e: nat)
    requires e > 0
    ensures x % Pow2(e) == 2 * ((x / 2) % Pow2(e - 1)) + x % 2
  {
    var p := Pow2(e - 1);
    var q := (x / 2) / p;
    var r := (x / 2) % p;
    assert x / 2 == p * q + r;
    assert x == 2 * (x / 2) + x % 2;
    assert x == (2 * p) * q + (2 * r + x % 2);
    ModUnique(x, 2 * p, q, 2 * r + x % 2);
  }

  /** `(w >> k) & 1 == 1`: bit k of w is set. */
  predicate Bit(w: nat, k: nat)
  {
    if k == 0 then w % 2 == 1 else Bit(w / 2, k - 1)
  }

  /** Bitwise `x & y`. */
  function And(x: nat, y: nat): (z: nat)
    ensures z <= x
  {
    if x == 0 || y == 0 then 0
    else 2 * And(x / 2, y / 2) + (if x % 2 == 1 && y % 2 == 1 then 1 else 0)
  }

  /** Bitwise `x | y`. */
  function Or(x: nat, y: nat): nat
  {
    if x == 0 then y
    else if y == 0 then x
    else 2 * Or(x / 2, y / 2) + (if x % 2 == 1 || y % 2 == 1 then 1 else 0)
  }

  lemma {:induction false} ZeroBit(k: nat)
    ensures !Bit(0, k)
  {
    if k > 0 {
      ZeroBit(k - 1);
    }
  }

  /** Bit k of `x & y` is set exactly when it is set in both. */
  lemma {:induction false} AndBit(x: nat, y: nat, k: nat)
    ensures Bit(And(x, y), k) == (Bit(x, k) && Bit(y, k))
  {
    if x == 0 || y == 0 {
      ZeroBit(k);
    } else if k > 0 {
      var z := And(x, y);
      assert z / 2 == And(x / 2, y / 2);
      AndBit(x / 2, y / 2, k - 1);
    }
  }

  /** Bit k of `x | y` is set exactly when it is set in either. */
  lemma {:induction false} OrBit(x: nat, y: nat, k: nat)
    ensures Bit(Or(x, y), k) == (Bit(x, k) || Bit(y, k))
  {
    if x == 0 || y == 0 {
      ZeroBit(k);
    } else if k > 0 {
      var z := Or(x, y);
      assert z / 2 == Or(x / 2, y / 2);
      OrBit(x / 2, y / 2, k - 1);
    }
  }

  /** `1 << e` has exactly bit e set. */
  lemma {:induction false} PowBit(e: nat, k: nat)
    ensures Bit(Pow2(e), k) == (k == e)
  {
    if e == 0 {
      if k > 0 {
        ZeroBit(k - 1);
      }
    } else if k > 0 {
      assert Pow2(e) / 2 == Pow2(e - 1);
      PowBit(e - 1, k - 1);
    }
  }

  /** `x & (2^e - 1)`: the low e bits of x, which are x modulo 2^e. */
  lemma {:induction false} AndLowMask(x: nat, e: nat)
    ensures And(x, Pow2(e) - 1) == x % Pow2(e)
  {
    if e == 0 {
      assert Pow2(e) - 1 == 0 && x % Pow2(e) == x % 1;
    } else if x == 0 {
      assert And(x, Pow2(e) - 1) == 0;
    } else {
      AndLowMask(x / 2, e - 1);
      AndLowMaskStep(x, e);
    }
  }

  /** One bit of AndLowMask: from the claim for x / 2 and e - 1 to the claim for x and e. */
  lemma AndLowMaskStep(x: nat, e: nat)
    requires e > 0 && x > 0
    requires And(x / 2, Pow2(e - 1) - 1) == (x / 2) % Pow2(e - 1)
    ensures And(x, Pow2(e) - 1) == x % Pow2(e)
  {
    var m := Pow2(e) - 1;
    assert m / 2 == Pow2(e - 1) - 1 && m % 2 == 1;
    HalfMod(x, e);
    assert And(x, m) == 2 * And(x / 2, m / 2) + x % 2;
  }

  /** `~(2^e - 1)` on an n-bit word: bits e to n - 1 set. */
  function HighMask(e: nat, n: nat): (m: nat)
    requires e <= n
    ensures m + Pow2(e) == Pow2(n)
  {
    PowMono(e, n);
    Pow2(n) - Pow2(e)
  }

  /** Halving the mask of bits e..n-1 gives the mask of bits e-1..n-2; its lowest bit is clear. */
  lemma HighMaskHalf(e: nat, n: nat)
    requires 0 < e <= n
    ensures HighMask(e, n) / 2 == HighMask(e - 1, n - 1) && HighMask(e, n) % 2 == 0
  {
    assert HighMask(e, n) == 2 * HighMask(e - 1, n - 1);
  }

  /** And with an even mask shifts the lower half up by one bit. */
  lemma AndEven(x: nat, m: nat)
    requires x > 0 && m > 0 && m % 2 == 0
    ensures And(x, m) == 2 * And(x / 2, m / 2)
  {
  }

  /** Masking with HighMask(e, n) keeps the low n bits of x and clears the low e of them. */
  lemma {:induction false} AndHighMask(x: nat, e: nat, n: nat)
    requires e <= n
    ensures And(x, HighMask(e, n)) + x % Pow2(e) == x % Pow2(n)
  {
    if e == 0 {
      AndLowMask(x, n);
    } else if x == 0 || HighMask(e, n) == 0 {
      AndHighMaskTrivial(x, e, n);
    } else {
      AndHighMask(x / 2, e - 1, n - 1);
      AndHighMaskStep(x, e, n);
    }
  }

  /** AndHighMask when x or the mask is zero. */
  lemma AndHighMaskTrivial(x: nat, e: nat, n: nat)
    requires e <= n && (x == 0 || HighMask(e, n) == 0)
    ensures And(x, HighMask(e, n)) + x % Pow2(e) == x % Pow2(n)
  {
    assert And(x, HighMask(e, n)) == 0;
    if x > 0 {
      assert Pow2(e) == Pow2(n);
    }
  }

  /** One bit of AndHighMask: from the claim for x / 2, e - 1, n - 1 to the claim for x, e, n. */
  lemma AndHighMaskStep(x: nat, e: nat, n: nat)
    requires 0 < e <= n && x > 0 && HighMask(e, n) > 0
    requires And(x / 2, HighMask(e - 1, n - 1)) + (x / 2) % Pow2(e - 1) == (x / 2) % Pow2(n - 1)
    ensures And(x, HighMask(e, n)) + x % Pow2(e) == x % Pow2(n)
  {
    HighMaskHalf(e, n);
    AndEven(x, HighMask(e, n));
    HalfMod(x, n);
    HalfMod(x, e);
  }
}
