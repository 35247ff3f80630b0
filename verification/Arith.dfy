/** The facts about division and powers of two that the models need. */
module Arith {

  lemma MulAtLeast(d: nat, k: int)
    requires k >= 1
    ensures d * k >= d
  {
  }

  lemma MulMinus(d: int, a: int, b: int)
    ensures d * (a - b) == d * a - d * b
  {
  }

  /** A quotient and remainder that fit are the quotient and remainder. */
  lemma DivModUnique(y: nat, d: nat, q: nat, r: nat)
    requires r < d && y == d * q + r
    ensures y / d == q && y % d == r
  {
    var q', r' := y / d, y % d;
    MulMinus(d, q, q');
    MulMinus(d, q', q);
    if q > q' {
      MulAtLeast(d, q - q');
      assert false;
    } else if q < q' {
      MulAtLeast(d, q' - q);
      assert false;
    }
  }

  /** Whole multiples of the divisor drop out of a remainder. */
  lemma ModAddMultiple(x: nat, d: nat, k: nat)
    requires 0 < d
    ensures (x + d * k) % d == x % d && (x + d * k) / d == x / d + k
  {
    assert x + d * k == d * (x / d + k) + x % d;
    DivModUnique(x + d * k, d, x / d + k, x % d);
  }

  /** Going round a ring comes back to the same place after whole laps only. */
  lemma WholeLaps(h: nat, n: nat, d: nat)
    requires h < d
    ensures (h + n) % d == h <==> n % d == 0
  {
    var r := n % d;
    assert h + n == (h + r) + d * (n / d);
    ModAddMultiple(h + r, d, n / d);
    if h + r < d {
      DivModUnique(h + r, d, 0, h + r);
    } else {
      DivModUnique(h + r, d, 1, h + r - d);
    }
  }

  // ---- Bits of a number, lowest first ----

  function Pow2(n: nat): (p: nat)
    ensures p > 0
  {
    if n == 0 then 1 else 2 * Pow2(n - 1)
  }

  /** v >> n */
  function Shr(v: nat, n: nat): nat {
    if n == 0 then v else Shr(v / 2, n - 1)
  }

  /** (v >> i) & 1 */
  predicate Bit(v: nat, i: nat) {
    if i == 0 then v % 2 == 1 else Bit(v / 2, i - 1)
  }

  /** v & ((1 << n) - 1) */
  function Low(v: nat, n: nat): (low: nat)
    ensures low < Pow2(n)
  {
    if n == 0 then 0 else 2 * Low(v / 2, n - 1) + v % 2
  }

  lemma {:induction false} LowOfSmall(v: nat, n: nat)
    requires v < Pow2(n)
    ensures Low(v, n) == v
  {
    if n > 0 {
      LowOfSmall(v / 2, n - 1);
    }
  }

  /** Numbers with the same n lowest bits. */
  lemma {:induction false} LowFromBits(a: nat, b: nat, n: nat)
    requires forall i :: 0 <= i < n ==> (Bit(a, i) <==> Bit(b, i))
    ensures Low(a, n) == Low(b, n)
  {
    if n > 0 {
      assert Bit(a, 0) <==> Bit(b, 0);
      forall i | 0 <= i < n - 1
        ensures Bit(a / 2, i) <==> Bit(b / 2, i)
      {
        assert Bit(a, i + 1) <==> Bit(b, i + 1);
      }
      LowFromBits(a / 2, b / 2, n - 1);
    }
  }

  lemma HalfOfSum(x: nat, o: nat)
    ensures (x + o) / 2 == x / 2 + (o / 2 + (x % 2 + o % 2) / 2)
    ensures (x + o) % 2 == (x % 2 + o % 2) % 2
  {
  }

  lemma DoublesEqual(a: nat, b: nat, c: nat, d: nat)
    requires 2 * a + b == 2 * c + d && b < 2 && d < 2
    ensures a == c && b == d
  {
  }

  lemma SameParity(x: nat, y: nat, o: nat)
    requires (x + o) % 2 == (y + o) % 2
    ensures x % 2 == y % 2
  {
  }

  /** Adding the same number and cutting off the carry can be undone. */
  lemma {:induction false} AddIsInjective(x: nat, y: nat, o: nat, n: nat)
    requires Low(x + o, n) == Low(y + o, n)
    ensures Low(x, n) == Low(y, n)
  {
    if n > 0 {
      var o' := o / 2 + (x % 2 + o % 2) / 2;
      DoublesEqual(Low((x + o) / 2, n - 1), (x + o) % 2, Low((y + o) / 2, n - 1), (y + o) % 2);
      SameParity(x, y, o);
      HalfOfSum(x, o);
      HalfOfSum(y, o);
      assert (x + o) / 2 == x / 2 + o' && (y + o) / 2 == y / 2 + o';
      AddIsInjective(x / 2, y / 2, o', n - 1);
    }
  }

  /** The low a + b bits are the low a bits and the b bits above them. */
  lemma {:induction false} LowSplit(x: nat, y: nat, a: nat, b: nat)
    ensures Low(x, a + b) == Low(y, a + b) <==> Low(x, a) == Low(y, a) && Low(Shr(x, a), b) == Low(Shr(y, a), b)
  {
    if a > 0 {
      LowSplit(x / 2, y / 2, a - 1, b);
      assert (a + b) - 1 == (a - 1) + b;
    }
  }

  lemma {:induction false} LowOfLow(v: nat, n: nat)
    ensures Low(Low(v, n), n) == Low(v, n)
  {
    LowOfSmall(Low(v, n), n);
  }

  /** Adding two to the power of n does not change the n lowest bits. */
  lemma {:induction false} LowOfSum(v: nat, n: nat)
    ensures Low(v + Pow2(n), n) == Low(v, n)
  {
    if n > 0 {
      assert (v + Pow2(n)) / 2 == v / 2 + Pow2(n - 1);
      LowOfSum(v / 2, n - 1);
    }
  }

  lemma HalfDivMod(v: nat, p: nat)
    requires p > 0
    ensures v / (2 * p) == (v / 2) / p && v % (2 * p) == 2 * ((v / 2) % p) + v % 2
  {
    var q, r := (v / 2) / p, (v / 2) % p;
    assert v / 2 == p * q + r;
    MulAssoc(2, p, q);
    DivModUnique(v, 2 * p, q, 2 * r + v % 2);
  }

  lemma MulAssoc(a: int, b: int, c: int)
    ensures a * (b * c) == (a * b) * c
  {
  }

  /** Cutting off and shifting are remainder and quotient. */
  lemma {:induction false} LowIsMod(v: nat, n: nat)
    ensures Low(v, n) == v % Pow2(n)
  {
    if n > 0 {
      LowIsMod(v / 2, n - 1);
      HalfDivMod(v, Pow2(n - 1));
    }
  }

  lemma {:induction false} ShrIsDiv(v: nat, n: nat)
    ensures Shr(v, n) == v / Pow2(n)
  {
    if n > 0 {
      ShrIsDiv(v / 2, n - 1);
      HalfDivMod(v, Pow2(n - 1));
    }
  }

  /** A number is the sum of the powers of two at its bits. */
  lemma {:induction false} LowTop(v: nat, n: nat)
    requires n > 0
    ensures Low(v, n) == Low(v, n - 1) + if Bit(v, n - 1) then Pow2(n - 1) else 0
  {
    if n > 1 {
      LowTop(v / 2, n - 1);
    }
  }

  lemma ModOfSum(x: nat, o: nat, p: nat)
    requires p > 0
    ensures (x % p + o) % p == (x + o) % p
  {
    ModAddMultiple(x % p + o, p, x / p);
  }

  /** A summand may be cut off before the sum is. */
  lemma LowOfOffset(x: nat, o: nat, n: nat)
    ensures Low(Low(x, n) + o, n) == (x + o) % Pow2(n)
  {
    LowIsMod(x, n);
    LowIsMod(Low(x, n) + o, n);
    ModOfSum(x, o, Pow2(n));
  }
}
