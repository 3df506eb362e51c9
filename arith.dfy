/** Integer facts shared by the heightmap model: powers of two and the
    quotient/remainder decomposition that grid coordinates are reasoned with. */
module Arith {

  /** 2^e. */
  function Pow2(e: nat): (p: nat)
    ensures p >= 1
  {
    if e == 0 then 1 else 2 * Pow2(e - 1)
  }

  /** p is 2^k for some k >= 0. */
  predicate IsPowerOfTwo(p: int)
    decreases if p < 0 then 0 else p
  {
    p == 1 || (p >= 2 && p % 2 == 0 && IsPowerOfTwo(p / 2))
  }

  /** The exponent of a power of two. */
  function Log2(p: int): (e: nat)
    requires IsPowerOfTwo(p)
    ensures Pow2(e) == p
    decreases if p < 0 then 0 else p
  {
    if p == 1 then 0 else 1 + Log2(p / 2)
  }

  lemma {:induction false} Pow2Add(a: nat, b: nat)
    ensures Pow2(a + b) == Pow2(a) * Pow2(b)
  {
    if a > 0 {
      Pow2Add(a - 1, b);
      assert Pow2(a + b) == 2 * Pow2(a - 1 + b);
    }
  }

  lemma MulNonNeg(a: int, b: int)
    requires a >= 0 && b >= 0
    ensures a * b >= 0
  {
  }

  lemma DivNonNeg(a: int, s: int)
    requires a >= 0 && s > 0
    ensures a / s >= 0
  {
  }

  lemma DivModSplit(a: int, s: int)
    requires s > 0
    ensures a == (a / s) * s + a % s && 0 <= a % s < s
  {
  }

  lemma MulAtLeast(k: int, s: int)
    requires k >= 1 && s >= 0
    ensures k * s >= s
  {
    assert k * s == (k - 1) * s + s;
  }

  /** The decomposition a == q*s + r with 0 <= r < s is unique. */
  lemma DivModUnique(q: int, r: int, s: int)
    requires s > 0 && 0 <= r < s
    ensures (q * s + r) / s == q && (q * s + r) % s == r
  {
    var a := q * s + r;
    var d, m := a / s, a % s;
    assert a == d * s + m;
    var k := q - d;
    assert k * s == m - r;
    if k > 0 {
      MulAtLeast(k, s);
    } else if k < 0 {
      MulAtLeast(-k, s);
    }
  }

  /** Multiplying by a positive factor preserves order. */
  lemma MulCancelLe(a: int, b: int, s: int)
    requires s > 0
    ensures a <= b <==> a * s <= b * s
  {
    assert b * s - a * s == (b - a) * s;
    if b > a {
      MulAtLeast(b - a, s);
    } else if b < a {
      MulAtLeast(a - b, s);
    }
  }

  /** Quotient of a non-negative x by s > 0, by repeated subtraction; the
      grid reasoning below uses Quot and Rem rather than `/` and `%`. */
  function Quot(x: int, s: int): int
    requires x >= 0 && s > 0
    decreases x
  {
    if x < s then 0 else 1 + Quot(x - s, s)
  }

  /** Remainder of a non-negative x by s > 0. */
  function Rem(x: int, s: int): int
    requires x >= 0 && s > 0
    decreases x
  {
    if x < s then x else Rem(x - s, s)
  }

  lemma {:induction false} QuotRem(x: int, s: int)
    requires x >= 0 && s > 0
    ensures x == Quot(x, s) * s + Rem(x, s) && 0 <= Rem(x, s) < s && Quot(x, s) >= 0
    decreases x
  {
    if x >= s {
      QuotRem(x - s, s);
      assert (1 + Quot(x - s, s)) * s == Quot(x - s, s) * s + s;
    }
  }

  /** The decomposition x == q*s + r with 0 <= r < s determines Quot and Rem. */
  lemma {:induction false} QuotRemUnique(q: nat, r: int, s: int)
    requires s > 0 && 0 <= r < s
    ensures q * s + r >= 0 && Quot(q * s + r, s) == q && Rem(q * s + r, s) == r
  {
    MulNonNeg(q, s);
    if q > 0 {
      QuotRemUnique(q - 1, r, s);
      assert q * s + r - s == (q - 1) * s + r;
    }
  }

  /** With s == 2h, a multiple of h sits at remainder 0 or h modulo s. */
  lemma RemHalf(x: int, h: int)
    requires x >= 0 && h > 0
    ensures Rem(x, h) == 0 <==> (Rem(x, 2 * h) == 0 || Rem(x, 2 * h) == h)
  {
    var s := 2 * h;
    QuotRem(x, s);
    var q, r := Quot(x, s), Rem(x, s);
    if r < h {
      assert x == (2 * q) * h + r;
      QuotRemUnique(2 * q, r, h);
    } else {
      assert x == (2 * q + 1) * h + (r - h);
      QuotRemUnique(2 * q + 1, r - h, h);
    }
  }

  /** Moving by h swaps the two residues 0 and h modulo 2h. */
  lemma RemShift(x: int, h: int)
    requires x >= 0 && h > 0
    requires Rem(x, 2 * h) == 0 || Rem(x, 2 * h) == h
    ensures Rem(x + h, 2 * h) == h - Rem(x, 2 * h)
    ensures x >= h ==> Rem(x - h, 2 * h) == h - Rem(x, 2 * h)
  {
    var s := 2 * h;
    QuotRem(x, s);
    var q, r := Quot(x, s), Rem(x, s);
    if r == 0 {
      QuotRemUnique(q, h, s);
      if x >= h {
        assert q != 0;
        assert x - h == (q - 1) * s + h;
        QuotRemUnique(q - 1, h, s);
      }
    } else {
      assert x + h == (q + 1) * s;
      QuotRemUnique(q + 1, 0, s);
      QuotRemUnique(q, 0, s);
    }
  }

  /** A bound on x that keeps its remainder bounds its quotient. */
  lemma QuotBelow(x: int, s: int, t: int)
    requires x >= 0 && s > 0 && x < t * s + Rem(x, s)
    ensures Quot(x, s) < t
  {
    QuotRem(x, s);
    MulCancelLe(t, Quot(x, s), s);
  }

  /** Between 0 and s only the two ends are multiples of s. */
  lemma RemEnds(x: int, s: int)
    requires 0 <= x <= s && s > 0
    ensures Rem(x, s) == 0 <==> (x == 0 || x == s)
  {
    if x == s {
      assert Rem(x, s) == Rem(0, s);
    }
  }

  /** Every number is a multiple of 1. */
  lemma RemOne(x: int)
    requires x >= 0
    ensures Rem(x, 1) == 0
  {
    QuotRem(x, 1);
  }

  /** A point t * s + r with 0 <= r < s lies below c * s + 1 exactly when it
      is in one of the first c blocks, or is c * s itself. */
  lemma BlockBound(t: int, c: int, s: int, r: int)
    requires s > 0 && t >= 0 && 0 <= r < s
    ensures t * s + r < c * s + 1 <==> (t < c || (t == c && r == 0))
  {
    if t < c {
      MulCancelLe(t + 1, c, s);
      assert (t + 1) * s == t * s + s;
    } else if t > c {
      MulCancelLe(c + 1, t, s);
      assert (c + 1) * s == c * s + s;
    }
  }
}
