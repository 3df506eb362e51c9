/** The heightmap of DiamondSquare.h as a specification: the row-major index,
    the `random` helper over a draw oracle, and the predicate `Generated` that
    says, cell by cell, which value the diamond-square subdivision leaves in a
    `size` x `size` grid for a given sequence of `rand()` draws. */
module Heightmap {
  import opened Arith

  /** WORLD_TO_INDEX(x, y, width): the row-major position of cell (x, y). */
  function Index(x: int, y: int, width: int): (i: int)
    ensures 0 <= x < width && 0 <= y < width ==> 0 <= i < width * width
  {
    if 0 <= x < width && 0 <= y < width then
      MulCancelLe(y, width - 1, width);
      y * width + x
    else
      y * width + x
  }

  /** The index can be decoded back into its column and row. */
  lemma IndexRoundTrip(x: int, y: int, width: int)
    requires 0 <= x < width
    ensures Index(x, y, width) / width == y && Index(x, y, width) % width == x
  {
    DivModUnique(y, x, width);
  }

  /** Every cell of the buffer is the index of exactly one in-grid (x, y). */
  lemma IndexCovers(i: int, width: int)
    requires width > 0 && 0 <= i < width * width
    ensures 0 <= i % width < width && 0 <= i / width < width
    ensures Index(i % width, i / width, width) == i
  {
    MulCancelLe(width, i / width, width);
  }

  lemma IndexInjective(x: int, y: int, x2: int, y2: int, width: int)
    requires 0 <= x < width && 0 <= x2 < width
    requires Index(x, y, width) == Index(x2, y2, width)
    ensures x == x2 && y == y2
  {
    IndexRoundTrip(x, y, width);
    IndexRoundTrip(x2, y2, width);
  }

  /** Distinct in-grid cells have distinct indices. */
  lemma IndexDistinct(x: int, y: int, x2: int, y2: int, width: int)
    requires 0 <= x < width && 0 <= x2 < width
    requires x != x2 || y != y2
    ensures Index(x, y, width) != Index(x2, y2, width)
  {
    if Index(x, y, width) == Index(x2, y2, width) {
      IndexInjective(x, y, x2, y2, width);
    }
  }

  function Abs(a: int): (m: int)
    ensures m >= 0 && (m == a || m == -a)
  {
    if a < 0 then -a else a
  }

  /** C's `%`: the quotient is truncated toward zero, so a non-zero remainder
      takes the sign of the dividend (Dafny's own `%` never goes negative). */
  function CRem(a: int, b: int): (r: int)
    requires b != 0
    ensures a >= 0 ==> 0 <= r < Abs(b)
    ensures a <= 0 ==> -Abs(b) < r <= 0
  {
    if a >= 0 then a % Abs(b) else -((-a) % Abs(b))
  }

  /** The C remainder differs from the dividend by a multiple of the divisor. */
  lemma CRemCongruent(a: int, b: int)
    requires b != 0
    ensures (a - CRem(a, b)) % Abs(b) == 0
  {
    var m := Abs(b);
    if a >= 0 {
      assert a - CRem(a, b) == (a / m) * m;
      DivModUnique(a / m, 0, m);
    } else {
      assert a - CRem(a, b) == -(((-a) / m) * m);
      assert -(((-a) / m) * m) == (-((-a) / m)) * m;
      DivModUnique(-((-a) / m), 0, m);
    }
  }

  /** random(min, max) == rand() % (max - min) + min, with `draw` the value
      rand() returned. The caller must keep max != min (modulo by zero). */
  function Random(draw: nat, min: int, max: int): (v: int)
    requires max != min
    ensures min < max ==> min <= v < max
    ensures 0 <= v - min < Abs(max - min)
  {
    CRem(draw, max - min) + min
  }

  /** The draw and the value differ by a multiple of the span: the value is
      the draw reduced modulo |max - min|, shifted to min. */
  lemma RandomCongruent(draw: nat, min: int, max: int)
    requires max != min
    ensures (draw - (Random(draw, min, max) - min)) % Abs(max - min) == 0
  {
    CRemCongruent(draw, max - min);
  }

  /** The displacement `(random(0, 500) - 250) / smoothness` of one cell. */
  function Displacement(draw: nat, smoothness: real): real
    requires smoothness != 0.0
  {
    (Random(draw, 0, 500) - 250) as real / smoothness
  }

  /** A displacement is one of the 500 integers -250..249, scaled down. */
  lemma DisplacementBounds(draw: nat, smoothness: real)
    requires smoothness > 0.0
    ensures -250.0 / smoothness <= Displacement(draw, smoothness) <= 249.0 / smoothness
  {
    var k := (Random(draw, 0, 500) - 250) as real;
    assert -250.0 <= k <= 249.0;
    assert Displacement(draw, smoothness) == k / smoothness;
  }

  /** `size` is one of the sides the subdivision accepts: 2^n + 1. */
  predicate ValidSize(size: int)
  {
    IsPowerOfTwo(size - 1)
  }

  /** The smoothness divisor of the pass whose step size is 2^e: doubled once
      per pass, starting with the first. */
  function PassSmoothness(smoothness: real, n: nat, e: nat): (d: real)
    requires e <= n
    ensures smoothness != 0.0 ==> d != 0.0
  {
    smoothness * (Pow2(n - e + 1) as real)
  }

  /** Each pass doubles the divisor of the one before: smoothness doubles on
      every iteration of the stepSize loop. */
  lemma SmoothnessDoubles(smoothness: real, n: nat, e: nat)
    requires 1 <= e <= n
    ensures PassSmoothness(smoothness, n, e - 1) == 2.0 * PassSmoothness(smoothness, n, e)
  {
    var p := Pow2(n - e + 1);
    assert Pow2(n - (e - 1) + 1) == 2 * p;
    assert (2 * p) as real == 2.0 * (p as real);
  }

  ghost predicate InGrid(x: int, y: int, size: int)
  {
    0 <= x < size && 0 <= y < size
  }

  /** Both coordinates are multiples of s: the cells already set before the
      pass with step size s starts. */
  ghost predicate OnLattice(x: int, y: int, s: int)
    requires 0 <= x && 0 <= y && s > 0
  {
    Rem(x, s) == 0 && Rem(y, s) == 0
  }

  /** (x, y) is the midpoint of a cell of the pass with step size 2^e. */
  ghost predicate IsDiamondCell(e: nat, x: int, y: int)
    requires e >= 1 && 0 <= x && 0 <= y
  {
    Rem(x, Pow2(e)) == Pow2(e - 1) && Rem(y, Pow2(e)) == Pow2(e - 1)
  }

  /** (x, y) is the midpoint of an edge of the pass with step size 2^e. */
  ghost predicate IsSquareCell(e: nat, x: int, y: int)
    requires e >= 1 && 0 <= x && 0 <= y
  {
    var s, h := Pow2(e), Pow2(e - 1);
    (Rem(x, s) == h && Rem(y, s) == 0) || (Rem(x, s) == 0 && Rem(y, s) == h)
  }

  /** The mean of the corners of the s x s cell whose top-left is (x, y). */
  function DiamondMean(hm: seq<real>, x: int, y: int, s: int, size: int): real
    requires 0 <= s && 0 <= x && 0 <= y && x + s < size && y + s < size
    requires |hm| == size * size
  {
    (hm[Index(x, y, size)] + hm[Index(x + s, y, size)]
      + hm[Index(x, y + s, size)] + hm[Index(x + s, y + s, size)]) / 4.0
  }

  /** The edge point (x, y) lies on the border of the grid, so one of its
      four neighbours at distance h is missing. */
  predicate OnBorder(x: int, y: int, h: int, size: int)
  {
    y - h < 0 || y + h >= size || x - h < 0 || x + h >= size
  }

  /** How many of the four neighbours at distance h lie outside the grid. */
  function MissingNeighbours(x: int, y: int, h: int, size: int): (m: nat)
    ensures m == 0 <==> !OnBorder(x, y, h, size)
  {
    (if y - h < 0 then 1 else 0) + (if y + h >= size then 1 else 0)
    + (if x + h >= size then 1 else 0) + (if x - h < 0 then 1 else 0)
  }

  /** Along an axis where the edge midpoint sits on a multiple of s, the
      neighbour before is missing only at 0, the one after only at the far
      end, and never both. */
  lemma AxisOnLattice(v: int, c: int, s: int, h: int)
    requires h >= 1 && s == 2 * h && c >= 1 && 0 <= v < c * s + 1 && Rem(v, s) == 0
    ensures (v - h < 0 <==> v == 0) && (v + h >= c * s + 1 <==> v == c * s)
    ensures !(v - h < 0 && v + h >= c * s + 1)
  {
    QuotRem(v, s);
    var q := Quot(v, s);
    BlockBound(q, c, s, 0);
    BlockBound(q, c, s, h);
    if q >= 1 {
      MulAtLeast(q, s);
    }
    if v == c * s {
      MulCancelLe(q, c, s);
      MulCancelLe(c, q, s);
    }
  }

  /** Along an axis where the edge midpoint sits halfway between multiples
      of s, both neighbours are present. */
  lemma AxisMidpoint(v: int, c: int, s: int, h: int)
    requires h >= 1 && s == 2 * h && 0 <= v < c * s + 1 && Rem(v, s) == h
    ensures v - h >= 0 && v + h < c * s + 1
  {
    QuotRem(v, s);
    var q := Quot(v, s);
    BlockBound(q, c, s, h);
    BlockBound(q + 1, c, s, 0);
    assert (q + 1) * s == v + h;
  }

  /** The average squareStep takes: neighbours outside the grid count as 0,
      and the sum is divided by 3 on the border and by 4 inside. */
  function SquareMean(hm: seq<real>, x: int, y: int, s: int, size: int): real
    requires InGrid(x, y, size) && s >= 0 && |hm| == size * size
  {
    var h := s / 2;
    var a := if y - h >= 0 then hm[Index(x, y - h, size)] else 0.0;
    var b := if y + h < size then hm[Index(x, y + h, size)] else 0.0;
    var c := if x + h < size then hm[Index(x + h, y, size)] else 0.0;
    var d := if x - h >= 0 then hm[Index(x - h, y, size)] else 0.0;
    if OnBorder(x, y, h, size) then (a + b + c + d) / 3.0 else (a + b + c + d) / 4.0
  }

  /** An edge midpoint of the grid misses at most one neighbour: on the
      border exactly one is missing (and squareStep divides the sum of the
      three present ones by 3), inside none is (and it divides by 4). */
  lemma SquareBorder(n: nat, e: nat, size: int, x: int, y: int)
    requires 1 <= e <= n && size == Pow2(n) + 1 && InGrid(x, y, size) && IsSquareCell(e, x, y)
    ensures MissingNeighbours(x, y, Pow2(e - 1), size) == if OnBorder(x, y, Pow2(e - 1), size) then 1 else 0
  {
    var s, h, c := Pow2(e), Pow2(e - 1), Pow2(n - e);
    Pow2Add(n - e, e);
    if Rem(x, s) == h {
      AxisMidpoint(x, c, s, h);
      AxisOnLattice(y, c, s, h);
    } else {
      AxisOnLattice(x, c, s, h);
      AxisMidpoint(y, c, s, h);
    }
  }

  /** Changing a cell that is not a corner leaves DiamondMean unchanged. */
  lemma DiamondMeanFrame(hm: seq<real>, x: int, y: int, s: int, size: int, p: int, v: real)
    requires 0 <= s && 0 <= x && 0 <= y && x + s < size && y + s < size
    requires |hm| == size * size && 0 <= p < size * size
    requires p != Index(x, y, size) && p != Index(x + s, y, size)
    requires p != Index(x, y + s, size) && p != Index(x + s, y + s, size)
    ensures DiamondMean(hm[p := v], x, y, s, size) == DiamondMean(hm, x, y, s, size)
  {
  }

  /** Changing a cell that is none of the present neighbours leaves
      SquareMean unchanged. */
  lemma SquareMeanFrame(hm: seq<real>, x: int, y: int, s: int, size: int, p: int, v: real)
    requires InGrid(x, y, size) && s >= 0 && |hm| == size * size && 0 <= p < size * size
    requires y - s / 2 >= 0 ==> p != Index(x, y - s / 2, size)
    requires y + s / 2 < size ==> p != Index(x, y + s / 2, size)
    requires x + s / 2 < size ==> p != Index(x + s / 2, y, size)
    requires x - s / 2 >= 0 ==> p != Index(x - s / 2, y, size)
    ensures SquareMean(hm[p := v], x, y, s, size) == SquareMean(hm, x, y, s, size)
  {
  }

  /** Draws used before the pass with step size 2^e: one per cell already
      set, that is (c + 1)^2 with c = 2^(n-e) cells per side. */
  function PassBase(n: nat, e: nat): nat
    requires e <= n
  {
    (Pow2(n - e) + 1) * (Pow2(n - e) + 1)
  }

  /** The draw a diamond midpoint receives: cells are visited row by row. */
  function DiamondDraw(n: nat, e: nat, x: int, y: int): nat
    requires 1 <= e <= n && 0 <= x && 0 <= y
  {
    var s, c := Pow2(e), Pow2(n - e);
    QuotRem(x, s);
    QuotRem(y, s);
    MulNonNeg(Quot(y, s), c);
    PassBase(n, e) + Quot(y, s) * c + Quot(x, s)
  }

  /** The draw an edge midpoint receives: after the c*c diamond draws, rows
      of edge midpoints alternate between c points (y a multiple of s) and
      c + 1 points (y an odd multiple of s/2). */
  function SquareDraw(n: nat, e: nat, x: int, y: int): nat
    requires 1 <= e <= n && 0 <= x && 0 <= y
  {
    var s, c := Pow2(e), Pow2(n - e);
    var row, col := Quot(y, s), Quot(x, s);
    QuotRem(x, s);
    QuotRem(y, s);
    MulNonNeg(row, 2 * c + 1);
    MulNonNeg(c, c);
    var before: nat := row * (2 * c + 1);
    var odd: nat := if Rem(y, s) == Pow2(e - 1) then c else 0;
    PassBase(n, e) + c * c + before + odd + col
  }

  /** The diamond midpoint (x, y) of pass e holds the mean of its cell's corners
      plus its own displacement. */
  ghost predicate DiamondOk(hm: seq<real>, size: int, smoothness: real, draws: nat -> nat,
                            n: nat, e: nat, x: int, y: int)
    requires 1 <= e <= n && |hm| == size * size && smoothness != 0.0
  {
    var h := Pow2(e - 1);
    && InGrid(x, y, size) && h <= x && h <= y && x + h < size && y + h < size
    && hm[Index(x, y, size)]
       == DiamondMean(hm, x - h, y - h, Pow2(e), size)
          + Displacement(draws(DiamondDraw(n, e, x, y)), PassSmoothness(smoothness, n, e))
  }

  /** The edge midpoint (x, y) of pass e holds the average of its present
      neighbours plus its own displacement. */
  ghost predicate SquareOk(hm: seq<real>, size: int, smoothness: real, draws: nat -> nat,
                           n: nat, e: nat, x: int, y: int)
    requires 1 <= e <= n && |hm| == size * size && smoothness != 0.0
  {
    && InGrid(x, y, size)
    && hm[Index(x, y, size)]
       == SquareMean(hm, x, y, Pow2(e), size)
          + Displacement(draws(SquareDraw(n, e, x, y)), PassSmoothness(smoothness, n, e))
  }

  /** The four corners hold the first four draws. */
  ghost predicate CornersSeeded(hm: seq<real>, size: int, smoothness: real, draws: nat -> nat)
    requires size >= 1 && |hm| == size * size && smoothness != 0.0
  {
    && hm[Index(0, 0, size)] == Displacement(draws(0), smoothness)
    && hm[Index(size - 1, 0, size)] == Displacement(draws(1), smoothness)
    && hm[Index(0, size - 1, size)] == Displacement(draws(2), smoothness)
    && hm[Index(size - 1, size - 1, size)] == Displacement(draws(3), smoothness)
  }

  /** hm is what diamondSquare leaves in a grid of side `size` when rand()
      returns draws(0), draws(1), ... in turn. */
  ghost predicate Generated(hm: seq<real>, size: int, smoothness: real, draws: nat -> nat)
    requires ValidSize(size) && |hm| == size * size && smoothness != 0.0
  {
    var n := Log2(size - 1);
    && CornersSeeded(hm, size, smoothness, draws)
    && (forall e: nat, x, y | 1 <= e <= n && InGrid(x, y, size) && IsDiamondCell(e, x, y)
          :: DiamondOk(hm, size, smoothness, draws, n, e, x, y))
    && (forall e: nat, x, y | 1 <= e <= n && InGrid(x, y, size) && IsSquareCell(e, x, y)
          :: SquareOk(hm, size, smoothness, draws, n, e, x, y))
  }
}
