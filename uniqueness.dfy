/** The heightmap diamondSquare produces is determined by the draws: two
    grids that both satisfy Generated for the same draws are equal. The proof
    goes pass by pass: once the cells of the lattice of step 2^e agree, the
    diamond midpoints of pass e agree (their corners are on that lattice),
    then the edge midpoints (their neighbours are lattice points or diamond
    midpoints), and together these make up the lattice of step 2^(e-1). */
module Uniqueness {
  import opened Arith
  import opened Heightmap

  /** hm1 and hm2 hold the same value on every cell of the lattice of step s. */
  ghost predicate AgreeOn(hm1: seq<real>, hm2: seq<real>, size: int, s: int)
    requires |hm1| == size * size && |hm2| == size * size && s > 0
  {
    forall x, y {:trigger OnLattice(x, y, s)} | InGrid(x, y, size) && OnLattice(x, y, s)
      :: hm1[Index(x, y, size)] == hm2[Index(x, y, size)]
  }

  /** hm1 and hm2 hold the same value on every diamond midpoint of pass e. */
  ghost predicate AgreeOnDiamonds(hm1: seq<real>, hm2: seq<real>, size: int, e: nat)
    requires |hm1| == size * size && |hm2| == size * size && e >= 1
  {
    forall x, y {:trigger IsDiamondCell(e, x, y)} | InGrid(x, y, size) && IsDiamondCell(e, x, y)
      :: hm1[Index(x, y, size)] == hm2[Index(x, y, size)]
  }

  /** Cells that agree on the four corners agree on their mean. */
  lemma DiamondMeanAgree(hm1: seq<real>, hm2: seq<real>, x: int, y: int, s: int, size: int)
    requires 0 <= s && 0 <= x && 0 <= y && x + s < size && y + s < size
    requires |hm1| == size * size && |hm2| == size * size
    requires hm1[Index(x, y, size)] == hm2[Index(x, y, size)]
    requires hm1[Index(x + s, y, size)] == hm2[Index(x + s, y, size)]
    requires hm1[Index(x, y + s, size)] == hm2[Index(x, y + s, size)]
    requires hm1[Index(x + s, y + s, size)] == hm2[Index(x + s, y + s, size)]
    ensures DiamondMean(hm1, x, y, s, size) == DiamondMean(hm2, x, y, s, size)
  {
  }

  /** Lattices that agree give agreeing corners for the cell at (cx, cy). */
  lemma CornersAgree(hm1: seq<real>, hm2: seq<real>, size: int, s: int, cx: int, cy: int)
    requires |hm1| == size * size && |hm2| == size * size && s > 0
    requires 0 <= cx && 0 <= cy && cx + s < size && cy + s < size
    requires OnLattice(cx, cy, s) && OnLattice(cx + s, cy, s)
    requires OnLattice(cx, cy + s, s) && OnLattice(cx + s, cy + s, s)
    requires AgreeOn(hm1, hm2, size, s)
    ensures DiamondMean(hm1, cx, cy, s, size) == DiamondMean(hm2, cx, cy, s, size)
  {
    assert InGrid(cx, cy, size) && InGrid(cx + s, cy, size);
    assert InGrid(cx, cy + s, size) && InGrid(cx + s, cy + s, size);
    DiamondMeanAgree(hm1, hm2, cx, cy, s, size);
  }

  /** The corners of the cell around a diamond midpoint of pass e are on
      the lattice of step 2^e. */
  lemma DiamondCorners(e: nat, x: int, y: int, h: int, s: int, cx: int, cy: int)
    requires e >= 1 && h == Pow2(e - 1) && s == Pow2(e) && cx == x - h && cy == y - h
    requires 0 <= cx && 0 <= cy && IsDiamondCell(e, x, y)
    ensures OnLattice(cx, cy, s) && OnLattice(cx + s, cy, s)
    ensures OnLattice(cx, cy + s, s) && OnLattice(cx + s, cy + s, s)
  {
    assert s == 2 * h;
    RemShift(x, h);
    RemShift(y, h);
    assert cx + s == x + h && cy + s == y + h;
  }

  /** A diamond midpoint is computed from lattice points only: two grids
      that agree on the lattice of step s = 2^e and add the same
      displacement d to the corner mean agree on the midpoint. */
  lemma DiamondAgree(hm1: seq<real>, hm2: seq<real>, size: int, e: nat, x: int, y: int, d: real)
    requires e >= 1 && |hm1| == size * size && |hm2| == size * size
    requires InGrid(x, y, size) && IsDiamondCell(e, x, y)
    requires Pow2(e - 1) <= x && Pow2(e - 1) <= y && x + Pow2(e - 1) < size && y + Pow2(e - 1) < size
    requires hm1[Index(x, y, size)] == DiamondMean(hm1, x - Pow2(e - 1), y - Pow2(e - 1), Pow2(e), size) + d
    requires hm2[Index(x, y, size)] == DiamondMean(hm2, x - Pow2(e - 1), y - Pow2(e - 1), Pow2(e), size) + d
    requires AgreeOn(hm1, hm2, size, Pow2(e))
    ensures hm1[Index(x, y, size)] == hm2[Index(x, y, size)]
  {
    var h, s := Pow2(e - 1), Pow2(e);
    var cx, cy := x - h, y - h;
    DiamondCorners(e, x, y, h, s, cx, cy);
    CornersAgree(hm1, hm2, size, s, cx, cy);
  }

  /** Cells that agree on the present neighbours agree on SquareMean. */
  lemma SquareMeanAgree(hm1: seq<real>, hm2: seq<real>, x: int, y: int, s: int, h: int, size: int)
    requires InGrid(x, y, size) && s >= 0 && h == s / 2 && |hm1| == size * size && |hm2| == size * size
    requires y - h >= 0 ==> hm1[Index(x, y - h, size)] == hm2[Index(x, y - h, size)]
    requires y + h < size ==> hm1[Index(x, y + h, size)] == hm2[Index(x, y + h, size)]
    requires x + h < size ==> hm1[Index(x + h, y, size)] == hm2[Index(x + h, y, size)]
    requires x - h >= 0 ==> hm1[Index(x - h, y, size)] == hm2[Index(x - h, y, size)]
    ensures SquareMean(hm1, x, y, s, size) == SquareMean(hm2, x, y, s, size)
  {
  }

  /** An edge midpoint is computed from lattice points and diamond midpoints
      of its own pass. */
  lemma SquareAgree(hm1: seq<real>, hm2: seq<real>, size: int, smoothness: real, draws: nat -> nat,
                    n: nat, e: nat, x: int, y: int)
    requires 1 <= e <= n && |hm1| == size * size && |hm2| == size * size && smoothness != 0.0
    requires InGrid(x, y, size) && IsSquareCell(e, x, y)
    requires SquareOk(hm1, size, smoothness, draws, n, e, x, y)
    requires SquareOk(hm2, size, smoothness, draws, n, e, x, y)
    requires AgreeOn(hm1, hm2, size, Pow2(e)) && AgreeOnDiamonds(hm1, hm2, size, e)
    ensures hm1[Index(x, y, size)] == hm2[Index(x, y, size)]
  {
    var h, s := Pow2(e - 1), Pow2(e);
    assert s == 2 * h && s / 2 == h;
    RemShift(x, h);
    RemShift(y, h);
    if Rem(x, s) == h {
      if x - h >= 0 { assert OnLattice(x - h, y, s); }
      if x + h < size { assert OnLattice(x + h, y, s); }
      if y - h >= 0 { assert IsDiamondCell(e, x, y - h); }
      if y + h < size { assert IsDiamondCell(e, x, y + h); }
    } else {
      if y - h >= 0 { assert OnLattice(x, y - h, s); }
      if y + h < size { assert OnLattice(x, y + h, s); }
      if x - h >= 0 { assert IsDiamondCell(e, x - h, y); }
      if x + h < size { assert IsDiamondCell(e, x + h, y); }
    }
    SquareMeanAgree(hm1, hm2, x, y, s, h, size);
  }

  /** Agreement on the lattice of step 2^e spreads, through the cells of pass
      e, to the lattice of step 2^(e-1). */
  lemma PassAgree(hm1: seq<real>, hm2: seq<real>, size: int, smoothness: real, draws: nat -> nat, e: nat)
    requires ValidSize(size) && |hm1| == size * size && |hm2| == size * size && smoothness != 0.0
    requires Generated(hm1, size, smoothness, draws) && Generated(hm2, size, smoothness, draws)
    requires 1 <= e <= Log2(size - 1)
    requires AgreeOn(hm1, hm2, size, Pow2(e))
    ensures AgreeOn(hm1, hm2, size, Pow2(e - 1))
  {
    var n, h := Log2(size - 1), Pow2(e - 1);
    forall x, y | InGrid(x, y, size) && IsDiamondCell(e, x, y)
      ensures hm1[Index(x, y, size)] == hm2[Index(x, y, size)]
    {
      assert DiamondOk(hm1, size, smoothness, draws, n, e, x, y);
      assert DiamondOk(hm2, size, smoothness, draws, n, e, x, y);
      var d := Displacement(draws(DiamondDraw(n, e, x, y)), PassSmoothness(smoothness, n, e));
      DiamondAgree(hm1, hm2, size, e, x, y, d);
    }
    assert AgreeOnDiamonds(hm1, hm2, size, e);
    forall x, y | InGrid(x, y, size) && OnLattice(x, y, h)
      ensures hm1[Index(x, y, size)] == hm2[Index(x, y, size)]
    {
      RemHalf(x, h);
      RemHalf(y, h);
      if IsSquareCell(e, x, y) {
        assert SquareOk(hm1, size, smoothness, draws, n, e, x, y);
        assert SquareOk(hm2, size, smoothness, draws, n, e, x, y);
        SquareAgree(hm1, hm2, size, smoothness, draws, n, e, x, y);
      } else if !IsDiamondCell(e, x, y) {
        assert OnLattice(x, y, Pow2(e));
      }
    }
  }

  /** Agreement on the lattice of step 2^e reaches every cell. */
  lemma {:induction false} AgreeFrom(hm1: seq<real>, hm2: seq<real>, size: int, smoothness: real,
                                     draws: nat -> nat, e: nat)
    requires ValidSize(size) && |hm1| == size * size && |hm2| == size * size && smoothness != 0.0
    requires Generated(hm1, size, smoothness, draws) && Generated(hm2, size, smoothness, draws)
    requires e <= Log2(size - 1)
    requires AgreeOn(hm1, hm2, size, Pow2(e))
    ensures AgreeOn(hm1, hm2, size, 1)
    decreases e
  {
    if e > 0 {
      PassAgree(hm1, hm2, size, smoothness, draws, e);
      AgreeFrom(hm1, hm2, size, smoothness, draws, e - 1);
    }
  }

  /** Same draws, same grid: Generated determines the heightmap. With the
      draws coming from prng(seed), two runs with the same seed (or seed -1
      and the same clock reading) produce the same terrain. */
  lemma GeneratedUnique(hm1: seq<real>, hm2: seq<real>, size: int, smoothness: real, draws: nat -> nat)
    requires ValidSize(size) && |hm1| == size * size && |hm2| == size * size && smoothness != 0.0
    requires Generated(hm1, size, smoothness, draws) && Generated(hm2, size, smoothness, draws)
    ensures hm1 == hm2
  {
    var n, s := Log2(size - 1), size - 1;
    forall x, y | InGrid(x, y, size) && OnLattice(x, y, s)
      ensures hm1[Index(x, y, size)] == hm2[Index(x, y, size)]
    {
      RemEnds(x, s);
      RemEnds(y, s);
    }
    AgreeFrom(hm1, hm2, size, smoothness, draws, n);
    forall i | 0 <= i < size * size
      ensures hm1[i] == hm2[i]
    {
      IndexCovers(i, size);
      RemOne(i % size);
      RemOne(i / size);
      assert OnLattice(i % size, i / size, 1);
    }
  }
}
