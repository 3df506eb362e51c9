/** The bookkeeping behind diamondSquare of DiamondSquare.h: which cells are
    finished at each point of the loops, and why one step keeps that true. The
    ghost sequence `w` counts the writes each cell has received. */
module Progress {
  import opened Arith
  import opened Heightmap

  /** A diamond midpoint of pass e holds its value, and it and every cell
      its value was computed from are written. */
  ghost predicate DiamondDone(hm: seq<real>, w: seq<nat>, size: int, smoothness: real,
                              draws: nat -> nat, n: nat, e: nat, x: int, y: int)
    requires 1 <= e <= n && |hm| == size * size && |w| == size * size && smoothness != 0.0
  {
    var h := Pow2(e - 1);
    && DiamondOk(hm, size, smoothness, draws, n, e, x, y)
    && w[Index(x, y, size)] == 1
    && w[Index(x - h, y - h, size)] == 1 && w[Index(x + h, y - h, size)] == 1
    && w[Index(x - h, y + h, size)] == 1 && w[Index(x + h, y + h, size)] == 1
  }

  /** An edge midpoint of pass e holds its value, and it and every neighbour
      it read are written. */
  ghost predicate SquareDone(hm: seq<real>, w: seq<nat>, size: int, smoothness: real,
                             draws: nat -> nat, n: nat, e: nat, x: int, y: int)
    requires 1 <= e <= n && |hm| == size * size && |w| == size * size && smoothness != 0.0
  {
    var h := Pow2(e - 1);
    && SquareOk(hm, size, smoothness, draws, n, e, x, y)
    && w[Index(x, y, size)] == 1
    && (y - h >= 0 ==> w[Index(x, y - h, size)] == 1)
    && (y + h < size ==> w[Index(x, y + h, size)] == 1)
    && (x + h < size ==> w[Index(x + h, y, size)] == 1)
    && (x - h >= 0 ==> w[Index(x - h, y, size)] == 1)
  }

  ghost predicate CornersDone(hm: seq<real>, w: seq<nat>, size: int, smoothness: real, draws: nat -> nat)
    requires size >= 1 && |hm| == size * size && |w| == size * size && smoothness != 0.0
  {
    && CornersSeeded(hm, size, smoothness, draws)
    && w[Index(0, 0, size)] == 1 && w[Index(size - 1, 0, size)] == 1
    && w[Index(0, size - 1, size)] == 1 && w[Index(size - 1, size - 1, size)] == 1
  }

  /** Writing a cell nobody has written leaves the corners set. */
  lemma CornersFrame(hm: seq<real>, w: seq<nat>, size: int, smoothness: real, draws: nat -> nat,
                     p: int, v: real)
    requires size >= 1 && |hm| == size * size && |w| == size * size && smoothness != 0.0
    requires 0 <= p < size * size && w[p] == 0
    requires CornersDone(hm, w, size, smoothness, draws)
    ensures CornersDone(hm[p := v], w[p := 1], size, smoothness, draws)
  {
  }

  /** Writing a cell nobody has written leaves a finished diamond midpoint
      finished: none of the cells it depends on is that cell. */
  lemma DiamondDoneFrame(hm: seq<real>, w: seq<nat>, size: int, smoothness: real, draws: nat -> nat,
                         n: nat, e: nat, x: int, y: int, p: int, v: real)
    requires 1 <= e <= n && size >= 1 && |hm| == size * size && |w| == size * size && smoothness != 0.0
    requires 0 <= p < size * size && w[p] == 0
    requires DiamondDone(hm, w, size, smoothness, draws, n, e, x, y)
    ensures DiamondDone(hm[p := v], w[p := 1], size, smoothness, draws, n, e, x, y)
  {
    var h := Pow2(e - 1);
    DiamondMeanFrame(hm, x - h, y - h, Pow2(e), size, p, v);
  }

  /** Writing a cell nobody has written leaves a finished edge midpoint
      finished. */
  lemma SquareDoneFrame(hm: seq<real>, w: seq<nat>, size: int, smoothness: real, draws: nat -> nat,
                        n: nat, e: nat, x: int, y: int, p: int, v: real)
    requires 1 <= e <= n && size >= 1 && |hm| == size * size && |w| == size * size && smoothness != 0.0
    requires 0 <= p < size * size && w[p] == 0
    requires SquareDone(hm, w, size, smoothness, draws, n, e, x, y)
    ensures SquareDone(hm[p := v], w[p := 1], size, smoothness, draws, n, e, x, y)
  {
    var s, h := Pow2(e), Pow2(e - 1);
    assert s / 2 == h;
    SquareMeanFrame(hm, x, y, s, size, p, v);
  }

  /** Passes with a step size above 2^e are complete, and the corners are set. */
  ghost predicate EarlierPassesDone(hm: seq<real>, w: seq<nat>, size: int, smoothness: real,
                                    draws: nat -> nat, n: nat, e: nat)
    requires e <= n && size >= 1 && |hm| == size * size && |w| == size * size && smoothness != 0.0
  {
    && CornersDone(hm, w, size, smoothness, draws)
    && (forall e': nat, x, y {:trigger DiamondDone(hm, w, size, smoothness, draws, n, e', x, y)}
          | e < e' <= n && InGrid(x, y, size) && IsDiamondCell(e', x, y)
          :: DiamondDone(hm, w, size, smoothness, draws, n, e', x, y))
    && (forall e': nat, x, y {:trigger SquareDone(hm, w, size, smoothness, draws, n, e', x, y)}
          | e < e' <= n && InGrid(x, y, size) && IsSquareCell(e', x, y)
          :: SquareDone(hm, w, size, smoothness, draws, n, e', x, y))
  }

  /** Diamond midpoint (x, y) of pass e comes before cell (tx, ty) in the
      row-by-row order of the diamond loop. */
  ghost predicate DiamondBefore(e: nat, ty: int, tx: int, x: int, y: int)
    requires e >= 1 && 0 <= x && 0 <= y
  {
    && IsDiamondCell(e, x, y)
    && (Quot(y, Pow2(e)) < ty || (Quot(y, Pow2(e)) == ty && Quot(x, Pow2(e)) < tx))
  }

  /** Inside the diamond loop of pass e, before cell (tx, ty): the written
      cells are the lattice of step 2^e and the midpoints already visited. */
  ghost predicate DiamondCounts(w: seq<nat>, size: int, e: nat, ty: int, tx: int)
    requires 1 <= e && size >= 1 && |w| == size * size
  {
    forall x, y {:trigger w[Index(x, y, size)]} | InGrid(x, y, size)
      :: w[Index(x, y, size)] == if OnLattice(x, y, Pow2(e)) || DiamondBefore(e, ty, tx, x, y) then 1 else 0
  }

  /** The state inside the diamond loop of pass e, before cell (tx, ty). */
  ghost predicate DiamondPhase(hm: seq<real>, w: seq<nat>, size: int, smoothness: real,
                               draws: nat -> nat, n: nat, e: nat, ty: int, tx: int)
    requires 1 <= e <= n && size >= 1 && |hm| == size * size && |w| == size * size && smoothness != 0.0
  {
    && DiamondCounts(w, size, e, ty, tx)
    && (forall x, y {:trigger DiamondDone(hm, w, size, smoothness, draws, n, e, x, y)}
          | InGrid(x, y, size) && DiamondBefore(e, ty, tx, x, y)
          :: DiamondDone(hm, w, size, smoothness, draws, n, e, x, y))
  }

  /** A lattice point (cx, cy) = (a, b) * 2^e is written inside the diamond loop. */
  lemma DiamondCountsLattice(w: seq<nat>, size: int, e: nat, ty: int, tx: int, cx: int, cy: int, a: nat, b: nat)
    requires 1 <= e && size >= 1 && |w| == size * size
    requires DiamondCounts(w, size, e, ty, tx)
    requires cx == a * Pow2(e) && cy == b * Pow2(e) && cx < size && cy < size
    ensures 0 <= cx && 0 <= cy && w[Index(cx, cy, size)] == 1
  {
    QuotRemUnique(a, 0, Pow2(e));
    QuotRemUnique(b, 0, Pow2(e));
    assert OnLattice(cx, cy, Pow2(e));
  }

  /** The midpoint (mx, my) of cell (tx, ty) is still unwritten when the loop
      reaches it. */
  lemma DiamondCountsMidpoint(w: seq<nat>, size: int, e: nat, ty: nat, tx: nat, mx: int, my: int)
    requires 1 <= e && size >= 1 && |w| == size * size
    requires DiamondCounts(w, size, e, ty, tx)
    requires mx == tx * Pow2(e) + Pow2(e - 1) && my == ty * Pow2(e) + Pow2(e - 1)
    requires mx < size && my < size
    ensures 0 <= mx && 0 <= my && w[Index(mx, my, size)] == 0
  {
    var s, h := Pow2(e), Pow2(e - 1);
    MulNonNeg(tx, s);
    MulNonNeg(ty, s);
    QuotRemUnique(tx, h, s);
    QuotRemUnique(ty, h, s);
    assert !OnLattice(mx, my, s);
    assert !DiamondBefore(e, ty, tx, mx, my);
  }

  /** Cell t of a row of pass e spans t * 2^e .. (t + 1) * 2^e, inside the grid. */
  lemma CellInGrid(n: nat, e: nat, t: int, size: int)
    requires e <= n && size == Pow2(n) + 1 && 0 <= t < Pow2(n - e)
    ensures 0 <= t * Pow2(e) && t * Pow2(e) + Pow2(e) == (t + 1) * Pow2(e) < size
  {
    var s, c := Pow2(e), Pow2(n - e);
    Pow2Add(n - e, e);
    MulCancelLe(t + 1, c, s);
    MulNonNeg(t, s);
  }

  /** The cells diamondStep reads for cell (tx, ty), whose top-left corner is
      (x, y), are written; its midpoint (mx, my), the cell it writes, is not. */
  lemma DiamondReady(w: seq<nat>, size: int, n: nat, e: nat, ty: int, tx: int,
                     x: int, y: int, mx: int, my: int)
    requires 1 <= e <= n && size == Pow2(n) + 1 && |w| == size * size
    requires DiamondCounts(w, size, e, ty, tx)
    requires 0 <= ty < Pow2(n - e) && 0 <= tx < Pow2(n - e)
    requires x == tx * Pow2(e) && y == ty * Pow2(e)
    requires mx == x + Pow2(e - 1) && my == y + Pow2(e - 1)
    ensures 0 <= x && x + Pow2(e) < size && 0 <= y && y + Pow2(e) < size
    ensures w[Index(x, y, size)] == 1 && w[Index(x + Pow2(e), y, size)] == 1
    ensures w[Index(x, y + Pow2(e), size)] == 1 && w[Index(x + Pow2(e), y + Pow2(e), size)] == 1
    ensures w[Index(mx, my, size)] == 0
  {
    var s := Pow2(e);
    CellInGrid(n, e, tx, size);
    CellInGrid(n, e, ty, size);
    DiamondCountsLattice(w, size, e, ty, tx, x, y, tx, ty);
    DiamondCountsLattice(w, size, e, ty, tx, x + s, y, tx + 1, ty);
    DiamondCountsLattice(w, size, e, ty, tx, x, y + s, tx, ty + 1);
    DiamondCountsLattice(w, size, e, ty, tx, x + s, y + s, tx + 1, ty + 1);
    DiamondCountsMidpoint(w, size, e, ty, tx, mx, my);
  }

  /** Writing the midpoint (mx, my) of cell (tx, ty) moves the diamond loop on
      to the next cell. */
  lemma DiamondCountsAdvance(w: seq<nat>, size: int, e: nat, ty: int, tx: int, mx: int, my: int)
    requires 1 <= e && size >= 1 && |w| == size * size
    requires DiamondCounts(w, size, e, ty, tx)
    requires 0 <= ty && 0 <= tx
    requires mx == tx * Pow2(e) + Pow2(e - 1) && my == ty * Pow2(e) + Pow2(e - 1)
    requires mx < size && my < size
    ensures DiamondCounts(w[Index(mx, my, size) := 1], size, e, ty, tx + 1)
  {
    var s, h := Pow2(e), Pow2(e - 1);
    QuotRemUnique(tx, h, s);
    QuotRemUnique(ty, h, s);
    var w' := w[Index(mx, my, size) := 1];
    forall x1, y1 | InGrid(x1, y1, size)
      ensures w'[Index(x1, y1, size)]
              == if OnLattice(x1, y1, s) || DiamondBefore(e, ty, tx + 1, x1, y1) then 1 else 0
    {
      if x1 == mx && y1 == my {
        assert DiamondBefore(e, ty, tx + 1, x1, y1);
      } else {
        IndexDistinct(x1, y1, mx, my, size);
        QuotRem(x1, s);
        QuotRem(y1, s);
        assert DiamondBefore(e, ty, tx + 1, x1, y1) <==> DiamondBefore(e, ty, tx, x1, y1);
      }
    }
  }

  /** The midpoint (mx, my) of a cell is none of its corners. */
  lemma MidpointNotCorner(x: int, y: int, mx: int, my: int, s: int, size: int)
    requires 2 <= s && 0 <= x && 0 <= y && x + s < size && y + s < size
    requires 0 < mx - x < s && 0 < my - y < s
    ensures Index(mx, my, size) != Index(x, y, size) && Index(mx, my, size) != Index(x + s, y, size)
    ensures Index(mx, my, size) != Index(x, y + s, size) && Index(mx, my, size) != Index(x + s, y + s, size)
  {
    IndexDistinct(mx, my, x, y, size);
    IndexDistinct(mx, my, x + s, y, size);
    IndexDistinct(mx, my, x, y + s, size);
    IndexDistinct(mx, my, x + s, y + s, size);
  }

  /** The draw the loop hands to cell (tx, ty) is the one DiamondDraw assigns
      to its midpoint. */
  lemma DiamondDrawAt(n: nat, e: nat, ty: int, tx: int, mx: int, my: int)
    requires 1 <= e <= n && 0 <= ty && 0 <= tx
    requires mx == tx * Pow2(e) + Pow2(e - 1) && my == ty * Pow2(e) + Pow2(e - 1)
    ensures 0 <= mx && 0 <= my
    ensures DiamondDraw(n, e, mx, my) == PassBase(n, e) + ty * Pow2(n - e) + tx
  {
    var s, h := Pow2(e), Pow2(e - 1);
    MulNonNeg(tx, s);
    MulNonNeg(ty, s);
    QuotRemUnique(tx, h, s);
    QuotRemUnique(ty, h, s);
  }

  /** The midpoint (mx, my) diamondStep writes for cell (tx, ty) is finished. */
  lemma DiamondCellDone(hm: seq<real>, w: seq<nat>, size: int, smoothness: real, draws: nat -> nat,
                        n: nat, e: nat, ty: int, tx: int, x: int, y: int, mx: int, my: int, r: real,
                        p: int, v: real)
    requires 1 <= e <= n && |hm| == size * size && |w| == size * size
    requires smoothness != 0.0 && 0 <= ty && 0 <= tx
    requires x == tx * Pow2(e) && y == ty * Pow2(e)
    requires mx == x + Pow2(e - 1) && my == y + Pow2(e - 1)
    requires 0 <= x && x + Pow2(e) < size && 0 <= y && y + Pow2(e) < size
    requires w[Index(x, y, size)] == 1 && w[Index(x + Pow2(e), y, size)] == 1
    requires w[Index(x, y + Pow2(e), size)] == 1 && w[Index(x + Pow2(e), y + Pow2(e), size)] == 1
    requires r == Displacement(draws(PassBase(n, e) + ty * Pow2(n - e) + tx), PassSmoothness(smoothness, n, e))
    requires p == Index(mx, my, size) && v == DiamondMean(hm, x, y, Pow2(e), size) + r
    ensures DiamondDone(hm[p := v], w[p := 1], size, smoothness, draws, n, e, mx, my)
  {
    var s, h := Pow2(e), Pow2(e - 1);
    MidpointNotCorner(x, y, mx, my, s, size);
    DiamondOkAfterStep(hm, size, smoothness, draws, n, e, ty, tx, x, y, mx, my, r, p, v);
    assert mx - h == x && my - h == y;
  }

  /** The value diamondStep writes at the midpoint of cell (tx, ty) is the
      one DiamondOk asks for. */
  lemma DiamondOkAfterStep(hm: seq<real>, size: int, smoothness: real, draws: nat -> nat,
                           n: nat, e: nat, ty: int, tx: int, x: int, y: int, mx: int, my: int, r: real,
                           p: int, v: real)
    requires 1 <= e <= n && |hm| == size * size
    requires smoothness != 0.0 && 0 <= ty && 0 <= tx
    requires x == tx * Pow2(e) && y == ty * Pow2(e)
    requires mx == x + Pow2(e - 1) && my == y + Pow2(e - 1)
    requires 0 <= x && x + Pow2(e) < size && 0 <= y && y + Pow2(e) < size
    requires r == Displacement(draws(PassBase(n, e) + ty * Pow2(n - e) + tx), PassSmoothness(smoothness, n, e))
    requires p == Index(mx, my, size) && v == DiamondMean(hm, x, y, Pow2(e), size) + r
    ensures DiamondOk(hm[p := v], size, smoothness, draws, n, e, mx, my)
  {
    var s, h := Pow2(e), Pow2(e - 1);
    MidpointNotCorner(x, y, mx, my, s, size);
    DiamondMeanFrame(hm, x, y, s, size, p, v);
    DiamondDrawAt(n, e, ty, tx, mx, my);
    assert mx - h == x && my - h == y;
  }

  /** Writing an unwritten cell keeps the earlier passes finished. */
  lemma EarlierFrame(hm: seq<real>, w: seq<nat>, size: int, smoothness: real, draws: nat -> nat,
                     n: nat, e: nat, p: int, v: real)
    requires e <= n && size >= 1 && |hm| == size * size && |w| == size * size && smoothness != 0.0
    requires 0 <= p < size * size && w[p] == 0
    requires EarlierPassesDone(hm, w, size, smoothness, draws, n, e)
    ensures EarlierPassesDone(hm[p := v], w[p := 1], size, smoothness, draws, n, e)
  {
    CornersFrame(hm, w, size, smoothness, draws, p, v);
    forall e': nat, x, y | e < e' <= n && InGrid(x, y, size) && IsDiamondCell(e', x, y)
      ensures DiamondDone(hm[p := v], w[p := 1], size, smoothness, draws, n, e', x, y)
    {
      DiamondDoneFrame(hm, w, size, smoothness, draws, n, e', x, y, p, v);
    }
    forall e': nat, x, y | e < e' <= n && InGrid(x, y, size) && IsSquareCell(e', x, y)
      ensures SquareDone(hm[p := v], w[p := 1], size, smoothness, draws, n, e', x, y)
    {
      SquareDoneFrame(hm, w, size, smoothness, draws, n, e', x, y, p, v);
    }
  }

  /** The visited midpoints stay finished when the midpoint (mx, my) of cell
      (tx, ty) is written. */
  lemma DiamondCellsAdvance(hm: seq<real>, w: seq<nat>, size: int, smoothness: real, draws: nat -> nat,
                            n: nat, e: nat, ty: int, tx: int, mx: int, my: int, v: real)
    requires 1 <= e <= n && size >= 1 && |hm| == size * size && |w| == size * size
    requires smoothness != 0.0 && 0 <= tx && 0 <= ty
    requires mx == tx * Pow2(e) + Pow2(e - 1) && my == ty * Pow2(e) + Pow2(e - 1)
    requires mx < size && my < size
    requires w[Index(mx, my, size)] == 0
    requires forall x1, y1 {:trigger DiamondDone(hm, w, size, smoothness, draws, n, e, x1, y1)}
               | InGrid(x1, y1, size) && DiamondBefore(e, ty, tx, x1, y1)
               :: DiamondDone(hm, w, size, smoothness, draws, n, e, x1, y1)
    requires DiamondDone(hm[Index(mx, my, size) := v], w[Index(mx, my, size) := 1],
                         size, smoothness, draws, n, e, mx, my)
    ensures forall x1, y1 {:trigger DiamondDone(hm[Index(mx, my, size) := v], w[Index(mx, my, size) := 1],
                                                size, smoothness, draws, n, e, x1, y1)}
              | InGrid(x1, y1, size) && DiamondBefore(e, ty, tx + 1, x1, y1)
              :: DiamondDone(hm[Index(mx, my, size) := v], w[Index(mx, my, size) := 1],
                             size, smoothness, draws, n, e, x1, y1)
  {
    var s, h := Pow2(e), Pow2(e - 1);
    MulNonNeg(tx, s);
    MulNonNeg(ty, s);
    QuotRemUnique(tx, h, s);
    QuotRemUnique(ty, h, s);
    var p := Index(mx, my, size);
    forall x1, y1 | InGrid(x1, y1, size) && DiamondBefore(e, ty, tx + 1, x1, y1)
      ensures DiamondDone(hm[p := v], w[p := 1], size, smoothness, draws, n, e, x1, y1)
    {
      QuotRem(x1, s);
      QuotRem(y1, s);
      if !DiamondBefore(e, ty, tx, x1, y1) {
        assert x1 == mx && y1 == my;
      } else {
        DiamondDoneFrame(hm, w, size, smoothness, draws, n, e, x1, y1, p, v);
      }
    }
  }

  /** One diamondStep carries the diamond-loop state from cell (tx, ty) to
      the next cell of the row. */
  lemma DiamondPhaseAdvance(hm: seq<real>, w: seq<nat>, size: int, smoothness: real, draws: nat -> nat,
                            n: nat, e: nat, ty: int, tx: int, x: int, y: int, mx: int, my: int, r: real,
                            p: int, v: real)
    requires 1 <= e <= n && size == Pow2(n) + 1 && |hm| == size * size && |w| == size * size
    requires smoothness != 0.0
    requires DiamondPhase(hm, w, size, smoothness, draws, n, e, ty, tx)
    requires 0 <= ty < Pow2(n - e) && 0 <= tx < Pow2(n - e)
    requires x == tx * Pow2(e) && y == ty * Pow2(e)
    requires mx == x + Pow2(e - 1) && my == y + Pow2(e - 1)
    requires 0 <= x && x + Pow2(e) < size && 0 <= y && y + Pow2(e) < size
    requires r == Displacement(draws(PassBase(n, e) + ty * Pow2(n - e) + tx), PassSmoothness(smoothness, n, e))
    requires p == Index(mx, my, size) && v == DiamondMean(hm, x, y, Pow2(e), size) + r
    ensures DiamondPhase(hm[p := v], w[p := 1], size, smoothness, draws, n, e, ty, tx + 1)
  {
    DiamondReady(w, size, n, e, ty, tx, x, y, mx, my);
    DiamondCountsAdvance(w, size, e, ty, tx, mx, my);
    DiamondCellDone(hm, w, size, smoothness, draws, n, e, ty, tx, x, y, mx, my, r, p, v);
    DiamondCellsAdvance(hm, w, size, smoothness, draws, n, e, ty, tx, mx, my, v);
  }

  /** Between passes: the written cells are exactly the lattice of step 2^e. */
  ghost predicate LatticeCounts(w: seq<nat>, size: int, e: nat)
    requires size >= 1 && |w| == size * size
  {
    forall x, y {:trigger w[Index(x, y, size)]} | InGrid(x, y, size)
      :: w[Index(x, y, size)] == if OnLattice(x, y, Pow2(e)) then 1 else 0
  }

  /** The state at the head of the stepSize loop, with stepSize = 2^e. */
  ghost predicate PassStart(hm: seq<real>, w: seq<nat>, size: int, smoothness: real,
                            draws: nat -> nat, n: nat, e: nat)
    requires e <= n && size >= 1 && |hm| == size * size && |w| == size * size && smoothness != 0.0
  {
    EarlierPassesDone(hm, w, size, smoothness, draws, n, e) && LatticeCounts(w, size, e)
  }

  /** Entering the diamond loop: no midpoint has been visited yet. */
  lemma DiamondPhaseStart(hm: seq<real>, w: seq<nat>, size: int, smoothness: real,
                          draws: nat -> nat, n: nat, e: nat)
    requires 1 <= e <= n && size >= 1 && |hm| == size * size && |w| == size * size && smoothness != 0.0
    requires LatticeCounts(w, size, e)
    ensures DiamondPhase(hm, w, size, smoothness, draws, n, e, 0, 0)
  {
    forall x, y | InGrid(x, y, size)
      ensures !DiamondBefore(e, 0, 0, x, y)
    {
      QuotRem(x, Pow2(e));
      QuotRem(y, Pow2(e));
    }
  }

  /** A diamond midpoint of the grid lies in one of the c = 2^(n-e) cells of
      its row and column. */
  lemma DiamondCellPosition(n: nat, e: nat, size: int, x: int, y: int)
    requires 1 <= e <= n && size == Pow2(n) + 1 && InGrid(x, y, size) && IsDiamondCell(e, x, y)
    ensures Quot(x, Pow2(e)) < Pow2(n - e) && Quot(y, Pow2(e)) < Pow2(n - e)
  {
    Pow2Add(n - e, e);
    QuotBelow(x, Pow2(e), Pow2(n - e));
    QuotBelow(y, Pow2(e), Pow2(n - e));
  }

  /** The end of a row of the diamond loop is the start of the next row. */
  lemma DiamondRowEnd(hm: seq<real>, w: seq<nat>, size: int, smoothness: real,
                      draws: nat -> nat, n: nat, e: nat, ty: int)
    requires 1 <= e <= n && size == Pow2(n) + 1 && |hm| == size * size && |w| == size * size
    requires smoothness != 0.0
    requires DiamondPhase(hm, w, size, smoothness, draws, n, e, ty, Pow2(n - e))
    ensures DiamondPhase(hm, w, size, smoothness, draws, n, e, ty + 1, 0)
  {
    forall x, y | InGrid(x, y, size)
      ensures DiamondBefore(e, ty + 1, 0, x, y) <==> DiamondBefore(e, ty, Pow2(n - e), x, y)
    {
      QuotRem(x, Pow2(e));
      if IsDiamondCell(e, x, y) {
        DiamondCellPosition(n, e, size, x, y);
      }
    }
  }

  /** Edge midpoint (x, y) of pass e comes before point t of row j (y = j * 2^(e-1))
      in the order of the square loop. */
  ghost predicate SquareBefore(e: nat, j: int, t: int, x: int, y: int)
    requires e >= 1 && 0 <= x && 0 <= y
  {
    && IsSquareCell(e, x, y)
    && (Quot(y, Pow2(e - 1)) < j || (Quot(y, Pow2(e - 1)) == j && Quot(x, Pow2(e)) < t))
  }

  /** Inside the square loop of pass e, before point t of row j: the written
      cells are the lattice of step 2^e, every diamond midpoint and the edge
      midpoints already visited. */
  ghost predicate SquareCounts(w: seq<nat>, size: int, e: nat, j: int, t: int)
    requires 1 <= e && size >= 1 && |w| == size * size
  {
    forall x, y {:trigger w[Index(x, y, size)]} | InGrid(x, y, size)
      :: w[Index(x, y, size)]
         == if OnLattice(x, y, Pow2(e)) || IsDiamondCell(e, x, y) || SquareBefore(e, j, t, x, y) then 1 else 0
  }

  /** The state inside the square loop of pass e, before point t of row j. */
  ghost predicate SquarePhase(hm: seq<real>, w: seq<nat>, size: int, smoothness: real,
                              draws: nat -> nat, n: nat, e: nat, j: int, t: int)
    requires 1 <= e <= n && size >= 1 && |hm| == size * size && |w| == size * size && smoothness != 0.0
  {
    && SquareCounts(w, size, e, j, t)
    && (forall x, y {:trigger DiamondDone(hm, w, size, smoothness, draws, n, e, x, y)}
          | InGrid(x, y, size) && IsDiamondCell(e, x, y)
          :: DiamondDone(hm, w, size, smoothness, draws, n, e, x, y))
    && (forall x, y {:trigger SquareDone(hm, w, size, smoothness, draws, n, e, x, y)}
          | InGrid(x, y, size) && SquareBefore(e, j, t, x, y)
          :: SquareDone(hm, w, size, smoothness, draws, n, e, x, y))
  }

  /** Leaving the diamond loop after its last row: every diamond midpoint is
      finished and the square loop starts. */
  lemma DiamondToSquare(hm: seq<real>, w: seq<nat>, size: int, smoothness: real,
                        draws: nat -> nat, n: nat, e: nat)
    requires 1 <= e <= n && size == Pow2(n) + 1 && |hm| == size * size && |w| == size * size
    requires smoothness != 0.0
    requires DiamondPhase(hm, w, size, smoothness, draws, n, e, Pow2(n - e), 0)
    ensures SquarePhase(hm, w, size, smoothness, draws, n, e, 0, 0)
  {
    forall x, y | InGrid(x, y, size)
      ensures IsDiamondCell(e, x, y) <==> DiamondBefore(e, Pow2(n - e), 0, x, y)
      ensures !SquareBefore(e, 0, 0, x, y)
    {
      QuotRem(x, Pow2(e));
      QuotRem(y, Pow2(e - 1));
      if IsDiamondCell(e, x, y) {
        DiamondCellPosition(n, e, size, x, y);
      }
    }
    forall x, y | InGrid(x, y, size) && IsDiamondCell(e, x, y)
      ensures DiamondDone(hm, w, size, smoothness, draws, n, e, x, y)
    {
      assert DiamondBefore(e, Pow2(n - e), 0, x, y);
    }
  }

  /** The first x of row j of the square loop: rows at a multiple of 2^e
      start at 2^(e-1), the rows between them at 0. */
  function RowOffset(e: nat, j: int): int
    requires e >= 1
  {
    if j % 2 == 0 then Pow2(e - 1) else 0
  }

  /** Row j of the square loop, y = j * 2^(e-1), decomposed by 2^e and by
      2^(e-1). */
  lemma SquareRow(e: nat, j: nat, y: int)
    requires e >= 1 && y == j * Pow2(e - 1)
    ensures 0 <= y
    ensures Quot(y, Pow2(e - 1)) == j && Rem(y, Pow2(e - 1)) == 0
    ensures Quot(y, Pow2(e)) == j / 2 && Rem(y, Pow2(e)) == (if j % 2 == 0 then 0 else Pow2(e - 1))
  {
    var s, h := Pow2(e), Pow2(e - 1);
    var q, odd := j / 2, j % 2;
    MulNonNeg(j, h);
    QuotRemUnique(j, 0, h);
    assert j * h == (2 * q + odd) * h;
    assert y == q * s + odd * h;
    QuotRemUnique(q, odd * h, s);
  }

  /** Point t of row j of the square loop, (t * 2^e + RowOffset(e, j), j * 2^(e-1)),
      decomposed by 2^e and by 2^(e-1). */
  lemma SquarePoint(e: nat, j: nat, t: nat, x: int, y: int)
    requires e >= 1 && x == t * Pow2(e) + RowOffset(e, j) && y == j * Pow2(e - 1)
    ensures 0 <= x && 0 <= y
    ensures Quot(y, Pow2(e - 1)) == j && Rem(y, Pow2(e - 1)) == 0
    ensures Quot(y, Pow2(e)) == j / 2 && Rem(y, Pow2(e)) == (if j % 2 == 0 then 0 else Pow2(e - 1))
    ensures Quot(x, Pow2(e)) == t && Rem(x, Pow2(e)) == RowOffset(e, j)
    ensures IsSquareCell(e, x, y)
  {
    MulNonNeg(t, Pow2(e));
    QuotRemUnique(t, RowOffset(e, j), Pow2(e));
    SquareRow(e, j, y);
  }

  /** Inside the square loop every lattice point and diamond midpoint of the
      pass is written. */
  lemma SquareCountsWritten(w: seq<nat>, size: int, e: nat, j: int, t: int, x: int, y: int)
    requires 1 <= e && size >= 1 && |w| == size * size
    requires SquareCounts(w, size, e, j, t) && InGrid(x, y, size)
    requires Rem(x, Pow2(e)) == Rem(y, Pow2(e))
    requires Rem(x, Pow2(e)) == 0 || Rem(x, Pow2(e)) == Pow2(e - 1)
    ensures w[Index(x, y, size)] == 1
  {
    assert OnLattice(x, y, Pow2(e)) || IsDiamondCell(e, x, y);
  }

  /** Inside the square loop, point t of row j is not yet written. */
  lemma SquareCountsUnwritten(w: seq<nat>, size: int, e: nat, j: int, t: int, x: int, y: int)
    requires 1 <= e && size >= 1 && |w| == size * size
    requires SquareCounts(w, size, e, j, t) && InGrid(x, y, size)
    requires IsSquareCell(e, x, y) && Quot(y, Pow2(e - 1)) == j && Quot(x, Pow2(e)) == t
    ensures w[Index(x, y, size)] == 0
  {
    assert !SquareBefore(e, j, t, x, y);
  }

  /** The neighbours squareStep reads for point (x, y) of row j are written;
      the point itself is not. */
  lemma SquareReady(w: seq<nat>, size: int, e: nat, j: nat, t: nat, x: int, y: int, stepSize: int)
    requires 1 <= e && size >= 1 && |w| == size * size && stepSize == Pow2(e)
    requires SquareCounts(w, size, e, j, t)
    requires x == t * Pow2(e) + RowOffset(e, j) && y == j * Pow2(e - 1)
    requires x < size && y < size
    ensures 0 <= x && 0 <= y
    ensures y - stepSize / 2 >= 0 ==> w[Index(x, y - stepSize / 2, size)] == 1
    ensures y + stepSize / 2 < size ==> w[Index(x, y + stepSize / 2, size)] == 1
    ensures x + stepSize / 2 < size ==> w[Index(x + stepSize / 2, y, size)] == 1
    ensures x - stepSize / 2 >= 0 ==> w[Index(x - stepSize / 2, y, size)] == 1
    ensures w[Index(x, y, size)] == 0
  {
    var s, h := Pow2(e), Pow2(e - 1);
    assert s / 2 == h;
    SquarePoint(e, j, t, x, y);
    RemShift(x, h);
    RemShift(y, h);
    if y - h >= 0 { SquareCountsWritten(w, size, e, j, t, x, y - h); }
    if y + h < size { SquareCountsWritten(w, size, e, j, t, x, y + h); }
    if x + h < size { SquareCountsWritten(w, size, e, j, t, x + h, y); }
    if x - h >= 0 { SquareCountsWritten(w, size, e, j, t, x - h, y); }
    SquareCountsUnwritten(w, size, e, j, t, x, y);
  }

  /** Point t of row j is the only edge midpoint with row j and column t. */
  lemma SquarePointUnique(e: nat, j: nat, t: nat, x: int, y: int, x1: int, y1: int)
    requires e >= 1 && x == t * Pow2(e) + RowOffset(e, j) && y == j * Pow2(e - 1)
    requires 0 <= x1 && 0 <= y1 && IsSquareCell(e, x1, y1)
    requires Quot(y1, Pow2(e - 1)) == j && Quot(x1, Pow2(e)) == t
    ensures x1 == x && y1 == y
  {
    var s, h := Pow2(e), Pow2(e - 1);
    SquarePoint(e, j, t, x, y);
    RemHalf(y1, h);
    QuotRem(y1, h);
    assert y1 == y;
    QuotRem(x1, s);
  }

  /** Writing point t of row j moves the square loop on to point t + 1. */
  lemma SquareCountsAdvance(w: seq<nat>, size: int, e: nat, j: nat, t: nat, x: int, y: int)
    requires 1 <= e && size >= 1 && |w| == size * size
    requires SquareCounts(w, size, e, j, t)
    requires x == t * Pow2(e) + RowOffset(e, j) && y == j * Pow2(e - 1)
    requires 0 <= x < size && 0 <= y < size
    ensures SquareCounts(w[Index(x, y, size) := 1], size, e, j, t + 1)
  {
    SquarePoint(e, j, t, x, y);
    var w' := w[Index(x, y, size) := 1];
    forall x1, y1 | InGrid(x1, y1, size)
      ensures w'[Index(x1, y1, size)]
              == if OnLattice(x1, y1, Pow2(e)) || IsDiamondCell(e, x1, y1) || SquareBefore(e, j, t + 1, x1, y1)
                 then 1 else 0
    {
      if x1 == x && y1 == y {
        assert SquareBefore(e, j, t + 1, x1, y1);
      } else {
        IndexDistinct(x1, y1, x, y, size);
        if IsSquareCell(e, x1, y1) && Quot(y1, Pow2(e - 1)) == j && Quot(x1, Pow2(e)) == t {
          SquarePointUnique(e, j, t, x, y, x1, y1);
        }
        assert SquareBefore(e, j, t + 1, x1, y1) <==> SquareBefore(e, j, t, x1, y1);
      }
    }
  }

  /** Draws taken by the square loop before row j, with c = 2^(n-e): rows at
      a multiple of 2^e hold c points, the rows between them c + 1. */
  function SquareRowBase(c: nat, j: nat): (k: nat)
    ensures j % 2 == 0 ==> k == (j / 2) * (2 * c + 1)
  {
    MulNonNeg(j / 2, 2 * c + 1);
    (j / 2) * (2 * c + 1) + (if j % 2 == 0 then 0 else c)
  }

  /** The draw the loop hands to point t of row j is the one SquareDraw
      assigns to it. */
  lemma SquareDrawAt(n: nat, e: nat, j: nat, t: nat, x: int, y: int)
    requires 1 <= e <= n && x == t * Pow2(e) + RowOffset(e, j) && y == j * Pow2(e - 1)
    ensures 0 <= x && 0 <= y
    ensures SquareDraw(n, e, x, y)
            == PassBase(n, e) + Pow2(n - e) * Pow2(n - e) + SquareRowBase(Pow2(n - e), j) + t
  {
    SquarePoint(e, j, t, x, y);
  }

  /** The value squareStep writes at point t of row j is the one SquareOk
      asks for. */
  lemma SquareOkAfterStep(hm: seq<real>, size: int, smoothness: real, draws: nat -> nat,
                          n: nat, e: nat, j: nat, t: nat, x: int, y: int, r: real, p: int, v: real)
    requires 1 <= e <= n && |hm| == size * size && smoothness != 0.0
    requires x == t * Pow2(e) + RowOffset(e, j) && y == j * Pow2(e - 1)
    requires 0 <= x < size && 0 <= y < size
    requires r == Displacement(draws(PassBase(n, e) + Pow2(n - e) * Pow2(n - e)
                                     + SquareRowBase(Pow2(n - e), j) + t),
                               PassSmoothness(smoothness, n, e))
    requires p == Index(x, y, size) && v == SquareMean(hm, x, y, Pow2(e), size) + r
    ensures SquareOk(hm[p := v], size, smoothness, draws, n, e, x, y)
  {
    var s, h := Pow2(e), Pow2(e - 1);
    assert s / 2 == h;
    if y - h >= 0 { IndexDistinct(x, y, x, y - h, size); }
    if y + h < size { IndexDistinct(x, y, x, y + h, size); }
    if x + h < size { IndexDistinct(x, y, x + h, y, size); }
    if x - h >= 0 { IndexDistinct(x, y, x - h, y, size); }
    SquareMeanFrame(hm, x, y, s, size, p, v);
    SquareDrawAt(n, e, j, t, x, y);
  }

  /** The point squareStep writes at point t of row j is finished. */
  lemma SquareCellDone(hm: seq<real>, w: seq<nat>, size: int, smoothness: real, draws: nat -> nat,
                       n: nat, e: nat, j: nat, t: nat, x: int, y: int, r: real, stepSize: int, p: int, v: real)
    requires 1 <= e <= n && |hm| == size * size && |w| == size * size && smoothness != 0.0
    requires stepSize == Pow2(e)
    requires x == t * Pow2(e) + RowOffset(e, j) && y == j * Pow2(e - 1)
    requires 0 <= x < size && 0 <= y < size
    requires y - stepSize / 2 >= 0 ==> w[Index(x, y - stepSize / 2, size)] == 1
    requires y + stepSize / 2 < size ==> w[Index(x, y + stepSize / 2, size)] == 1
    requires x + stepSize / 2 < size ==> w[Index(x + stepSize / 2, y, size)] == 1
    requires x - stepSize / 2 >= 0 ==> w[Index(x - stepSize / 2, y, size)] == 1
    requires r == Displacement(draws(PassBase(n, e) + Pow2(n - e) * Pow2(n - e)
                                     + SquareRowBase(Pow2(n - e), j) + t),
                               PassSmoothness(smoothness, n, e))
    requires p == Index(x, y, size) && v == SquareMean(hm, x, y, Pow2(e), size) + r
    ensures SquareDone(hm[p := v], w[p := 1], size, smoothness, draws, n, e, x, y)
  {
    var s, h := Pow2(e), Pow2(e - 1);
    assert s / 2 == h;
    SquarePoint(e, j, t, x, y);
    WrittenAround(w, size, x, y, h, p);
    SquareOkAfterStep(hm, size, smoothness, draws, n, e, j, t, x, y, r, p, v);
  }

  /** Marking cell (x, y) written keeps its written neighbours at distance h
      written. */
  lemma WrittenAround(w: seq<nat>, size: int, x: int, y: int, h: int, p: int)
    requires |w| == size * size && 0 <= x < size && 0 <= y < size && h >= 1 && p == Index(x, y, size)
    requires y - h >= 0 ==> w[Index(x, y - h, size)] == 1
    requires y + h < size ==> w[Index(x, y + h, size)] == 1
    requires x + h < size ==> w[Index(x + h, y, size)] == 1
    requires x - h >= 0 ==> w[Index(x - h, y, size)] == 1
    ensures w[p := 1][p] == 1
    ensures y - h >= 0 ==> w[p := 1][Index(x, y - h, size)] == 1
    ensures y + h < size ==> w[p := 1][Index(x, y + h, size)] == 1
    ensures x + h < size ==> w[p := 1][Index(x + h, y, size)] == 1
    ensures x - h >= 0 ==> w[p := 1][Index(x - h, y, size)] == 1
  {
    if y - h >= 0 { IndexDistinct(x, y, x, y - h, size); }
    if y + h < size { IndexDistinct(x, y, x, y + h, size); }
    if x + h < size { IndexDistinct(x, y, x + h, y, size); }
    if x - h >= 0 { IndexDistinct(x, y, x - h, y, size); }
  }

  /** Writing an unwritten cell keeps every diamond midpoint of pass e finished. */
  lemma DiamondCellsFrame(hm: seq<real>, w: seq<nat>, size: int, smoothness: real, draws: nat -> nat,
                          n: nat, e: nat, p: int, v: real)
    requires 1 <= e <= n && size >= 1 && |hm| == size * size && |w| == size * size && smoothness != 0.0
    requires 0 <= p < size * size && w[p] == 0
    requires forall x, y {:trigger DiamondDone(hm, w, size, smoothness, draws, n, e, x, y)}
               | InGrid(x, y, size) && IsDiamondCell(e, x, y)
               :: DiamondDone(hm, w, size, smoothness, draws, n, e, x, y)
    ensures forall x, y {:trigger DiamondDone(hm[p := v], w[p := 1], size, smoothness, draws, n, e, x, y)}
              | InGrid(x, y, size) && IsDiamondCell(e, x, y)
              :: DiamondDone(hm[p := v], w[p := 1], size, smoothness, draws, n, e, x, y)
  {
    forall x, y | InGrid(x, y, size) && IsDiamondCell(e, x, y)
      ensures DiamondDone(hm[p := v], w[p := 1], size, smoothness, draws, n, e, x, y)
    {
      DiamondDoneFrame(hm, w, size, smoothness, draws, n, e, x, y, p, v);
    }
  }

  /** The visited edge midpoints stay finished when point t of row j is written. */
  lemma SquareCellsAdvance(hm: seq<real>, w: seq<nat>, size: int, smoothness: real, draws: nat -> nat,
                           n: nat, e: nat, j: nat, t: nat, x: int, y: int, p: int, v: real)
    requires 1 <= e <= n && size >= 1 && |hm| == size * size && |w| == size * size && smoothness != 0.0
    requires x == t * Pow2(e) + RowOffset(e, j) && y == j * Pow2(e - 1)
    requires 0 <= x < size && 0 <= y < size && p == Index(x, y, size)
    requires w[p] == 0
    requires forall x1, y1 {:trigger SquareDone(hm, w, size, smoothness, draws, n, e, x1, y1)}
               | InGrid(x1, y1, size) && SquareBefore(e, j, t, x1, y1)
               :: SquareDone(hm, w, size, smoothness, draws, n, e, x1, y1)
    requires SquareDone(hm[p := v], w[p := 1], size, smoothness, draws, n, e, x, y)
    ensures forall x1, y1 {:trigger SquareDone(hm[p := v], w[p := 1], size, smoothness, draws, n, e, x1, y1)}
              | InGrid(x1, y1, size) && SquareBefore(e, j, t + 1, x1, y1)
              :: SquareDone(hm[p := v], w[p := 1], size, smoothness, draws, n, e, x1, y1)
  {
    forall x1, y1 | InGrid(x1, y1, size) && SquareBefore(e, j, t + 1, x1, y1)
      ensures SquareDone(hm[p := v], w[p := 1], size, smoothness, draws, n, e, x1, y1)
    {
      if SquareBefore(e, j, t, x1, y1) {
        SquareDoneFrame(hm, w, size, smoothness, draws, n, e, x1, y1, p, v);
      } else {
        SquarePointUnique(e, j, t, x, y, x1, y1);
      }
    }
  }

  /** One squareStep carries the square-loop state from point t of row j to
      point t + 1. */
  lemma SquarePhaseAdvance(hm: seq<real>, w: seq<nat>, size: int, smoothness: real, draws: nat -> nat,
                           n: nat, e: nat, j: nat, t: nat, x: int, y: int, r: real, p: int, v: real)
    requires 1 <= e <= n && size >= 1 && |hm| == size * size && |w| == size * size && smoothness != 0.0
    requires SquarePhase(hm, w, size, smoothness, draws, n, e, j, t)
    requires x == t * Pow2(e) + RowOffset(e, j) && y == j * Pow2(e - 1)
    requires 0 <= x < size && 0 <= y < size
    requires r == Displacement(draws(PassBase(n, e) + Pow2(n - e) * Pow2(n - e)
                                     + SquareRowBase(Pow2(n - e), j) + t),
                               PassSmoothness(smoothness, n, e))
    requires p == Index(x, y, size) && v == SquareMean(hm, x, y, Pow2(e), size) + r
    ensures SquarePhase(hm[p := v], w[p := 1], size, smoothness, draws, n, e, j, t + 1)
  {
    var stepSize := Pow2(e);
    SquareReady(w, size, e, j, t, x, y, stepSize);
    SquareCountsAdvance(w, size, e, j, t, x, y);
    SquareCellDone(hm, w, size, smoothness, draws, n, e, j, t, x, y, r, stepSize, p, v);
    DiamondCellsFrame(hm, w, size, smoothness, draws, n, e, p, v);
    SquareCellsAdvance(hm, w, size, smoothness, draws, n, e, j, t, x, y, p, v);
  }

  /** An edge midpoint in row j of the square loop lies on that row, at the
      row's offset modulo 2^e. */
  lemma SquareRowCell(e: nat, j: nat, x: int, y: int)
    requires e >= 1 && 0 <= x && 0 <= y && IsSquareCell(e, x, y) && Quot(y, Pow2(e - 1)) == j
    ensures y == j * Pow2(e - 1) && Rem(x, Pow2(e)) == RowOffset(e, j)
  {
    var h := Pow2(e - 1);
    RemHalf(y, h);
    QuotRem(y, h);
    SquareRow(e, j, y);
  }

  /** The end of a row of the square loop (x has passed the grid) is the
      start of the next row. */
  lemma SquareRowEnd(hm: seq<real>, w: seq<nat>, size: int, smoothness: real,
                     draws: nat -> nat, n: nat, e: nat, j: nat, t: nat)
    requires 1 <= e <= n && size >= 1 && |hm| == size * size && |w| == size * size
    requires smoothness != 0.0
    requires SquarePhase(hm, w, size, smoothness, draws, n, e, j, t)
    requires t * Pow2(e) + RowOffset(e, j) >= size
    ensures SquarePhase(hm, w, size, smoothness, draws, n, e, j + 1, 0)
  {
    forall x, y | InGrid(x, y, size)
      ensures SquareBefore(e, j + 1, 0, x, y) <==> SquareBefore(e, j, t, x, y)
    {
      QuotRem(x, Pow2(e));
      QuotRem(y, Pow2(e - 1));
      if IsSquareCell(e, x, y) && Quot(y, Pow2(e - 1)) == j {
        SquareRowCell(e, j, x, y);
        QuotBelow(x, Pow2(e), t);
      }
    }
  }

  /** Every edge midpoint of the grid lies in one of the rows 0 .. 2c of the
      square loop, c = 2^(n-e). */
  lemma SquareCellRow(n: nat, e: nat, size: int, x: int, y: int)
    requires 1 <= e <= n && size == Pow2(n) + 1 && InGrid(x, y, size)
    ensures Quot(y, Pow2(e - 1)) < 2 * Pow2(n - e) + 1
  {
    var h, c := Pow2(e - 1), Pow2(n - e);
    Pow2Add(n - e + 1, e - 1);
    assert Pow2(n - e + 1) == 2 * c;
    assert y <= (2 * c) * h;
    assert (2 * c + 1) * h == (2 * c) * h + h;
    QuotRem(y, h);
    QuotBelow(y, h, 2 * c + 1);
  }

  /** After the last row of the square loop the lattice of step 2^(e-1) is
      written: the next pass starts. */
  lemma SquareLatticeEnd(w: seq<nat>, size: int, n: nat, e: nat)
    requires 1 <= e <= n && size == Pow2(n) + 1 && |w| == size * size
    requires SquareCounts(w, size, e, 2 * Pow2(n - e) + 1, 0)
    ensures LatticeCounts(w, size, e - 1)
  {
    var h := Pow2(e - 1);
    forall x, y | InGrid(x, y, size)
      ensures OnLattice(x, y, h)
              <==> OnLattice(x, y, Pow2(e)) || IsDiamondCell(e, x, y) || SquareBefore(e, 2 * Pow2(n - e) + 1, 0, x, y)
    {
      RemHalf(x, h);
      RemHalf(y, h);
      SquareCellRow(n, e, size, x, y);
    }
  }

  /** After the last row of the square loop every edge midpoint of pass e
      is finished. */
  lemma SquareAllDone(hm: seq<real>, w: seq<nat>, size: int, smoothness: real,
                      draws: nat -> nat, n: nat, e: nat)
    requires 1 <= e <= n && size == Pow2(n) + 1 && |hm| == size * size && |w| == size * size
    requires smoothness != 0.0
    requires SquarePhase(hm, w, size, smoothness, draws, n, e, 2 * Pow2(n - e) + 1, 0)
    ensures forall x, y {:trigger SquareDone(hm, w, size, smoothness, draws, n, e, x, y)}
              | InGrid(x, y, size) && IsSquareCell(e, x, y)
              :: SquareDone(hm, w, size, smoothness, draws, n, e, x, y)
  {
    forall x, y | InGrid(x, y, size) && IsSquareCell(e, x, y)
      ensures SquareDone(hm, w, size, smoothness, draws, n, e, x, y)
    {
      SquareCellRow(n, e, size, x, y);
      assert SquareBefore(e, 2 * Pow2(n - e) + 1, 0, x, y);
    }
  }

  /** After the last row of the square loop every cell of pass e is finished:
      the next pass starts. */
  lemma SquarePassEnd(hm: seq<real>, w: seq<nat>, size: int, smoothness: real,
                      draws: nat -> nat, n: nat, e: nat)
    requires 1 <= e <= n && size == Pow2(n) + 1 && |hm| == size * size && |w| == size * size
    requires smoothness != 0.0
    requires EarlierPassesDone(hm, w, size, smoothness, draws, n, e)
    requires SquarePhase(hm, w, size, smoothness, draws, n, e, 2 * Pow2(n - e) + 1, 0)
    ensures PassStart(hm, w, size, smoothness, draws, n, e - 1)
  {
    SquareLatticeEnd(w, size, n, e);
    SquareAllDone(hm, w, size, smoothness, draws, n, e);
  }

  /** The write counts right after the four corners are seeded. */
  ghost function SeedCounts(size: int): (w: seq<nat>)
    requires size >= 1
    ensures |w| == size * size
  {
    MulNonNeg(size, size);
    seq(size * size, i => if i == Index(0, 0, size) || i == Index(size - 1, 0, size)
                             || i == Index(0, size - 1, size) || i == Index(size - 1, size - 1, size)
                          then 1 else 0)
  }

  /** Once the corners are seeded the first pass, with step size size - 1,
      can start: exactly the corners are written. */
  lemma SeedStart(hm: seq<real>, size: int, smoothness: real, draws: nat -> nat, n: nat)
    requires size == Pow2(n) + 1 && |hm| == size * size && smoothness != 0.0
    requires CornersSeeded(hm, size, smoothness, draws)
    ensures PassStart(hm, SeedCounts(size), size, smoothness, draws, n, n)
  {
    var w, s := SeedCounts(size), Pow2(n);
    forall x, y | InGrid(x, y, size)
      ensures w[Index(x, y, size)] == if OnLattice(x, y, s) then 1 else 0
    {
      RemEnds(x, s);
      RemEnds(y, s);
      if x != 0 || y != 0 { IndexDistinct(x, y, 0, 0, size); }
      if x != size - 1 || y != 0 { IndexDistinct(x, y, size - 1, 0, size); }
      if x != 0 || y != size - 1 { IndexDistinct(x, y, 0, size - 1, size); }
      if x != size - 1 || y != size - 1 { IndexDistinct(x, y, size - 1, size - 1, size); }
    }
  }

  /** When the step size reaches 1 every cell is written once. */
  lemma AllWritten(w: seq<nat>, size: int)
    requires size >= 1 && |w| == size * size
    requires LatticeCounts(w, size, 0)
    ensures forall i | 0 <= i < size * size :: w[i] == 1
  {
    forall i | 0 <= i < size * size
      ensures w[i] == 1
    {
      IndexCovers(i, size);
      RemOne(i % size);
      RemOne(i / size);
      assert InGrid(i % size, i / size, size);
    }
  }

  /** When the step size reaches 1 every cell is written once and holds the
      value the subdivision assigns to it. */
  lemma PassesFinished(hm: seq<real>, w: seq<nat>, size: int, smoothness: real, draws: nat -> nat)
    requires ValidSize(size) && |hm| == size * size && |w| == size * size && smoothness != 0.0
    requires PassStart(hm, w, size, smoothness, draws, Log2(size - 1), 0)
    ensures Generated(hm, size, smoothness, draws)
    ensures forall i | 0 <= i < size * size :: w[i] == 1
  {
    var n := Log2(size - 1);
    AllWritten(w, size);
    forall e: nat, x, y | 1 <= e <= n && InGrid(x, y, size) && IsDiamondCell(e, x, y)
      ensures DiamondOk(hm, size, smoothness, draws, n, e, x, y)
    {
      assert DiamondDone(hm, w, size, smoothness, draws, n, e, x, y);
    }
    forall e: nat, x, y | 1 <= e <= n && InGrid(x, y, size) && IsSquareCell(e, x, y)
      ensures SquareOk(hm, size, smoothness, draws, n, e, x, y)
    {
      assert SquareDone(hm, w, size, smoothness, draws, n, e, x, y);
    }
  }

  /** The number of points in row j of the square loop, c = 2^(n-e). */
  function RowLength(c: nat, j: int): nat
  {
    if j % 2 == 0 then c else c + 1
  }

  lemma SquareRowBaseNext(c: nat, j: nat)
    ensures SquareRowBase(c, j + 1) == SquareRowBase(c, j) + RowLength(c, j)
  {
    if j % 2 == 1 {
      assert (j + 1) / 2 == j / 2 + 1;
      assert ((j / 2) + 1) * (2 * c + 1) == (j / 2) * (2 * c + 1) + 2 * c + 1;
    } else {
      assert (j + 1) / 2 == j / 2;
    }
  }

  /** The x loop of the diamond step: x = t * 2^e stays below size - 2^e for
      exactly the c = 2^(n-e) cells of a row. */
  lemma DiamondColumnBound(n: nat, e: nat, t: int, size: int)
    requires e <= n && size == Pow2(n) + 1 && t >= 0
    ensures t * Pow2(e) < size - Pow2(e) <==> t < Pow2(n - e)
  {
    Pow2Add(n - e, e);
    assert (t + 1) * Pow2(e) == t * Pow2(e) + Pow2(e);
    MulCancelLe(t + 1, Pow2(n - e), Pow2(e));
  }

  /** The x loop of the square step: row j holds RowLength(c, j) points. */
  lemma SquareColumnBound(n: nat, e: nat, j: int, t: int, size: int)
    requires 1 <= e <= n && size == Pow2(n) + 1 && t >= 0
    ensures t * Pow2(e) + RowOffset(e, j) < size <==> t < RowLength(Pow2(n - e), j)
  {
    Pow2Add(n - e, e);
    BlockBound(t, Pow2(n - e), Pow2(e), RowOffset(e, j));
    if j % 2 != 0 {
      BlockBound(t, Pow2(n - e) + 1, Pow2(e), 0);
    }
  }

  /** The y loop of the square step visits the rows j = 0 .. 2c. */
  lemma SquareRowBound(n: nat, e: nat, j: int, size: int)
    requires 1 <= e <= n && size == Pow2(n) + 1 && j >= 0
    ensures j * Pow2(e - 1) < size <==> j < 2 * Pow2(n - e) + 1
  {
    var h, c := Pow2(e - 1), Pow2(n - e);
    Pow2Add(n - e + 1, e - 1);
    assert Pow2(n - e + 1) == 2 * c;
    MulCancelLe(j, 2 * c, h);
  }

  /** A pass takes (2c + 1)^2 - (c + 1)^2 draws: it ends where the next
      pass begins. */
  lemma PassDraws(n: nat, e: nat)
    requires 1 <= e <= n
    ensures PassBase(n, e) + Pow2(n - e) * Pow2(n - e) + SquareRowBase(Pow2(n - e), 2 * Pow2(n - e) + 1)
            == PassBase(n, e - 1)
  {
    var c := Pow2(n - e);
    assert Pow2(n - (e - 1)) == 2 * c;
    assert (2 * c + 1) / 2 == c && (2 * c + 1) % 2 == 1;
    assert SquareRowBase(c, 2 * c + 1) == c * (2 * c + 1) + c;
    assert (2 * c + 1) * (2 * c + 1) == (c + 1) * (c + 1) + c * c + c * (2 * c + 1) + c;
  }
}
