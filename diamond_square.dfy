/** diamondSquare of DiamondSquare.h: the heightmap buffer is filled in place,
    pass by pass. The ghost sequence `w` counts the writes each cell has
    received; every write goes through a step method whose precondition demands
    that the cells it reads were written and the cell it writes was not. */
module DiamondSquare {
  import opened Arith
  import opened Heightmap
  import opened Progress

  /** diamondStep: set the midpoint of the stepSize x stepSize cell whose
      top-left corner is (x, y) to the mean of the cell's corners plus r. */
  method DiamondStep(x: int, y: int, stepSize: int, size: int, heightmap: array<real>, r: real,
                     ghost w: seq<nat>) returns (ghost w': seq<nat>)
    requires 0 <= x && 0 <= y && 0 <= stepSize && x + stepSize < size && y + stepSize < size
    requires heightmap.Length == size * size && |w| == size * size
    requires w[Index(x, y, size)] == 1 && w[Index(x + stepSize, y, size)] == 1
    requires w[Index(x, y + stepSize, size)] == 1 && w[Index(x + stepSize, y + stepSize, size)] == 1
    requires w[Index(x + stepSize / 2, y + stepSize / 2, size)] == 0
    modifies heightmap
    ensures heightmap[..] == old(heightmap[..])[Index(x + stepSize / 2, y + stepSize / 2, size)
                               := DiamondMean(old(heightmap[..]), x, y, stepSize, size) + r]
    ensures w' == w[Index(x + stepSize / 2, y + stepSize / 2, size) := 1]
  {
    var avg := (heightmap[Index(x, y, size)] + heightmap[Index(x + stepSize, y, size)]
      + heightmap[Index(x, y + stepSize, size)] + heightmap[Index(x + stepSize, y + stepSize, size)]) / 4.0;
    heightmap[Index(x + stepSize / 2, y + stepSize / 2, size)] := avg + r;
    w' := w[Index(x + stepSize / 2, y + stepSize / 2, size) := 1];
  }

  /** squareStep: set the edge midpoint (x, y) to the average of its
      neighbours at distance stepSize/2 plus r; a neighbour outside the grid is
      not read, counts as 0, and the sum is then divided by 3. */
  method SquareStep(x: int, y: int, stepSize: int, size: int, heightmap: array<real>, r: real,
                    ghost w: seq<nat>) returns (ghost w': seq<nat>)
    requires InGrid(x, y, size) && 0 <= stepSize
    requires heightmap.Length == size * size && |w| == size * size
    requires y - stepSize / 2 >= 0 ==> w[Index(x, y - stepSize / 2, size)] == 1
    requires y + stepSize / 2 < size ==> w[Index(x, y + stepSize / 2, size)] == 1
    requires x + stepSize / 2 < size ==> w[Index(x + stepSize / 2, y, size)] == 1
    requires x - stepSize / 2 >= 0 ==> w[Index(x - stepSize / 2, y, size)] == 1
    requires w[Index(x, y, size)] == 0
    modifies heightmap
    ensures heightmap[..] == old(heightmap[..])[Index(x, y, size)
                               := SquareMean(old(heightmap[..]), x, y, stepSize, size) + r]
    ensures w' == w[Index(x, y, size) := 1]
  {
    var h := stepSize / 2;
    var avg: real;
    var a := if y - h >= 0 then heightmap[Index(x, y - h, size)] else 0.0;
    var b := if y + h < size then heightmap[Index(x, y + h, size)] else 0.0;
    var c := if x + h < size then heightmap[Index(x + h, y, size)] else 0.0;
    var d := if x - h >= 0 then heightmap[Index(x - h, y, size)] else 0.0;
    if y - h < 0 || y + h >= size || x - h < 0 || x + h >= size {
      avg := (a + b + c + d) / 3.0;
    } else {
      avg := (a + b + c + d) / 4.0;
    }
    heightmap[Index(x, y, size)] := avg + r;
    w' := w[Index(x, y, size) := 1];
  }

  /** The body of the diamond loop at cell (tx, ty): draw k, then diamondStep. */
  method DiamondCell(heightmap: array<real>, size: int, stepSize: int, x: int, y: int, smoothness: real,
                     draws: nat -> nat, k: nat, ghost smoothness0: real, ghost n: nat, ghost e: nat,
                     ghost ty: nat, ghost tx: nat, ghost w0: seq<nat>) returns (ghost w: seq<nat>)
    requires 1 <= e <= n && size == Pow2(n) + 1 && stepSize == Pow2(e)
    requires heightmap.Length == size * size && |w0| == size * size
    requires smoothness0 != 0.0 && smoothness == PassSmoothness(smoothness0, n, e)
    requires ty < Pow2(n - e) && tx < Pow2(n - e) && x == tx * stepSize && y == ty * stepSize
    requires k == PassBase(n, e) + ty * Pow2(n - e) + tx
    requires EarlierPassesDone(heightmap[..], w0, size, smoothness0, draws, n, e)
    requires DiamondPhase(heightmap[..], w0, size, smoothness0, draws, n, e, ty, tx)
    modifies heightmap
    ensures |w| == size * size
    ensures EarlierPassesDone(heightmap[..], w, size, smoothness0, draws, n, e)
    ensures DiamondPhase(heightmap[..], w, size, smoothness0, draws, n, e, ty, tx + 1)
  {
    var r := Displacement(draws(k), smoothness);
    ghost var hm := heightmap[..];
    assert stepSize / 2 == Pow2(e - 1);
    DiamondReady(w0, size, n, e, ty, tx, x, y, x + stepSize / 2, y + stepSize / 2);
    w := DiamondStep(x, y, stepSize, size, heightmap, r, w0);
    DiamondCellAdvance(hm, w0, heightmap[..], w, size, smoothness0, draws, n, e, ty, tx, x, y, r, stepSize, k);
  }

  /** The diamond step at cell (tx, ty) moves the loop state on by one
      cell, for any grid hm' that is hm with that cell's midpoint written. */
  lemma DiamondCellAdvance(hm: seq<real>, w: seq<nat>, hm': seq<real>, w': seq<nat>, size: int,
                           smoothness: real, draws: nat -> nat, n: nat, e: nat, ty: nat, tx: nat,
                           x: int, y: int, r: real, stepSize: int, k: nat)
    requires 1 <= e <= n && size == Pow2(n) + 1 && |hm| == size * size && |w| == size * size
    requires stepSize == Pow2(e) && stepSize / 2 == Pow2(e - 1) && k == PassBase(n, e) + ty * Pow2(n - e) + tx
    requires smoothness != 0.0
    requires EarlierPassesDone(hm, w, size, smoothness, draws, n, e)
    requires DiamondPhase(hm, w, size, smoothness, draws, n, e, ty, tx)
    requires ty < Pow2(n - e) && tx < Pow2(n - e) && x == tx * stepSize && y == ty * stepSize
    requires r == Displacement(draws(k), PassSmoothness(smoothness, n, e))
    requires 0 <= x && x + stepSize < size && 0 <= y && y + stepSize < size
    requires hm' == hm[Index(x + stepSize / 2, y + stepSize / 2, size) := DiamondMean(hm, x, y, stepSize, size) + r]
    requires w' == w[Index(x + stepSize / 2, y + stepSize / 2, size) := 1]
    ensures |w'| == size * size
    ensures EarlierPassesDone(hm', w', size, smoothness, draws, n, e)
    ensures DiamondPhase(hm', w', size, smoothness, draws, n, e, ty, tx + 1)
  {
    var mx, my := x + stepSize / 2, y + stepSize / 2;
    var p, v := Index(mx, my, size), DiamondMean(hm, x, y, Pow2(e), size) + r;
    assert hm' == hm[p := v] && w' == w[p := 1];
    DiamondReady(w, size, n, e, ty, tx, x, y, mx, my);
    DiamondPhaseAdvance(hm, w, size, smoothness, draws, n, e, ty, tx, x, y, mx, my, r, p, v);
    EarlierFrame(hm, w, size, smoothness, draws, n, e, p, v);
  }

  /** One row (fixed y) of the diamond loop: c = 2^(n-e) diamond steps, each
      taking the next draw k. */
  method DiamondLine(heightmap: array<real>, size: int, stepSize: int, y: int, smoothness: real,
                    draws: nat -> nat, k0: nat, ghost smoothness0: real, ghost n: nat, ghost e: nat,
                    ghost ty: nat, ghost w0: seq<nat>) returns (k: nat, ghost w: seq<nat>)
    requires 1 <= e <= n && size == Pow2(n) + 1 && stepSize == Pow2(e)
    requires heightmap.Length == size * size && |w0| == size * size
    requires smoothness0 != 0.0 && smoothness == PassSmoothness(smoothness0, n, e)
    requires ty < Pow2(n - e) && y == ty * stepSize && k0 == PassBase(n, e) + ty * Pow2(n - e)
    requires EarlierPassesDone(heightmap[..], w0, size, smoothness0, draws, n, e)
    requires DiamondPhase(heightmap[..], w0, size, smoothness0, draws, n, e, ty, 0)
    modifies heightmap
    ensures |w| == size * size && k == k0 + Pow2(n - e)
    ensures EarlierPassesDone(heightmap[..], w, size, smoothness0, draws, n, e)
    ensures DiamondPhase(heightmap[..], w, size, smoothness0, draws, n, e, ty + 1, 0)
  {
    var x := 0;
    ghost var tx: nat := 0;
    k, w := k0, w0;
    while x < size - stepSize
      invariant tx <= Pow2(n - e) && x == tx * stepSize && k == k0 + tx && |w| == size * size
      invariant EarlierPassesDone(heightmap[..], w, size, smoothness0, draws, n, e)
      invariant DiamondPhase(heightmap[..], w, size, smoothness0, draws, n, e, ty, tx)
      decreases Pow2(n - e) - tx
    {
      DiamondColumnBound(n, e, tx, size);
      w := DiamondCell(heightmap, size, stepSize, x, y, smoothness, draws, k, smoothness0, n, e, ty, tx, w);
      assert (tx + 1) * stepSize == x + stepSize;
      x, tx, k := x + stepSize, tx + 1, k + 1;
    }
    DiamondColumnBound(n, e, tx, size);
    DiamondRowEnd(heightmap[..], w, size, smoothness0, draws, n, e, ty);
  }

  /** The diamond loop of the pass with step size 2^e: c rows of c cells,
      taking draws PassBase(n, e) onwards. */
  method DiamondLoop(heightmap: array<real>, size: int, stepSize: int, smoothness: real,
                     draws: nat -> nat, k0: nat, ghost smoothness0: real, ghost n: nat, ghost e: nat,
                     ghost w0: seq<nat>) returns (k: nat, ghost w: seq<nat>)
    requires 1 <= e <= n && size == Pow2(n) + 1 && stepSize == Pow2(e)
    requires heightmap.Length == size * size && |w0| == size * size
    requires smoothness0 != 0.0 && smoothness == PassSmoothness(smoothness0, n, e)
    requires k0 == PassBase(n, e)
    requires PassStart(heightmap[..], w0, size, smoothness0, draws, n, e)
    modifies heightmap
    ensures |w| == size * size && k == k0 + Pow2(n - e) * Pow2(n - e)
    ensures EarlierPassesDone(heightmap[..], w, size, smoothness0, draws, n, e)
    ensures DiamondPhase(heightmap[..], w, size, smoothness0, draws, n, e, Pow2(n - e), 0)
  {
    DiamondPhaseStart(heightmap[..], w0, size, smoothness0, draws, n, e);
    var y := 0;
    ghost var ty: nat := 0;
    k, w := k0, w0;
    while y < size - stepSize
      invariant ty <= Pow2(n - e) && y == ty * stepSize && k == k0 + ty * Pow2(n - e) && |w| == size * size
      invariant EarlierPassesDone(heightmap[..], w, size, smoothness0, draws, n, e)
      invariant DiamondPhase(heightmap[..], w, size, smoothness0, draws, n, e, ty, 0)
      decreases Pow2(n - e) - ty
    {
      DiamondColumnBound(n, e, ty, size);
      k, w := DiamondLine(heightmap, size, stepSize, y, smoothness, draws, k, smoothness0, n, e, ty, w);
      assert (ty + 1) * stepSize == y + stepSize;
      assert (ty + 1) * Pow2(n - e) == ty * Pow2(n - e) + Pow2(n - e);
      y, ty := y + stepSize, ty + 1;
    }
    DiamondColumnBound(n, e, ty, size);
  }

  /** The body of the square loop at point t of row j: draw k, then
      squareStep. */
  method SquareCell(heightmap: array<real>, size: int, stepSize: int, x: int, y: int, smoothness: real,
                    draws: nat -> nat, k: nat, ghost smoothness0: real, ghost n: nat, ghost e: nat,
                    ghost j: nat, ghost t: nat, ghost w0: seq<nat>) returns (ghost w: seq<nat>)
    requires 1 <= e <= n && size == Pow2(n) + 1 && stepSize == Pow2(e)
    requires heightmap.Length == size * size && |w0| == size * size
    requires smoothness0 != 0.0 && smoothness == PassSmoothness(smoothness0, n, e)
    requires x == t * Pow2(e) + RowOffset(e, j) && y == j * Pow2(e - 1) && x < size && y < size
    requires k == PassBase(n, e) + Pow2(n - e) * Pow2(n - e) + SquareRowBase(Pow2(n - e), j) + t
    requires EarlierPassesDone(heightmap[..], w0, size, smoothness0, draws, n, e)
    requires SquarePhase(heightmap[..], w0, size, smoothness0, draws, n, e, j, t)
    modifies heightmap
    ensures |w| == size * size
    ensures EarlierPassesDone(heightmap[..], w, size, smoothness0, draws, n, e)
    ensures SquarePhase(heightmap[..], w, size, smoothness0, draws, n, e, j, t + 1)
  {
    var r := Displacement(draws(k), smoothness);
    ghost var hm := heightmap[..];
    SquareReady(w0, size, e, j, t, x, y, stepSize);
    w := SquareStep(x, y, stepSize, size, heightmap, r, w0);
    SquareCellAdvance(hm, w0, heightmap[..], w, size, smoothness0, draws, n, e, j, t, x, y, r, stepSize, k);
  }

  /** The square step at point t of row j moves the loop state on by one
      point, for any grid hm' that is hm with that point written. */
  lemma SquareCellAdvance(hm: seq<real>, w: seq<nat>, hm': seq<real>, w': seq<nat>, size: int,
                          smoothness: real, draws: nat -> nat, n: nat, e: nat, j: nat, t: nat,
                          x: int, y: int, r: real, stepSize: int, k: nat)
    requires 1 <= e <= n && size == Pow2(n) + 1 && |hm| == size * size && |w| == size * size
    requires stepSize == Pow2(e) && k == PassBase(n, e) + Pow2(n - e) * Pow2(n - e) + SquareRowBase(Pow2(n - e), j) + t
    requires smoothness != 0.0
    requires EarlierPassesDone(hm, w, size, smoothness, draws, n, e)
    requires SquarePhase(hm, w, size, smoothness, draws, n, e, j, t)
    requires x == t * Pow2(e) + RowOffset(e, j) && y == j * Pow2(e - 1) && x < size && y < size
    requires 0 <= x && 0 <= y
    requires r == Displacement(draws(k), PassSmoothness(smoothness, n, e))
    requires hm' == hm[Index(x, y, size) := SquareMean(hm, x, y, stepSize, size) + r]
    requires w' == w[Index(x, y, size) := 1]
    ensures |w'| == size * size
    ensures EarlierPassesDone(hm', w', size, smoothness, draws, n, e)
    ensures SquarePhase(hm', w', size, smoothness, draws, n, e, j, t + 1)
  {
    var p, v := Index(x, y, size), SquareMean(hm, x, y, Pow2(e), size) + r;
    assert hm' == hm[p := v] && w' == w[p := 1];
    SquareReady(w, size, e, j, t, x, y, Pow2(e));
    SquarePhaseAdvance(hm, w, size, smoothness, draws, n, e, j, t, x, y, r, p, v);
    EarlierFrame(hm, w, size, smoothness, draws, n, e, p, v);
  }

  /** One row of the square loop: i = j + 1 is the source's row counter, and
      x starts at stepSize / 2 when i is odd. */
  method SquareLine(heightmap: array<real>, size: int, stepSize: int, y: int, i: int, smoothness: real,
                    draws: nat -> nat, k0: nat, ghost smoothness0: real, ghost n: nat, ghost e: nat,
                    ghost j: nat, ghost w0: seq<nat>) returns (k: nat, ghost w: seq<nat>)
    requires 1 <= e <= n && size == Pow2(n) + 1 && stepSize == Pow2(e)
    requires heightmap.Length == size * size && |w0| == size * size
    requires smoothness0 != 0.0 && smoothness == PassSmoothness(smoothness0, n, e)
    requires i == j + 1 && y == j * Pow2(e - 1) && y < size
    requires k0 == PassBase(n, e) + Pow2(n - e) * Pow2(n - e) + SquareRowBase(Pow2(n - e), j)
    requires EarlierPassesDone(heightmap[..], w0, size, smoothness0, draws, n, e)
    requires SquarePhase(heightmap[..], w0, size, smoothness0, draws, n, e, j, 0)
    modifies heightmap
    ensures |w| == size * size
    ensures k == PassBase(n, e) + Pow2(n - e) * Pow2(n - e) + SquareRowBase(Pow2(n - e), j + 1)
    ensures EarlierPassesDone(heightmap[..], w, size, smoothness0, draws, n, e)
    ensures SquarePhase(heightmap[..], w, size, smoothness0, draws, n, e, j + 1, 0)
  {
    var x := if i % 2 == 0 then 0 else stepSize / 2;
    ghost var t: nat := 0;
    k, w := k0, w0;
    ghost var offset, len := RowOffset(e, j), RowLength(Pow2(n - e), j);
    assert x == offset;
    while x < size
      invariant x == t * stepSize + offset && t <= len
      invariant k == k0 + t && |w| == size * size
      invariant EarlierPassesDone(heightmap[..], w, size, smoothness0, draws, n, e)
      invariant SquarePhase(heightmap[..], w, size, smoothness0, draws, n, e, j, t)
      decreases size - x
    {
      SquareColumnBound(n, e, j, t, size);
      w := SquareCell(heightmap, size, stepSize, x, y, smoothness, draws, k, smoothness0, n, e, j, t, w);
      assert (t + 1) * stepSize == x + stepSize - offset;
      x, t, k := x + stepSize, t + 1, k + 1;
    }
    SquareColumnBound(n, e, j, t, size);
    SquareRowBaseNext(Pow2(n - e), j);
    SquareRowEnd(heightmap[..], w, size, smoothness0, draws, n, e, j, t);
  }

  /** The square loop of the pass with step size 2^e: rows y = 0, 2^(e-1),
      ..., size - 1. */
  method SquareLoop(heightmap: array<real>, size: int, stepSize: int, smoothness: real,
                    draws: nat -> nat, k0: nat, ghost smoothness0: real, ghost n: nat, ghost e: nat,
                    ghost w0: seq<nat>) returns (k: nat, ghost w: seq<nat>)
    requires 1 <= e <= n && size == Pow2(n) + 1 && stepSize == Pow2(e)
    requires heightmap.Length == size * size && |w0| == size * size
    requires smoothness0 != 0.0 && smoothness == PassSmoothness(smoothness0, n, e)
    requires k0 == PassBase(n, e) + Pow2(n - e) * Pow2(n - e)
    requires EarlierPassesDone(heightmap[..], w0, size, smoothness0, draws, n, e)
    requires SquarePhase(heightmap[..], w0, size, smoothness0, draws, n, e, 0, 0)
    modifies heightmap
    ensures |w| == size * size && k == PassBase(n, e - 1)
    ensures EarlierPassesDone(heightmap[..], w, size, smoothness0, draws, n, e)
    ensures SquarePhase(heightmap[..], w, size, smoothness0, draws, n, e, 2 * Pow2(n - e) + 1, 0)
  {
    var i := 0;
    var y := 0;
    ghost var j: nat := 0;
    k, w := k0, w0;
    assert stepSize / 2 == Pow2(e - 1);
    while y < size
      invariant i == j && y == j * Pow2(e - 1) && j <= 2 * Pow2(n - e) + 1
      invariant k == PassBase(n, e) + Pow2(n - e) * Pow2(n - e) + SquareRowBase(Pow2(n - e), j)
      invariant |w| == size * size
      invariant EarlierPassesDone(heightmap[..], w, size, smoothness0, draws, n, e)
      invariant SquarePhase(heightmap[..], w, size, smoothness0, draws, n, e, j, 0)
      decreases size - y
    {
      SquareRowBound(n, e, j, size);
      i := i + 1;
      k, w := SquareLine(heightmap, size, stepSize, y, i, smoothness, draws, k, smoothness0, n, e, j, w);
      assert (j + 1) * Pow2(e - 1) == y + stepSize / 2;
      y, j := y + stepSize / 2, j + 1;
    }
    SquareRowBound(n, e, j, size);
    PassDraws(n, e);
  }

  /** The four corners, in the order the source seeds them, each from the
      next draw. */
  method SeedCorners(heightmap: array<real>, size: int, smoothness: real, draws: nat -> nat)
    requires size >= 2 && heightmap.Length == size * size && smoothness != 0.0
    modifies heightmap
    ensures CornersSeeded(heightmap[..], size, smoothness, draws)
    ensures forall i | 0 <= i < size * size && SeedCounts(size)[i] == 0 :: heightmap[i] == old(heightmap[i])
  {
    heightmap[Index(0, 0, size)] := Displacement(draws(0), smoothness);
    heightmap[Index(size - 1, 0, size)] := Displacement(draws(1), smoothness);
    heightmap[Index(0, size - 1, size)] := Displacement(draws(2), smoothness);
    heightmap[Index(size - 1, size - 1, size)] := Displacement(draws(3), smoothness);
  }

  /** One iteration of the stepSize loop: the diamond loop, then the square
      loop, with the doubled smoothness. */
  method Pass(heightmap: array<real>, size: int, stepSize: int, smoothness: real,
              draws: nat -> nat, k0: nat, ghost smoothness0: real, ghost n: nat, ghost e: nat,
              ghost w0: seq<nat>) returns (k: nat, ghost w: seq<nat>)
    requires 1 <= e <= n && size == Pow2(n) + 1 && stepSize == Pow2(e)
    requires heightmap.Length == size * size && |w0| == size * size
    requires smoothness0 != 0.0 && smoothness == PassSmoothness(smoothness0, n, e)
    requires k0 == PassBase(n, e)
    requires PassStart(heightmap[..], w0, size, smoothness0, draws, n, e)
    modifies heightmap
    ensures |w| == size * size && k == PassBase(n, e - 1)
    ensures PassStart(heightmap[..], w, size, smoothness0, draws, n, e - 1)
  {
    k, w := DiamondLoop(heightmap, size, stepSize, smoothness, draws, k0, smoothness0, n, e, w0);
    DiamondToSquare(heightmap[..], w, size, smoothness0, draws, n, e);
    k, w := SquareLoop(heightmap, size, stepSize, smoothness, draws, k, smoothness0, n, e, w);
    SquarePassEnd(heightmap[..], w, size, smoothness0, draws, n, e);
  }

  /** diamondSquare(heightmap, size, smoothness, seed): seed -1 stands for the
      clock; the draws are then prng(seed). The corners take the first four
      draws; each pass with stepSize > 1 doubles the smoothness divisor, runs
      the diamond loop, the square loop and halves stepSize. The buffer ends
      up as Generated prescribes, every cell written exactly once. */
  method DiamondSquare(heightmap: array<real>, size: int, smoothness: real, seed: int, clock: int,
                       prng: int -> (nat -> nat)) returns (result: array<real>, ghost w: seq<nat>)
    requires ValidSize(size) && heightmap.Length == size * size && smoothness != 0.0
    modifies heightmap
    ensures result == heightmap
    ensures Generated(heightmap[..], size, smoothness, prng(if seed == -1 then clock else seed))
    ensures |w| == size * size && forall i | 0 <= i < size * size :: w[i] == 1
  {
    var s := seed;
    if s == -1 {
      s := clock;
    }
    var draws := prng(s);
    ghost var n := Log2(size - 1);
    SeedCorners(heightmap, size, smoothness, draws);
    w := SeedCounts(size);
    SeedStart(heightmap[..], size, smoothness, draws, n);

    var stepSize := size - 1;
    var sm := smoothness;
    var k: nat := 4;
    ghost var e := n;
    while stepSize > 1
      invariant e <= n && stepSize == Pow2(e) && k == PassBase(n, e) && |w| == size * size
      invariant sm * 2.0 == PassSmoothness(smoothness, n, e)
      invariant PassStart(heightmap[..], w, size, smoothness, draws, n, e)
      decreases e
    {
      assert e >= 1;
      sm := sm * 2.0;
      k, w := Pass(heightmap, size, stepSize, sm, draws, k, smoothness, n, e, w);
      SmoothnessDoubles(smoothness, n, e);
      stepSize := stepSize / 2;
      e := e - 1;
    }
    assert e == 0;
    PassesFinished(heightmap[..], w, size, smoothness, draws);
    result := heightmap;
  }
}
