/**
 * Toroidal addressing of the flat, row-major cell array of a `w × h` level.
 *
 * The size, the row-major position and the wrapped coordinate are defined by
 * repeated addition and subtraction, and proved equal to the product and the
 * remainder by the lemmas beside them; callers see only linear arithmetic.
 */
module Grid {

  /** The number of cells of a w-by-h grid. */
  function Area(w: nat, h: nat): nat
  {
    if h == 0 then 0 else Area(w, h - 1) + w
  }

  lemma {:induction false} AreaIsProduct(w: nat, h: nat)
    ensures Area(w, h) == w * h
  {
    if h > 0 {
      AreaIsProduct(w, h - 1);
    }
  }

  /** Row-major position of the in-range cell (x, y) in a grid of width w. */
  function Flat(x: nat, y: nat, w: nat): nat
  {
    if y == 0 then x else Flat(x, y - 1, w) + w
  }

  lemma {:induction false} FlatIsRowMajor(x: nat, y: nat, w: nat)
    ensures Flat(x, y, w) == y * w + x
  {
    if y > 0 {
      FlatIsRowMajor(x, y - 1, w);
    }
  }

  /** Row y starts after the y full rows above it. */
  lemma {:induction false} FlatIsArea(x: nat, y: nat, w: nat)
    ensures Flat(x, y, w) == Area(w, y) + x
  {
    if y > 0 {
      FlatIsArea(x, y - 1, w);
    }
  }

  /** More rows never make a smaller grid. */
  lemma {:induction false} AreaGrows(w: nat, m: nat, n: nat)
    requires m <= n
    ensures Area(w, m) <= Area(w, n)
    decreases n
  {
    if m < n {
      AreaGrows(w, m, n - 1);
    }
  }

  lemma MulMonotone(a: nat, b: nat, c: nat)
    requires a <= b
    ensures a * c <= b * c
  {
  }

  lemma FlatBound(x: nat, y: nat, w: nat, h: nat)
    requires x < w && y < h
    ensures Flat(x, y, w) < Area(w, h)
  {
    FlatIsRowMajor(x, y, w);
    AreaIsProduct(w, h);
    calc {
      Flat(x, y, w);
    <  y * w + w;
    == (y + 1) * w;
    <= { MulMonotone(y + 1, h, w); } h * w;
    }
  }

  /** Distinct in-range coordinates have distinct flat positions. */
  lemma {:induction false} FlatInjective(x1: nat, y1: nat, x2: nat, y2: nat, w: nat)
    requires x1 < w && x2 < w
    requires Flat(x1, y1, w) == Flat(x2, y2, w)
    ensures x1 == x2 && y1 == y2
    decreases y1
  {
    if y1 > 0 && y2 > 0 {
      FlatInjective(x1, y1 - 1, x2, y2 - 1, w);
    }
  }

  /**
   * Normalises one coordinate the way the level's accessor does: while the
   * value is negative add the extent, then bring it below the extent.
   */
  function Norm(v: int, n: nat): (r: nat)
    requires n > 0
    ensures r < n
    decreases if v < 0 then n - v else v
  {
    if v < 0 then Norm(v + n, n)
    else if v < n then v
    else Norm(v - n, n)
  }

  lemma ModShift(v: int, n: nat)
    requires n > 0
    ensures (v + n) % n == v % n
  {
    var q, r := v / n, v % n;
    assert v + n == (q + 1) * n + r;
    DivModUnique(v + n, n, q + 1, r);
  }

  lemma DivModUnique(a: int, n: nat, q: int, r: int)
    requires n > 0 && 0 <= r < n && a == q * n + r
    ensures a % n == r
  {
    var q', r' := a / n, a % n;
    assert (q - q') * n == r' - r;
    if q > q' {
      MulMonotone(1, q - q', n);
    } else if q < q' {
      MulMonotone(1, q' - q, n);
    }
  }

  /** The normalised coordinate is the (never negative) remainder modulo the extent. */
  lemma {:induction false} NormMod(v: int, n: nat)
    requires n > 0
    ensures Norm(v, n) == v % n
    decreases if v < 0 then n - v else v
  {
    if v < 0 {
      NormMod(v + n, n);
      ModShift(v, n);
    } else if v < n {
      DivModUnique(v, n, 0, v);
    } else {
      NormMod(v - n, n);
      ModShift(v - n, n);
    }
  }

  /**
   * Index in the flat cell array of the cell at (x, y), with wraparound in
   * both directions; in bounds for every pair of coordinates.
   */
  function Index(x: int, y: int, w: nat, h: nat): (i: nat)
    requires w > 0 && h > 0
    ensures i < Area(w, h)
  {
    FlatBound(Norm(x, w), Norm(y, h), w, h);
    Flat(Norm(x, w), Norm(y, h), w)
  }

  /** An in-range coordinate pair addresses its own row-major slot. */
  lemma IndexInRange(x: int, y: int, w: nat, h: nat)
    requires w > 0 && h > 0
    requires 0 <= x < w && 0 <= y < h
    ensures Index(x, y, w, h) == Flat(x, y, w)
  {
  }

  /** Moving by a whole width or height lands on the same cell. */
  lemma IndexPeriodic(x: int, y: int, w: nat, h: nat)
    requires w > 0 && h > 0
    ensures Index(x + w, y, w, h) == Index(x, y, w, h)
    ensures Index(x, y + h, w, h) == Index(x, y, w, h)
    ensures Index(x - w, y, w, h) == Index(x, y, w, h)
  {
    NormMod(x, w);
    NormMod(x + w, w);
    NormMod(x - w, w);
    NormMod(y, h);
    NormMod(y + h, h);
    ModShift(x, w);
    ModShift(y, h);
    ModShift(x - w, w);
  }

  /** Normalised coordinates address the same cell as the raw ones. */
  lemma IndexNorm(x: int, y: int, w: nat, h: nat)
    requires w > 0 && h > 0
    ensures Index(Norm(x, w), Norm(y, h), w, h) == Index(x, y, w, h)
  {
  }

  /** Every in-range coordinate pair addresses a cell of a w-by-h grid. */
  lemma FlatBoundAll(w: nat, h: nat)
    ensures forall x: nat, y: nat {:trigger Flat(x, y, w)} :: x < w && y < h ==> Flat(x, y, w) < Area(w, h)
  {
    forall x: nat, y: nat | x < w && y < h
      ensures Flat(x, y, w) < Area(w, h)
    {
      FlatBound(x, y, w, h);
    }
  }

  /** Two coordinate pairs address the same cell exactly when they agree modulo the extents. */
  lemma IndexEqual(x1: int, y1: int, x2: int, y2: int, w: nat, h: nat)
    requires w > 0 && h > 0
    ensures Index(x1, y1, w, h) == Index(x2, y2, w, h) <==> x1 % w == x2 % w && y1 % h == y2 % h
  {
    NormMod(x1, w);
    NormMod(y1, h);
    NormMod(x2, w);
    NormMod(y2, h);
    if Index(x1, y1, w, h) == Index(x2, y2, w, h) {
      FlatInjective(Norm(x1, w), Norm(y1, h), Norm(x2, w), Norm(y2, h), w);
    }
  }
}
