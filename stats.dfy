/**
 * Specifications of the read-only statistics a level computes over its
 * cells: weighted cell counts and the entropy of the grid.
 */
module Stats {
  import opened Cells
  import opened Grid

  /** Sum of `weight` over the cells of `s`, in row-major order. */
  function Sum(s: seq<Cell>, weight: Cell -> nat): nat
  {
    if s == [] then 0 else Sum(s[..|s| - 1], weight) + weight(s[|s| - 1])
  }

  /** What one cell adds to the level's item count: items 1, item dudes and blue bombs 9. */
  function ItemWeight(c: Cell): nat
  {
    if c.kind == Item then 1
    else if c.kind == ItemDude || c.kind == BlueBomb then 9
    else 0
  }

  function KindWeight(k: CellKind): Cell -> nat
  {
    (c: Cell) => if c.kind == k then 1 else 0
  }

  /** Empty space whose attenuation counter has started. */
  function AttenuatedWeight(c: Cell): nat
  {
    if c.kind == Empty && c.param > 0 then 1 else 0
  }

  lemma SumStep(s: seq<Cell>, k: nat, weight: Cell -> nat)
    requires k < |s|
    ensures Sum(s[..k + 1], weight) == Sum(s[..k], weight) + weight(s[k])
  {
    assert s[..k + 1][..k] == s[..k];
  }

  /** A sum of weights of at most m is at most m per cell. */
  lemma {:induction false} SumBound(s: seq<Cell>, weight: Cell -> nat, m: nat)
    requires forall c :: weight(c) <= m
    ensures Sum(s, weight) <= m * |s|
  {
    if s != [] {
      SumBound(s[..|s| - 1], weight, m);
    }
  }

  /** The count of cells of kind k is positive exactly when such a cell exists. */
  lemma {:induction false} CountPositive(s: seq<Cell>, k: CellKind)
    ensures Sum(s, KindWeight(k)) > 0 <==> exists i :: 0 <= i < |s| && s[i].kind == k
  {
    if s != [] {
      var init := s[..|s| - 1];
      CountPositive(init, k);
      if exists i :: 0 <= i < |init| && init[i].kind == k {
        var i :| 0 <= i < |init| && init[i].kind == k;
        assert s[i] == init[i];
      }
      if exists i :: 0 <= i < |s| && s[i].kind == k {
        var i :| 0 <= i < |s| && s[i].kind == k;
        if i < |init| {
          assert init[i] == s[i];
        }
      }
    }
  }

  /** The item count is the number of items plus nine per item dude and per blue bomb. */
  lemma {:induction false} ItemsDecompose(s: seq<Cell>)
    ensures Sum(s, ItemWeight)
            == Sum(s, KindWeight(Item)) + 9 * Sum(s, KindWeight(ItemDude)) + 9 * Sum(s, KindWeight(BlueBomb))
  {
    if s != [] {
      ItemsDecompose(s[..|s| - 1]);
    }
  }

  /** Number of differing neighbour pairs (right, then down, with wraparound) at (x, y). */
  function Diff(s: seq<Cell>, w: nat, h: nat, x: int, y: int): (d: nat)
    requires w > 0 && h > 0 && |s| == Area(w, h)
    ensures d <= 2
  {
    (if s[Index(x, y, w, h)].kind != s[Index(x + 1, y, w, h)].kind then 1 else 0)
    + (if s[Index(x, y, w, h)].kind != s[Index(x, y + 1, w, h)].kind then 1 else 0)
  }

  function RowEntropy(s: seq<Cell>, w: nat, h: nat, y: int, n: nat): nat
    requires w > 0 && h > 0 && |s| == Area(w, h)
  {
    if n == 0 then 0 else RowEntropy(s, w, h, y, n - 1) + Diff(s, w, h, n - 1, y)
  }

  function RowsEntropy(s: seq<Cell>, w: nat, h: nat, m: nat): nat
    requires w > 0 && h > 0 && |s| == Area(w, h)
  {
    if m == 0 then 0 else RowsEntropy(s, w, h, m - 1) + RowEntropy(s, w, h, m - 1, w)
  }

  /** The entropy of a grid: differing right and down neighbour pairs over all cells. */
  function Entropy(s: seq<Cell>, w: nat, h: nat): nat
    requires w > 0 && h > 0 && |s| == Area(w, h)
  {
    RowsEntropy(s, w, h, h)
  }

  lemma {:induction false} RowEntropyBound(s: seq<Cell>, w: nat, h: nat, y: int, n: nat)
    requires w > 0 && h > 0 && |s| == Area(w, h)
    ensures RowEntropy(s, w, h, y, n) <= 2 * n
  {
    if n > 0 {
      RowEntropyBound(s, w, h, y, n - 1);
    }
  }

  lemma {:induction false} RowsEntropyBound(s: seq<Cell>, w: nat, h: nat, m: nat)
    requires w > 0 && h > 0 && |s| == Area(w, h)
    ensures RowsEntropy(s, w, h, m) <= 2 * Area(w, m)
  {
    if m > 0 {
      RowsEntropyBound(s, w, h, m - 1);
      RowEntropyBound(s, w, h, m - 1, w);
    }
  }

  /** Every cell contributes at most its two pairs. */
  lemma EntropyBound(s: seq<Cell>, w: nat, h: nat)
    requires w > 0 && h > 0 && |s| == Area(w, h)
    ensures Entropy(s, w, h) <= 2 * |s|
  {
    RowsEntropyBound(s, w, h, h);
  }

  /** A grid made of one kind of cell has no entropy. */
  lemma {:induction false} UniformEntropy(s: seq<Cell>, w: nat, h: nat, k: CellKind)
    requires w > 0 && h > 0 && |s| == Area(w, h)
    requires forall i :: 0 <= i < |s| ==> s[i].kind == k
    ensures Entropy(s, w, h) == 0
  {
    forall y: int, n: nat ensures RowEntropy(s, w, h, y, n) == 0 {
      UniformRow(s, w, h, k, y, n);
    }
    UniformRows(s, w, h, k, h);
  }

  lemma {:induction false} UniformRow(s: seq<Cell>, w: nat, h: nat, k: CellKind, y: int, n: nat)
    requires w > 0 && h > 0 && |s| == Area(w, h)
    requires forall i :: 0 <= i < |s| ==> s[i].kind == k
    ensures RowEntropy(s, w, h, y, n) == 0
  {
    if n > 0 {
      UniformRow(s, w, h, k, y, n - 1);
    }
  }

  lemma {:induction false} UniformRows(s: seq<Cell>, w: nat, h: nat, k: CellKind, m: nat)
    requires w > 0 && h > 0 && |s| == Area(w, h)
    requires forall y: int, n: nat :: RowEntropy(s, w, h, y, n) == 0
    ensures RowsEntropy(s, w, h, m) == 0
  {
    if m > 0 {
      UniformRows(s, w, h, k, m - 1);
    }
  }
}
