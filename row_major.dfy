/**
 * Row-major flattening of a two-dimensional index space.
 *
 * The solver stores cell (i, j) of the n-by-n grid at position i * n + j of
 * its flat variable array, and it stores cell (di, dj) of a k-by-k block at
 * slot di * k + dj of the block's group. Both are the same map
 * (i, j) |-> i * w + j, and this module proves that it is a bijection from
 * [0, h) x [0, w) onto [0, h * w), with (p / w, p % w) as its inverse.
 */
module RowMajor {

  /** Position of cell (i, j) in the row-major layout of rows of width w. */
  function Flatten(i: int, j: int, w: int): int {
    i * w + j
  }

  /** Row of position p in the row-major layout of rows of width w. */
  function RowOf(p: int, w: int): int
    requires w > 0
  {
    p / w
  }

  /** Column of position p in the row-major layout of rows of width w. */
  function ColOf(p: int, w: int): int
    requires w > 0
  {
    p % w
  }

  lemma MulMonotone(a: int, b: int, w: int)
    requires a <= b && 0 <= w
    ensures a * w <= b * w
  {
    assert b * w - a * w == (b - a) * w;
  }

  /** A flattened index stays inside [0, h * w). */
  lemma FlattenInRange(i: int, j: int, h: int, w: int)
    requires 0 <= i < h && 0 <= j < w
    ensures 0 <= Flatten(i, j, w) < h * w
  {
    MulMonotone(0, i, w);
    MulMonotone(i + 1, h, w);
    assert (i + 1) * w == i * w + w;
  }

  /** Euclidean division recovers the row and column from a flattened index. */
  lemma FlattenDivMod(i: int, j: int, w: int)
    requires 0 <= i && 0 <= j < w
    ensures Flatten(i, j, w) / w == i && Flatten(i, j, w) % w == j
  {
    var p := i * w + j;
    var q, r := p / w, p % w;
    assert p == q * w + r && 0 <= r < w;
    // (i - q) * w == r - j lies strictly between -w and w, so i == q.
    assert (i - q) * w == r - j;
    if i - q >= 1 {
      MulMonotone(1, i - q, w);
      assert false;
    } else if i - q <= -1 {
      MulMonotone(i - q, -1, w);
      assert false;
    }
  }

  /** Every position of [0, h * w) is the flattening of its row and column, which lie in range. */
  lemma UnflattenInRange(p: int, h: int, w: int)
    requires 0 < w && 0 <= p < h * w
    ensures 0 <= RowOf(p, w) < h && 0 <= ColOf(p, w) < w
    ensures Flatten(RowOf(p, w), ColOf(p, w), w) == p
  {
    var q := p / w;
    assert p == q * w + p % w;
    if q < 0 {
      MulMonotone(q, -1, w);
      assert false;
    }
    if q >= h {
      MulMonotone(h, q, w);
      assert false;
    }
  }

  /**
   * (i, j) |-> i * w + j maps [0, h) x [0, w) into [0, h * w), is undone by
   * (RowOf, ColOf), and every position of [0, h * w) is hit: a bijection.
   */
  lemma RowMajorBijection(h: int, w: int)
    requires 0 < w
    ensures forall i, j :: 0 <= i < h && 0 <= j < w ==>
              0 <= Flatten(i, j, w) < h * w &&
              RowOf(Flatten(i, j, w), w) == i && ColOf(Flatten(i, j, w), w) == j
    ensures forall p :: 0 <= p < h * w ==>
              0 <= RowOf(p, w) < h && 0 <= ColOf(p, w) < w &&
              Flatten(RowOf(p, w), ColOf(p, w), w) == p
  {
    forall i, j | 0 <= i < h && 0 <= j < w
      ensures 0 <= Flatten(i, j, w) < h * w
      ensures RowOf(Flatten(i, j, w), w) == i && ColOf(Flatten(i, j, w), w) == j
    {
      FlattenInRange(i, j, h, w);
      FlattenDivMod(i, j, w);
    }
    forall p | 0 <= p < h * w
      ensures 0 <= RowOf(p, w) < h && 0 <= ColOf(p, w) < w
      ensures Flatten(RowOf(p, w), ColOf(p, w), w) == p
    {
      UnflattenInRange(p, h, w);
    }
  }

  /** Distinct cells have distinct flattened positions. */
  lemma FlattenInjective(i1: int, j1: int, i2: int, j2: int, w: int)
    requires 0 <= i1 && 0 <= j1 < w && 0 <= i2 && 0 <= j2 < w
    requires Flatten(i1, j1, w) == Flatten(i2, j2, w)
    ensures i1 == i2 && j1 == j2
  {
    FlattenDivMod(i1, j1, w);
    FlattenDivMod(i2, j2, w);
  }
}
