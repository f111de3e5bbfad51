/** Index arithmetic on flat row-major buffers: where element (i, j) of an
    h x w matrix lives, and how a flat index splits back into row and column. */
module Arith {

  /** x <= y scales to x * c <= y * c for a non-negative factor. */
  lemma MulMonotone(x: int, y: int, c: nat)
    requires x <= y
    ensures x * c <= y * c
  {
    assert y * c == x * c + (y - x) * c;
  }

  /** A positive factor can be cancelled from both sides of x * c < y * c. */
  lemma MulCancelLess(x: int, y: int, c: nat)
    requires x * c < y * c
    ensures x < y
  {
    if y <= x {
      MulMonotone(y, x, c);
    }
  }

  /** Row i of an h x w matrix ends no later than the buffer does. */
  lemma RowEnd(i: nat, h: nat, w: nat)
    requires i < h
    ensures i * w + w <= h * w
  {
    MulMonotone(i + 1, h, w);
  }

  /** Element (i, j) of an h x w row-major matrix is inside the h * w buffer. */
  lemma RowMajorInBounds(i: nat, j: nat, h: nat, w: nat)
    requires i < h && j < w
    ensures i * w + j < h * w
  {
    RowEnd(i, h, w);
  }

  /** The quotient and remainder of Euclidean division are the only pair
      that rebuilds k with a remainder in [0, w). */
  lemma DivModUnique(k: int, w: int, q: int, r: int)
    requires w > 0 && 0 <= r < w && k == q * w + r
    ensures k / w == q && k % w == r
  {
    var q0, r0 := k / w, k % w;
    assert k == q0 * w + r0;
    if q0 > q {
      MulMonotone(q + 1, q0, w);
      assert false;
    } else if q0 < q {
      MulMonotone(q0 + 1, q, w);
      assert false;
    }
  }

  /** Splitting the flat index of element (i, j) with `/` and `%` by the
      row length gives back the row i and the column j. */
  lemma RowMajorSplit(i: nat, j: nat, w: nat)
    requires j < w
    ensures (i * w + j) / w == i && (i * w + j) % w == j
  {
    DivModUnique(i * w + j, w, i, j);
  }

  /** A flat index inside an h x w buffer names a row below h. */
  lemma FlatRowBound(k: nat, h: nat, w: nat)
    requires k < h * w
    ensures w > 0 && 0 <= k / w < h && 0 <= k % w < w
  {
    if w == 0 {
      assert false;
    }
    if k / w >= h {
      MulMonotone(h, k / w, w);
      assert false;
    }
  }
}
