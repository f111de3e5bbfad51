/** The host-side reference multiply `matrixMulCPU`: C = A * B over flat
    row-major buffers, A of hA x wA, B of wA x wB, C of hA x wB.
    Element values are exact reals; the double accumulator and the final
    rounding to float are not modelled. */
module Reference {
  import opened Arith

  /** The first `len` terms of the inner product of row i of A (row length wA)
      with column j of B (row length wB): the sum over k < len of
      A[i*wA + k] * B[k*wB + j]. */
  function Dot(A: seq<real>, B: seq<real>, wA: nat, wB: nat, i: nat, j: nat, len: nat): real
    requires i * wA + len <= |A|
    requires len > 0 ==> (len - 1) * wB + j < |B|
    decreases len
  {
    if len == 0 then 0.0
    else
      MulMonotone(len - 2, len - 1, wB);
      Dot(A, B, wA, wB, i, j, len - 1) + A[i * wA + len - 1] * B[(len - 1) * wB + j]
  }

  /** Term k of the inner product of row i and column j reads inside A and B. */
  lemma DotReadsInBounds(i: nat, j: nat, k: nat, wA: nat, wB: nat, lenA: nat, lenB: nat)
    requires k < wA && i * wA + wA <= lenA && (wA - 1) * wB + j < lenB
    ensures i * wA + k < lenA && 0 <= k * wB && k * wB + j < lenB
  {
    MulMonotone(k, wA - 1, wB);
    MulMonotone(0, k, wB);
  }

  /** One more term of the inner product. */
  lemma DotStep(A: seq<real>, B: seq<real>, wA: nat, wB: nat, i: nat, j: nat, k: nat)
    requires i * wA + k < |A| && k * wB + j < |B|
    ensures Dot(A, B, wA, wB, i, j, k + 1) == Dot(A, B, wA, wB, i, j, k) + A[i * wA + k] * B[k * wB + j]
  {
  }

  /** A and B are large enough for an hA x wA by wA x wB product. */
  predicate Fits(A: seq<real>, B: seq<real>, hA: nat, wA: nat, wB: nat)
  {
    |A| >= hA * wA && |B| >= wA * wB
  }

  /** Every index the inner product of row i and column j touches is inside A and B. */
  lemma DotInBounds(A: seq<real>, B: seq<real>, hA: nat, wA: nat, wB: nat, i: nat, j: nat)
    requires Fits(A, B, hA, wA, wB) && i < hA && j < wB
    ensures i * wA + wA <= |A|
    ensures wA > 0 ==> (wA - 1) * wB + j < |B|
  {
    RowEnd(i, hA, wA);
    if wA > 0 {
      RowMajorInBounds(wA - 1, j, wA, wB);
    }
  }

  /** The product's entry at flat index k, that is at row k / wB and column k % wB. */
  function Entry(A: seq<real>, B: seq<real>, hA: nat, wA: nat, wB: nat, k: nat): real
    requires Fits(A, B, hA, wA, wB) && k < hA * wB
  {
    FlatRowBound(k, hA, wB);
    DotInBounds(A, B, hA, wA, wB, k / wB, k % wB);
    Dot(A, B, wA, wB, k / wB, k % wB, wA)
  }

  /** The entry stored for (i, j) at index i*wB + j is the inner product of
      row i of A with column j of B. */
  lemma EntryAt(A: seq<real>, B: seq<real>, hA: nat, wA: nat, wB: nat, i: nat, j: nat)
    requires Fits(A, B, hA, wA, wB) && i < hA && j < wB
    ensures i * wB + j < hA * wB
    ensures i * wA + wA <= |A| && (wA > 0 ==> (wA - 1) * wB + j < |B|)
    ensures Entry(A, B, hA, wA, wB, i * wB + j) == Dot(A, B, wA, wB, i, j, wA)
  {
    RowMajorInBounds(i, j, hA, wB);
    RowMajorSplit(i, j, wB);
    DotInBounds(A, B, hA, wA, wB, i, j);
  }

  /** The first hA * wB cells of C hold the product of A and B. */
  ghost predicate IsProduct(C: seq<real>, A: seq<real>, B: seq<real>, hA: nat, wA: nat, wB: nat)
    requires Fits(A, B, hA, wA, wB)
  {
    |C| >= hA * wB &&
    forall k :: 0 <= k < hA * wB ==> C[k] == Entry(A, B, hA, wA, wB, k)
  }

  /** Two buffers that both hold the product of the same A and B agree on it. */
  lemma ProductUnique(C1: seq<real>, C2: seq<real>, A: seq<real>, B: seq<real>, hA: nat, wA: nat, wB: nat)
    requires Fits(A, B, hA, wA, wB)
    requires IsProduct(C1, A, B, hA, wA, wB) && IsProduct(C2, A, B, hA, wA, wB)
    ensures C1[..hA * wB] == C2[..hA * wB]
  {
    assert forall k :: 0 <= k < hA * wB ==> C1[..hA * wB][k] == C2[..hA * wB][k];
  }

  /** The innermost loop of matrixMulCPU: accumulate A[i*wA + k] * B[k*wB + j]
      over k < wA, which is the inner product of row i and column j. */
  method RowColumnSum(A: array<real>, B: array<real>, wA: nat, wB: nat, i: nat, j: nat) returns (sum: real)
    requires i * wA + wA <= A.Length && (wA > 0 ==> (wA - 1) * wB + j < B.Length)
    ensures sum == Dot(A[..], B[..], wA, wB, i, j, wA)
  {
    ghost var a, b := A[..], B[..];
    sum := 0.0;
    for k := 0 to wA
      invariant k > 0 ==> (k - 1) * wB + j < |b|
      invariant sum == Dot(a, b, wA, wB, i, j, k)
    {
      DotReadsInBounds(i, j, k, wA, wB, A.Length, B.Length);
      DotStep(a, b, wA, wB, i, j, k);
      sum := sum + A[i * wA + k] * B[k * wB + j];
    }
  }

  /** matrixMulCPU: for each row i and column j, accumulate the inner product
      over k and store it at C[i*wB + j]. Nothing beyond the first hA * wB
      cells of C is written. */
  method MatrixMulCpu(C: array<real>, A: array<real>, B: array<real>, hA: nat, wA: nat, wB: nat)
    requires C != A && C != B
    requires Fits(A[..], B[..], hA, wA, wB) && C.Length >= hA * wB
    modifies C
    ensures IsProduct(C[..], A[..], B[..], hA, wA, wB)
    ensures C[hA * wB..] == old(C[hA * wB..])
  {
    ghost var a, b := A[..], B[..];
    for i := 0 to hA
      invariant i * wB <= hA * wB
      invariant forall k :: 0 <= k < i * wB ==> C[k] == Entry(a, b, hA, wA, wB, k)
      invariant forall k :: i * wB <= k < C.Length ==> C[k] == old(C[k])
    {
      RowEnd(i, hA, wB);
      for j := 0 to wB
        invariant i * wB + j <= hA * wB
        invariant forall k :: 0 <= k < i * wB + j ==> C[k] == Entry(a, b, hA, wA, wB, k)
        invariant forall k :: i * wB + j <= k < C.Length ==> C[k] == old(C[k])
      {
        EntryAt(a, b, hA, wA, wB, i, j);
        var sum := RowColumnSum(A, B, wA, wB, i, j);
        C[i * wB + j] := sum;
      }
      assert (i + 1) * wB == i * wB + wB;
    }
  }
}
