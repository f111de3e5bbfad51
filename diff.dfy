/** `printDiff`: scan two equally shaped row-major buffers, count the cells
    whose values differ by more than a tolerance, and list only the first
    `iListLength` of them. The printed lines are modelled as the returned
    list of mismatches; the values are exact reals and `fabs` is `FAbs`. */
module Diff {
  import opened Arith

  /** One listed difference (line 71): column i, row j, the two values and
      their absolute difference. */
  datatype Mismatch = Mismatch(col: int, row: int, cpu: real, gpu: real, diff: real)

  /** `fabs` on exact reals. */
  function FAbs(x: real): real
  {
    if x < 0.0 then -x else x
  }

  /** Where a mismatch sits in the flat buffer. */
  function Position(m: Mismatch, width: int): int
  {
    m.row * width + m.col
  }

  /** The number of cells the double loop visits: width * height, or none
      when either bound is not positive. */
  function Cells(width: int, height: int): nat
  {
    if width > 0 && height > 0 then width * height else 0
  }

  /** Cell k of the two buffers differs by more than tol. */
  predicate Exceeds(d1: seq<real>, d2: seq<real>, tol: real, k: nat)
    requires k < |d1| && k < |d2|
  {
    FAbs(d1[k] - d2[k]) > tol
  }

  /** How many of the first n cells differ by more than tol. */
  function CountExceeding(d1: seq<real>, d2: seq<real>, tol: real, n: nat): nat
    requires n <= |d1| && n <= |d2|
  {
    if n == 0 then 0
    else CountExceeding(d1, d2, tol, n - 1) + (if Exceeds(d1, d2, tol, n - 1) then 1 else 0)
  }

  /** Every difference among the first n cells, in row-major order, each
      with the column and row the double loop gives it. */
  function MismatchesBefore(d1: seq<real>, d2: seq<real>, width: int, tol: real, n: nat): seq<Mismatch>
    requires n <= |d1| && n <= |d2| && (n > 0 ==> width > 0)
  {
    if n == 0 then []
    else
      var k := n - 1;
      MismatchesBefore(d1, d2, width, tol, k) +
        if Exceeds(d1, d2, tol, k) then [Mismatch(k % width, k / width, d1[k], d2[k], FAbs(d1[k] - d2[k]))] else []
  }

  /** The list of differences is as long as their count. */
  lemma {:induction false} MismatchCountAgrees(d1: seq<real>, d2: seq<real>, width: int, tol: real, n: nat)
    requires n <= |d1| && n <= |d2| && (n > 0 ==> width > 0)
    ensures |MismatchesBefore(d1, d2, width, tol, n)| == CountExceeding(d1, d2, tol, n)
  {
    if n > 0 {
      MismatchCountAgrees(d1, d2, width, tol, n - 1);
    }
  }

  /** The count is the size of the set of differing cells. */
  lemma {:induction false} CountIsCardinality(d1: seq<real>, d2: seq<real>, tol: real, n: nat)
    requires n <= |d1| && n <= |d2|
    ensures CountExceeding(d1, d2, tol, n) == |set k | 0 <= k < n && Exceeds(d1, d2, tol, k)|
  {
    if n > 0 {
      CountIsCardinality(d1, d2, tol, n - 1);
      var before := set k | 0 <= k < n - 1 && Exceeds(d1, d2, tol, k);
      var after := set k | 0 <= k < n && Exceeds(d1, d2, tol, k);
      if Exceeds(d1, d2, tol, n - 1) {
        assert after == before + {n - 1};
      } else {
        assert after == before;
      }
    }
  }

  /** The listed differences are exactly the differing cells below n: each
      names a differing cell with its two values and their distance, they come
      in strictly increasing row-major position, and none is missed. */
  lemma {:induction false} MismatchesAreExactlyTheDifferences(d1: seq<real>, d2: seq<real>, width: int, tol: real, n: nat)
    requires n <= |d1| && n <= |d2| && (n > 0 ==> width > 0)
    ensures var ms := MismatchesBefore(d1, d2, width, tol, n);
      (forall x :: 0 <= x < |ms| ==>
        0 <= ms[x].col < width && 0 <= Position(ms[x], width) < n &&
        ms[x].cpu == d1[Position(ms[x], width)] && ms[x].gpu == d2[Position(ms[x], width)] &&
        ms[x].diff == FAbs(ms[x].cpu - ms[x].gpu) && ms[x].diff > tol) &&
      (forall x, y :: 0 <= x < y < |ms| ==> Position(ms[x], width) < Position(ms[y], width)) &&
      (forall k :: 0 <= k < n && Exceeds(d1, d2, tol, k) ==>
        exists x :: 0 <= x < |ms| && Position(ms[x], width) == k)
  {
    if n > 0 {
      var k := n - 1;
      MismatchesAreExactlyTheDifferences(d1, d2, width, tol, k);
      var before := MismatchesBefore(d1, d2, width, tol, k);
      var ms := MismatchesBefore(d1, d2, width, tol, n);
      if Exceeds(d1, d2, tol, k) {
        var m := Mismatch(k % width, k / width, d1[k], d2[k], FAbs(d1[k] - d2[k]));
        assert ms == before + [m];
        assert Position(m, width) == k;
        assert ms[|before|] == m;
        forall x | 0 <= x < |before|
          ensures ms[x] == before[x]
        {
        }
      } else {
        assert ms == before;
      }
    }
  }

  /** Two buffers equal on the first n cells show no difference there, for
      any tolerance that is not negative. */
  lemma {:induction false} IdenticalBuffersHaveNoErrors(d1: seq<real>, d2: seq<real>, width: int, tol: real, n: nat)
    requires n <= |d1| && n <= |d2| && (n > 0 ==> width > 0) && tol >= 0.0
    requires forall k :: 0 <= k < n ==> d1[k] == d2[k]
    ensures CountExceeding(d1, d2, tol, n) == 0
    ensures MismatchesBefore(d1, d2, width, tol, n) == []
  {
    if n > 0 {
      IdenticalBuffersHaveNoErrors(d1, d2, width, tol, n - 1);
    }
  }

  /** Buffers that differ beyond tol in one cell p only show exactly one
      difference, at p. */
  lemma {:induction false} SingleDifferenceIsListed(d1: seq<real>, d2: seq<real>, width: int, tol: real, n: nat, p: nat)
    requires n <= |d1| && n <= |d2| && (n > 0 ==> width > 0) && tol >= 0.0
    requires p < n && FAbs(d1[p] - d2[p]) > tol
    requires forall k :: 0 <= k < n && k != p ==> d1[k] == d2[k]
    ensures CountExceeding(d1, d2, tol, n) == 1
    ensures MismatchesBefore(d1, d2, width, tol, n) ==
      [Mismatch(p % width, p / width, d1[p], d2[p], FAbs(d1[p] - d2[p]))]
  {
    if n - 1 == p {
      IdenticalBuffersHaveNoErrors(d1, d2, width, tol, p);
    } else {
      SingleDifferenceIsListed(d1, d2, width, tol, n - 1, p);
    }
  }

  function Min(x: int, y: int): int
  {
    if x < y then x else y
  }

  /** The running state of printDiff after the first n cells: the count of
      differences so far, and the list, which is a prefix of every difference
      so far and is as long as the count capped at listLength. */
  ghost predicate ScannedUpTo(d1: seq<real>, d2: seq<real>, width: int, tol: real, n: nat,
                              listLength: int, count: int, listed: seq<Mismatch>)
    requires n <= |d1| && n <= |d2| && (n > 0 ==> width > 0)
  {
    count == CountExceeding(d1, d2, tol, n) &&
    listed <= MismatchesBefore(d1, d2, width, tol, n) &&
    |listed| == if listLength <= 0 then 0 else Min(count, listLength)
  }

  /** Scanning cell n updates the count and the bounded list the way the
      loop body of printDiff does (lines 64-75), and keeps the running state. */
  lemma ScanStep(d1: seq<real>, d2: seq<real>, width: int, tol: real, n: nat,
                 count: int, listed: seq<Mismatch>, listLength: int)
    requires n < |d1| && n < |d2| && width > 0
    requires ScannedUpTo(d1, d2, width, tol, n, listLength, count, listed)
    ensures var m := Mismatch(n % width, n / width, d1[n], d2[n], FAbs(d1[n] - d2[n]));
      var count' := if Exceeds(d1, d2, tol, n) then count + 1 else count;
      var listed' := if Exceeds(d1, d2, tol, n) && count < listLength then listed + [m] else listed;
      ScannedUpTo(d1, d2, width, tol, n + 1, listLength, count', listed')
  {
    MismatchCountAgrees(d1, d2, width, tol, n);
    var all := MismatchesBefore(d1, d2, width, tol, n);
    if Exceeds(d1, d2, tol, n) && count < listLength {
      assert listed == all;
    }
  }

  /** One pass of the inner loop of printDiff (lines 62-76): the columns of
      row j, cell j * width + i for each i < width. */
  method ScanRow(data1: array<real>, data2: array<real>, width: int, j: nat, listLength: int, listTol: real,
                 count0: int, listed0: seq<Mismatch>) returns (errorCount: int, listed: seq<Mismatch>)
    requires width > 0 && j * width + width <= data1.Length && j * width + width <= data2.Length
    requires ScannedUpTo(data1[..], data2[..], width, listTol, j * width, listLength, count0, listed0)
    ensures ScannedUpTo(data1[..], data2[..], width, listTol, j * width + width, listLength, errorCount, listed)
  {
    ghost var d1, d2 := data1[..], data2[..];
    errorCount, listed := count0, listed0;
    var i := 0;
    while i < width
      invariant 0 <= i <= width
      invariant ScannedUpTo(d1, d2, width, listTol, j * width + i, listLength, errorCount, listed)
    {
      RowMajorSplit(j, i, width);
      ScanStep(d1, d2, width, listTol, j * width + i, errorCount, listed, listLength);
      var k := j * width + i;
      var fDiff := FAbs(data1[k] - data2[k]);
      if fDiff > listTol {
        if errorCount < listLength {
          listed := listed + [Mismatch(i, j, data1[k], data2[k], fDiff)];
        }
        errorCount := errorCount + 1;
      }
      i := i + 1;
    }
  }

  /** printDiff (lines 49-80): walk rows j and columns i, compare cell
      k = j * width + i, count every difference above listTol and list it
      while fewer than listLength have been counted. The per-row branch at
      lines 57-60 has an empty body and is not modelled. */
  method PrintDiff(data1: array<real>, data2: array<real>, width: int, height: int, listLength: int, listTol: real)
    returns (errorCount: int, listed: seq<Mismatch>)
    requires Cells(width, height) <= data1.Length && Cells(width, height) <= data2.Length
    ensures errorCount == CountExceeding(data1[..], data2[..], listTol, Cells(width, height))
    ensures listed <= MismatchesBefore(data1[..], data2[..], width, listTol, Cells(width, height))
    ensures |listed| == if listLength <= 0 then 0 else Min(errorCount, listLength)
  {
    errorCount := 0;
    listed := [];
    if width <= 0 {
      return;
    }
    var j := 0;
    while j < height
      invariant 0 <= j && (j <= height || j == 0)
      invariant j * width <= Cells(width, height)
      invariant ScannedUpTo(data1[..], data2[..], width, listTol, j * width, listLength, errorCount, listed)
    {
      RowEnd(j, height, width);
      errorCount, listed := ScanRow(data1, data2, width, j, listLength, listTol, errorCount, listed);
      assert (j + 1) * width == j * width + width;
      j := j + 1;
    }
  }
}
