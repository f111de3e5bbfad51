/** The device kernel `element` and its launch. Each thread takes a linear
    index i, splits it into (quot, rem) by row_num_b with C's truncating `/`
    and `%`, accumulates one inner product and stores it in one output slot.
    The launch is modelled as a sequential walk over every (block, thread)
    pair of the grid; this is sound because no thread reads `c` and every
    thread writes its own slot. Element values are exact reals. */
module Kernel {
  import opened Arith
  import opened Reference

  function Abs(x: int): nat
  {
    if x < 0 then -x else x
  }

  /** C's `/` on int: the quotient truncated toward zero. */
  function CDiv(x: int, d: int): int
    requires d != 0
  {
    if (x < 0) == (d < 0) then Abs(x) / Abs(d) else -(Abs(x) / Abs(d))
  }

  /** C's `%` on int: the remainder takes the sign of the dividend. */
  function CMod(x: int, d: int): int
    requires d != 0
  {
    if x < 0 then -(Abs(x) % Abs(d)) else Abs(x) % Abs(d)
  }

  /** C's quotient and remainder rebuild the dividend, so the slot a thread
      writes, quot * row_num_b + rem, is its own index; for a non-negative
      index and a positive divisor they agree with Euclidean division. */
  lemma DivModIdentity(x: int, d: int)
    requires d != 0
    ensures CDiv(x, d) * d + CMod(x, d) == x
    ensures Abs(CMod(x, d)) < Abs(d)
    ensures x >= 0 && d > 0 ==> CDiv(x, d) == x / d && CMod(x, d) == x % d
  {
    var q, m := Abs(x) / Abs(d), Abs(x) % Abs(d);
    assert Abs(x) == q * Abs(d) + m;
    if x >= 0 && d < 0 {
      assert CDiv(x, d) * d == q * Abs(d);
    } else if x < 0 && d > 0 {
      assert CDiv(x, d) * d == -(q * Abs(d));
    } else if x < 0 && d < 0 {
      assert CDiv(x, d) * d == -(q * Abs(d));
    }
  }

  /** Two different threads write two different slots of c, whatever the
      non-zero row_num_b, since each writes quot * row_num_b + rem = its index. */
  lemma DistinctThreadsDistinctSlots(i: nat, t: nat, r: int)
    requires r != 0 && i != t
    ensures CDiv(i, r) * r + CMod(i, r) != CDiv(t, r) * r + CMod(t, r)
  {
    DivModIdentity(i, r);
    DivModIdentity(t, r);
  }

  /** The reads of thread i are inside a and b: row_num_b is not zero, and
      when it is positive the row quot of a and the column rem of b that the
      loop walks both lie inside the buffers. */
  predicate ReadsInBounds(i: nat, r: int, lenA: nat, lenB: nat)
  {
    r != 0 &&
    (r > 0 ==>
      0 <= CDiv(i, r) && r * CDiv(i, r) + r <= lenA &&
      0 <= CMod(i, r) && r * (r - 1) + CMod(i, r) < lenB)
  }

  /** Everything thread i touches is in bounds: a thread at or beyond n
      touches nothing; the others read within a and b and write c[i]. */
  predicate ThreadInBounds(i: nat, n: int, r: int, lenA: nat, lenB: nat, lenC: nat)
  {
    i < n ==> ReadsInBounds(i, r, lenA, lenB) && i < lenC
  }

  /** Every thread of a launch of `threads` threads is in bounds. */
  predicate LaunchInBounds(threads: nat, n: int, r: int, lenA: nat, lenB: nat, lenC: nat)
  {
    forall t :: 0 <= t < threads ==> ThreadInBounds(t, n, r, lenA, lenB, lenC)
  }

  /** The first `len` terms of the kernel's sum:
      a[r*quot + j] * b[r*j + rem] over j < len. */
  function KernelDot(a: seq<real>, b: seq<real>, r: int, quot: int, rem: int, len: nat): real
    requires len > 0 ==> r > 0 && 0 <= quot && r * quot + len <= |a| &&
                         0 <= rem && r * (len - 1) + rem < |b|
    decreases len
  {
    if len == 0 then 0.0
    else
      MulMonotone(len - 2, len - 1, r);
      MulMonotone(0, len - 1, r);
      MulMonotone(0, quot, r);
      KernelDot(a, b, r, quot, rem, len - 1) + a[r * quot + len - 1] * b[r * (len - 1) + rem]
  }

  /** One more term of the kernel's sum. */
  lemma KernelDotStep(a: seq<real>, b: seq<real>, r: int, quot: int, rem: int, k: nat)
    requires r > 0 && 0 <= quot && r * quot + k < |a| && 0 <= rem && 0 <= r * k && r * k + rem < |b|
    ensures KernelDot(a, b, r, quot, rem, k + 1) == KernelDot(a, b, r, quot, rem, k) + a[r * quot + k] * b[r * k + rem]
  {
  }

  /** The value thread i stores: the whole kernel sum, which is empty when
      row_num_b is negative. */
  function ElementValue(a: seq<real>, b: seq<real>, r: int, i: nat): real
    requires ReadsInBounds(i, r, |a|, |b|)
  {
    KernelDot(a, b, r, CDiv(i, r), CMod(i, r), if r > 0 then r else 0)
  }

  /** Term j of the kernel's sum reads inside a and b. */
  lemma KernelReadsInBounds(r: int, quot: int, rem: int, j: nat, lenA: nat, lenB: nat)
    requires 0 <= j < r && 0 <= quot && r * quot + r <= lenA && 0 <= rem && r * (r - 1) + rem < lenB
    ensures 0 <= r * quot && r * quot + j < lenA
    ensures 0 <= r * j && r * j + rem < lenB
  {
    MulMonotone(j, r - 1, r);
    MulMonotone(0, j, r);
    MulMonotone(0, quot, r);
  }

  /** The loop of `element` (lines 93-97): temp accumulates
      a[r*quot + j] * b[r*j + rem] for j from 0 while j < r. */
  method KernelSum(a: array<real>, b: array<real>, r: int, quot: int, rem: int) returns (temp: real)
    requires r > 0 ==> 0 <= quot && r * quot + r <= a.Length && 0 <= rem && r * (r - 1) + rem < b.Length
    ensures temp == KernelDot(a[..], b[..], r, quot, rem, if r > 0 then r else 0)
  {
    ghost var ga, gb := a[..], b[..];
    temp := 0.0;
    var j := 0;
    while j < r
      invariant 0 <= j <= (if r > 0 then r else 0)
      invariant j > 0 ==> r * (j - 1) + rem < b.Length
      invariant temp == KernelDot(ga, gb, r, quot, rem, j)
    {
      KernelReadsInBounds(r, quot, rem, j, a.Length, b.Length);
      KernelDotStep(ga, gb, r, quot, rem, j);
      temp := temp + a[r * quot + j] * b[r * j + rem];
      j := j + 1;
    }
  }

  /** One thread of `element` with thread index i (lines 85-100): threads at
      or beyond n do nothing; the others split i into quot and rem by
      row_num_b, sum, and store the sum in slot quot * row_num_b + rem, which
      is slot i. */
  method Element(i: nat, n: int, rowNumB: int, a: array<real>, b: array<real>, c: array<real>)
    requires c != a && c != b
    requires ThreadInBounds(i, n, rowNumB, a.Length, b.Length, c.Length)
    modifies c
    ensures i < n ==> i < c.Length && c[..] == old(c[..])[i := ElementValue(a[..], b[..], rowNumB, i)]
    ensures i >= n ==> c[..] == old(c[..])
  {
    if i < n {
      var quot := CDiv(i, rowNumB);
      var rem := CMod(i, rowNumB);
      assert quot * rowNumB + rem == i by {
        DivModIdentity(i, rowNumB);
      }
      var temp := KernelSum(a, b, rowNumB, quot, rem);
      c[quot * rowNumB + rem] := temp;
    }
  }

  /** What c holds after a launch of `threads` threads: slot i < n that some
      thread covers holds that thread's value, every other slot is as before. */
  ghost function LaunchOutput(c: seq<real>, a: seq<real>, b: seq<real>, n: int, r: int, threads: nat): (out: seq<real>)
    requires LaunchInBounds(threads, n, r, |a|, |b|, |c|)
    ensures |out| == |c|
  {
    seq(|c|, i requires 0 <= i < |c| =>
      if i < n && i < threads then
        assert ThreadInBounds(i, n, r, |a|, |b|, |c|);
        ElementValue(a, b, r, i)
      else c[i])
  }

  /** `element<<<blocks, blockDim>>>(n, row_num_b, a, b, c)` (lines 176, 182):
      thread blockIdx * blockDim + threadIdx runs the kernel body, for every
      block and every thread of the block. */
  method Launch(blocks: nat, blockDim: nat, n: int, rowNumB: int, a: array<real>, b: array<real>, c: array<real>)
    requires c != a && c != b
    requires LaunchInBounds(blocks * blockDim, n, rowNumB, a.Length, b.Length, c.Length)
    modifies c
    ensures c[..] == LaunchOutput(old(c[..]), a[..], b[..], n, rowNumB, blocks * blockDim)
  {
    ghost var c0 := c[..];
    var bx := 0;
    while bx < blocks
      invariant 0 <= bx <= blocks
      invariant bx * blockDim <= blocks * blockDim
      invariant c[..] == LaunchOutput(c0, a[..], b[..], n, rowNumB, bx * blockDim)
    {
      RowEnd(bx, blocks, blockDim);
      var tx := 0;
      while tx < blockDim
        invariant 0 <= tx <= blockDim
        invariant bx * blockDim + tx <= blocks * blockDim
        invariant c[..] == LaunchOutput(c0, a[..], b[..], n, rowNumB, bx * blockDim + tx)
      {
        ghost var t := bx * blockDim + tx;
        RowMajorInBounds(bx, tx, blocks, blockDim);
        Element(bx * blockDim + tx, n, rowNumB, a, b, c);
        assert c[..] == LaunchOutput(c0, a[..], b[..], n, rowNumB, t + 1);
        tx := tx + 1;
      }
      assert (bx + 1) * blockDim == bx * blockDim + blockDim;
      bx := bx + 1;
    }
  }

  /** No thread reads c, so launching the kernel again on its own output
      changes nothing. */
  lemma LaunchIdempotent(c: seq<real>, a: seq<real>, b: seq<real>, n: int, r: int, threads: nat)
    requires LaunchInBounds(threads, n, r, |a|, |b|, |c|)
    ensures LaunchOutput(LaunchOutput(c, a, b, n, r, threads), a, b, n, r, threads) ==
            LaunchOutput(c, a, b, n, r, threads)
  {
    var once := LaunchOutput(c, a, b, n, r, threads);
    var twice := LaunchOutput(once, a, b, n, r, threads);
    assert forall k :: 0 <= k < |once| ==> twice[k] == once[k];
  }

  const ThreadsPerBlock: nat := 256

  /** The launch's block count (N + 255) / 256, computed in 32-bit unsigned
      arithmetic as the source does (lines 176, 182). */
  function GridBlocks(N: nat): nat
    requires N < 0x1_0000_0000
  {
    ((N + 255) % 0x1_0000_0000) / 256
  }

  /** When N + 255 does not wrap, the grid has enough threads for every output
      slot and less than one block to spare. */
  lemma GridCovers(N: nat)
    requires N + 255 < 0x1_0000_0000
    ensures N <= GridBlocks(N) * ThreadsPerBlock < N + ThreadsPerBlock
  {
  }

  /** With row_num_b = m and B square (m x m), every thread of an hA x m
      output is in bounds, and the row quot and column rem it derives lie
      inside the matrices. */
  lemma SquareThreadInBounds(hA: nat, m: nat, i: nat, lenA: nat, lenB: nat, lenC: nat)
    requires m > 0 && i < hA * m
    requires lenA >= hA * m && lenB >= m * m && lenC >= hA * m
    ensures CDiv(i, m) < hA && CMod(i, m) < m
    ensures ThreadInBounds(i, hA * m, m, lenA, lenB, lenC)
  {
    DivModIdentity(i, m);
    FlatRowBound(i, hA, m);
    var quot: nat, rem: nat := i / m, i % m;
    assert m * quot + m <= lenA by {
      RowEnd(quot, hA, m);
    }
    assert m * (m - 1) + rem < lenB by {
      RowMajorInBounds(m - 1, rem, m, m);
    }
  }

  /** For a row length m, the kernel's sum is the reference inner product of
      row quot of A with column rem of B. */
  lemma {:induction false} KernelDotIsDot(a: seq<real>, b: seq<real>, m: nat, quot: nat, rem: nat, len: nat)
    requires m > 0 && m * quot + len <= |a| && (len > 0 ==> m * (len - 1) + rem < |b|)
    ensures KernelDot(a, b, m, quot, rem, len) == Dot(a, b, m, m, quot, rem, len)
  {
    if len > 0 {
      MulMonotone(len - 2, len - 1, m);
      KernelDotIsDot(a, b, m, quot, rem, len - 1);
    }
  }

  /** When B is square (row_num_b = m = wA = wB), the value thread i stores
      is the reference product's entry i, for any number of rows hA. */
  lemma SquareElementIsEntry(a: seq<real>, b: seq<real>, hA: nat, m: nat, i: nat)
    requires m > 0 && i < hA * m && Fits(a, b, hA, m, m)
    ensures ReadsInBounds(i, m, |a|, |b|)
    ensures ElementValue(a, b, m, i) == Entry(a, b, hA, m, m, i)
  {
    SquareThreadInBounds(hA, m, i, |a|, |b|, hA * m);
    DivModIdentity(i, m);
    FlatRowBound(i, hA, m);
    DotInBounds(a, b, hA, m, m, i / m, i % m);
    KernelDotIsDot(a, b, m, i / m, i % m, m);
  }

  /** A launch with at least hA * m threads over an hA x m output, with B
      square, is in bounds and leaves the reference product in c; the slots
      past the product are untouched. Since the output does not depend on
      the old contents of c, launching again gives the same c. */
  lemma SquareLaunchIsProduct(c: seq<real>, a: seq<real>, b: seq<real>, hA: nat, m: nat, threads: nat)
    requires m > 0 && Fits(a, b, hA, m, m) && |c| >= hA * m && threads >= hA * m
    ensures LaunchInBounds(threads, hA * m, m, |a|, |b|, |c|)
    ensures IsProduct(LaunchOutput(c, a, b, hA * m, m, threads), a, b, hA, m, m)
    ensures LaunchOutput(c, a, b, hA * m, m, threads)[hA * m..] == c[hA * m..]
  {
    forall t | 0 <= t < threads
      ensures ThreadInBounds(t, hA * m, m, |a|, |b|, |c|)
    {
      if t < hA * m {
        SquareThreadInBounds(hA, m, t, |a|, |b|, |c|);
      }
    }
    var out := LaunchOutput(c, a, b, hA * m, m, threads);
    forall k | 0 <= k < hA * m
      ensures out[k] == Entry(a, b, hA, m, m, k)
    {
      SquareElementIsEntry(a, b, hA, m, k);
    }
  }

  /** Under the host's size check (row_num_b = uiHB = wA), a launch over an
      hA x wB output whose every thread is in bounds forces wB = wA: with a
      B that is not square some thread reads past a or b. */
  lemma InBoundsForcesSquareB(hA: nat, wA: nat, wB: nat)
    requires hA > 0 && wB > 0
    requires LaunchInBounds(hA * wB, hA * wB, wA, hA * wA, wA * wB, hA * wB)
    ensures wA == wB
  {
    var n := hA * wB;
    assert 0 < n by {
      MulMonotone(1, hA, wB);
    }
    // Thread 0 reads column 0 of B down to row wA - 1, so wA - 1 < wB.
    assert ThreadInBounds(0, n, wA, hA * wA, wA * wB, n);
    assert wA > 0 && CMod(0, wA) == 0;
    assert (wA - 1) * wA < wB * wA;
    assert wA <= wB by {
      MulCancelLess(wA - 1, wB, wA);
    }
    // The last thread reads row quot of A, which must be a row of A.
    var last := n - 1;
    assert ThreadInBounds(last, n, wA, hA * wA, wA * wB, n);
    var quot, rem := CDiv(last, wA), CMod(last, wA);
    assert quot * wA + rem == last && 0 <= rem < wA && quot >= 0 by {
      DivModIdentity(last, wA);
    }
    assert (quot + 1) * wA <= hA * wA;
    assert hA * wB < hA * wA + 1;
    assert wB <= wA by {
      MulCancelLess(wB, wA + 1, hA);
    }
  }

  /** The thread of the corrected kernel: quot and rem come from dividing by
      the output's row length wB, and the sum runs over the wA columns of A. */
  method ElementFixed(i: nat, n: int, wA: nat, wB: nat, a: array<real>, b: array<real>, c: array<real>, ghost hA: nat)
    requires c != a && c != b
    requires n == hA * wB && Fits(a[..], b[..], hA, wA, wB) && c.Length >= n
    modifies c
    ensures i < n ==> c[..] == old(c[..])[i := Entry(a[..], b[..], hA, wA, wB, i)]
    ensures i >= n ==> c[..] == old(c[..])
  {
    if i < n {
      var quot := i / wB;
      var rem := i % wB;
      assert quot < hA && rem < wB && quot * wB + rem == i by {
        FlatRowBound(i, hA, wB);
      }
      assert quot * wA + wA <= a.Length && (wA > 0 ==> (wA - 1) * wB + rem < b.Length) by {
        DotInBounds(a[..], b[..], hA, wA, wB, quot, rem);
      }
      var temp := RowColumnSum(a, b, wA, wB, quot, rem);
      assert temp == Entry(a[..], b[..], hA, wA, wB, i);
      c[quot * wB + rem] := temp;
    }
  }

  /** Launch of the corrected kernel with enough threads for every slot: c
      then holds the reference product, and the slots past it are untouched. */
  method LaunchFixed(blocks: nat, blockDim: nat, n: int, wA: nat, wB: nat, a: array<real>, b: array<real>, c: array<real>, ghost hA: nat)
    requires c != a && c != b
    requires n == hA * wB && Fits(a[..], b[..], hA, wA, wB) && c.Length >= n
    requires blocks * blockDim >= n
    modifies c
    ensures IsProduct(c[..], a[..], b[..], hA, wA, wB)
    ensures c[n..] == old(c[n..])
  {
    ghost var c0 := c[..];
    var bx := 0;
    while bx < blocks
      invariant 0 <= bx <= blocks
      invariant forall k :: 0 <= k < c.Length ==>
        c[k] == if k < n && k < bx * blockDim then Entry(a[..], b[..], hA, wA, wB, k) else c0[k]
    {
      var tx := 0;
      while tx < blockDim
        invariant 0 <= tx <= blockDim
        invariant forall k :: 0 <= k < c.Length ==>
          c[k] == if k < n && k < bx * blockDim + tx then Entry(a[..], b[..], hA, wA, wB, k) else c0[k]
      {
        ElementFixed(bx * blockDim + tx, n, wA, wB, a, b, c, hA);
        tx := tx + 1;
      }
      assert (bx + 1) * blockDim == bx * blockDim + blockDim;
      bx := bx + 1;
    }
    assert c[n..] == c0[n..];
  }
}
