/** The host program `main`: fix the matrix sizes, check that they fit
    together, copy A, B and C to the device, launch the kernel once to warm
    up and nIter more times, copy C back, compute the reference product on
    the host and, when the L2 comparison fails, list the differences.
    The random contents of A and B, the uninitialised contents of C and the
    verdict of the L2 comparison come in as parameters; timing is left out. */
module Benchmark {
  import opened Arith
  import opened Reference
  import opened Kernel
  import opened Diff

  datatype Option<T> = None | Some(value: T)

  /** The six dimensions of `sMatrixSize` (lines 13-16): A is uiHA x uiWA,
      B is uiHB x uiWB and C is uiHC x uiWC. */
  datatype MatrixSize = MatrixSize(uiWA: nat, uiHA: nat, uiWB: nat, uiHB: nat, uiWC: nat, uiHC: nat)

  /** The sizes main sets (lines 110-115). */
  const SourceSizes := MatrixSize(160, 160, 160, 160, 160, 160)

  /** Timed launches (line 107). */
  const NIter: nat := 30

  /** At most this many differences are listed (line 208). */
  const ListLength: int := 100

  /** The tolerance of the listing (line 208). */
  const ListTol: real := 0.00001

  /** The check at lines 122-128: A's width is B's height, C has A's height
      and B's width. */
  predicate SizesMatch(s: MatrixSize)
  {
    s.uiWA == s.uiHB && s.uiHA == s.uiHC && s.uiWB == s.uiWC
  }

  function SizeA(s: MatrixSize): nat { s.uiWA * s.uiHA }
  function SizeB(s: MatrixSize): nat { s.uiWB * s.uiHB }
  function SizeC(s: MatrixSize): nat { s.uiWC * s.uiHC }

  /** The byte counts sizeof(float) * size (lines 136-138) do not wrap
      around in 32-bit unsigned arithmetic. */
  predicate BytesFitU32(s: MatrixSize)
  {
    4 * SizeA(s) < 0x1_0000_0000 && 4 * SizeB(s) < 0x1_0000_0000 && 4 * SizeC(s) < 0x1_0000_0000
  }

  /** What printDiff reports: the number of differences and those listed. */
  datatype DiffReport = DiffReport(errorCount: int, listed: seq<Mismatch>)

  /** How main ends: it exits at the size check, or it finishes with the
      device's C, the host's reference, the PASS/FAIL verdict and, when the
      verdict is FAIL, what printDiff reported. */
  datatype Outcome =
    | SizeMismatch
    | Finished(gpu: seq<real>, reference: seq<real>, pass: bool, report: Option<DiffReport>)

  /** cudaMemcpy between two buffers of the same size (lines 157-159, 198). */
  method Copy(dst: array<real>, src: array<real>)
    requires dst != src && dst.Length == src.Length
    modifies dst
    ensures dst[..] == src[..]
  {
    forall k | 0 <= k < dst.Length {
      dst[k] := src[k];
    }
  }

  /** A buffer holding the given contents. */
  method FromSeq(s: seq<real>) returns (a: array<real>)
    ensures fresh(a) && a[..] == s
  {
    a := new real[|s|](k requires 0 <= k < |s| => s[k]);
  }

  /** The device part of main as written (lines 176-183): one warm-up
      launch and nIter timed launches of `element` over main's grid with
      row_num_b = uiHB, which equals wA under the size check. The launches
      stay in bounds exactly when B is square (`Kernel.InBoundsForcesSquareB`),
      so this takes wA == wB. Afterwards d_c is what one launch leaves, since
      every later launch reproduces it, and that is A * B. */
  method DeviceRuns(dA: array<real>, dB: array<real>, dC: array<real>, hA: nat, wA: nat, wB: nat)
    requires dC != dA && dC != dB && wA == wB
    requires Fits(dA[..], dB[..], hA, wA, wB) && dC.Length == hA * wB && hA * wB + 255 < 0x1_0000_0000
    modifies dC
    ensures LaunchInBounds(GridBlocks(hA * wB) * ThreadsPerBlock, hA * wB, wA, dA.Length, dB.Length, dC.Length)
    ensures dC[..] == LaunchOutput(old(dC[..]), dA[..], dB[..], hA * wB, wA, GridBlocks(hA * wB) * ThreadsPerBlock)
    ensures IsProduct(dC[..], dA[..], dB[..], hA, wA, wB)
  {
    var n := hA * wB;
    GridCovers(n);
    var blocks := GridBlocks(n);
    ghost var threads := blocks * ThreadsPerBlock;
    ghost var a, b, c0 := dA[..], dB[..], dC[..];
    if wA == 0 {
      assert n == 0;
    } else {
      SquareLaunchIsProduct(c0, a, b, hA, wA, threads);
    }
    ghost var once := LaunchOutput(c0, a, b, n, wA, threads);
    Launch(blocks, ThreadsPerBlock, n, wA, dA, dB, dC);
    var j := 0;
    while j < NIter
      invariant dC[..] == once
    {
      LaunchIdempotent(c0, a, b, n, wA, threads);
      Launch(blocks, ThreadsPerBlock, n, wA, dA, dB, dC);
      j := j + 1;
    }
  }

  /** The device part of main with the corrected kernel (see
      `Kernel.LaunchFixed`): the same warm-up and nIter timed launches, for any
      sizes that pass the check. Afterwards d_c holds A * B. */
  method DeviceRunsFixed(dA: array<real>, dB: array<real>, dC: array<real>, hA: nat, wA: nat, wB: nat)
    requires dC != dA && dC != dB
    requires Fits(dA[..], dB[..], hA, wA, wB) && dC.Length == hA * wB && hA * wB + 255 < 0x1_0000_0000
    modifies dC
    ensures IsProduct(dC[..], dA[..], dB[..], hA, wA, wB)
  {
    var n := hA * wB;
    GridCovers(n);
    var blocks := GridBlocks(n);
    LaunchFixed(blocks, ThreadsPerBlock, n, wA, wB, dA, dB, dC, hA);
    for j := 0 to NIter
      invariant IsProduct(dC[..], dA[..], dB[..], hA, wA, wB)
    {
      LaunchFixed(blocks, ThreadsPerBlock, n, wA, wB, dA, dB, dC, hA);
    }
  }

  /** main (lines 105-222) with the kernel's strides corrected (see
      `Kernel.LaunchFixed`): sizes that fail the check end the run; otherwise
      the device's C and the host's reference both hold A * B, and printDiff,
      called only when the L2 comparison fails, finds no difference. */
  method Run(s: MatrixSize, hostA: seq<real>, hostB: seq<real>, hostC: seq<real>, l2Pass: bool) returns (o: Outcome)
    requires SizesMatch(s) ==>
      BytesFitU32(s) && |hostA| == SizeA(s) && |hostB| == SizeB(s) && |hostC| == SizeC(s)
    ensures o.SizeMismatch? <==> !SizesMatch(s)
    ensures o.Finished? ==>
      |o.gpu| == SizeC(s) && o.gpu == o.reference &&
      IsProduct(o.gpu, hostA, hostB, s.uiHA, s.uiWA, s.uiWB) &&
      o.pass == l2Pass &&
      (o.report.None? <==> l2Pass) &&
      (o.report.Some? ==> o.report.value == DiffReport(0, []))
  {
    if !SizesMatch(s) {
      return SizeMismatch;
    }
    var hA, wA, wB := s.uiHA, s.uiWA, s.uiWB;
    var n := SizeC(s);
    assert SizeA(s) == hA * wA && SizeB(s) == wA * wB && n == hA * wB;
    assert Fits(hostA, hostB, hA, wA, wB);
    var a := FromSeq(hostA);
    var b := FromSeq(hostB);
    var c := FromSeq(hostC);
    var dA := FromSeq(hostA);
    var dB := FromSeq(hostB);
    var dC := FromSeq(hostC);
    DeviceRunsFixed(dA, dB, dC, hA, wA, wB);
    Copy(c, dC);
    ghost var gpu := c[..];
    assert IsProduct(gpu, hostA, hostB, hA, wA, wB);
    var reference := new real[n];
    MatrixMulCpu(reference, a, b, hA, wA, wB);
    ghost var cpu := reference[..];
    assert IsProduct(cpu, hostA, hostB, hA, wA, wB);
    assert cpu == gpu by {
      ProductUnique(cpu, gpu, hostA, hostB, hA, wA, wB);
      assert cpu == cpu[..n] && gpu == gpu[..n];
    }
    var report := None;
    if !l2Pass {
      IdenticalBuffersHaveNoErrors(cpu, gpu, s.uiWC, ListTol, Cells(s.uiWC, s.uiHC));
      var errorCount, listed := PrintDiff(reference, c, s.uiWC, s.uiHC, ListLength, ListTol);
      report := Some(DiffReport(errorCount, listed));
    }
    o := Finished(c[..], reference[..], l2Pass, report);
  }

  /** The sizes main uses pass its check and make B square. */
  lemma SourceSizesAreSquare()
    ensures SizesMatch(SourceSizes) && BytesFitU32(SourceSizes)
    ensures SourceSizes.uiWB == SourceSizes.uiHB
  {
  }

  /** For sizes that pass the check and make B square, as at the sizes main
      uses, the kernel as written (row_num_b = uiHB, lines 176 and 182) with
      main's grid stays in bounds and leaves A * B in C, exactly as the
      corrected kernel does. */
  lemma AsWrittenCorrectForSquareB(s: MatrixSize, a: seq<real>, b: seq<real>, c: seq<real>)
    requires SizesMatch(s) && BytesFitU32(s) && s.uiWB == s.uiHB
    requires |a| == SizeA(s) && |b| == SizeB(s) && |c| == SizeC(s)
    ensures var n := SizeC(s);
      n < 0x1_0000_0000 &&
      LaunchInBounds(GridBlocks(n) * ThreadsPerBlock, n, s.uiHB, |a|, |b|, |c|) &&
      IsProduct(LaunchOutput(c, a, b, n, s.uiHB, GridBlocks(n) * ThreadsPerBlock), a, b, s.uiHA, s.uiWA, s.uiWB)
  {
    var n, m := SizeC(s), s.uiHB;
    GridCovers(n);
    assert n == s.uiHA * m;
    if m == 0 {
      assert n == 0;
    } else {
      SquareLaunchIsProduct(c, a, b, s.uiHA, m, GridBlocks(n) * ThreadsPerBlock);
    }
  }

  /** A 1 x 1 A and a 1 x 2 B pass main's check, yet the kernel as written
      has thread 1 read row 1 of A, past its single element. */
  lemma AsWrittenOutOfBounds()
    ensures var s := MatrixSize(1, 1, 2, 1, 2, 1);
      SizesMatch(s) && BytesFitU32(s) &&
      !ThreadInBounds(1, SizeC(s), s.uiHB, SizeA(s), SizeB(s), SizeC(s)) &&
      !LaunchInBounds(GridBlocks(SizeC(s)) * ThreadsPerBlock, SizeC(s), s.uiHB, SizeA(s), SizeB(s), SizeC(s))
  {
    var s := MatrixSize(1, 1, 2, 1, 2, 1);
    assert CDiv(1, 1) == 1;
    assert !ThreadInBounds(1, SizeC(s), s.uiHB, SizeA(s), SizeB(s), SizeC(s));
  }
}
