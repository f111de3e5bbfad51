# Dense matrix multiply benchmark: a verified model

`CUDA/mmCUBLAS.cpp` multiplies two single-precision matrices on a GPU. It
launches one kernel thread per output element (`element`) over a grid of
256-thread blocks: once to warm up, then 30 timed times. It then multiplies
the same matrices on the host (`matrixMulCPU`), compares the two results
with an L2 test and, when that test fails, lists up to 100 cells that differ
by more than 1e-5 (`printDiff`). Before any of this, `main` exits when the
six matrix dimensions do not fit together.

This project models that core in Dafny and proves what it computes:

- `arith.dfy` (module `Arith`): row-major index arithmetic. Element (i, j)
  of an h x w buffer is in bounds, and `/` and `%` by the row length split
  a flat index back into row and column.
- `reference.dfy` (module `Reference`): `matrixMulCPU` over arrays, proved
  to leave the product A * B in C. The product is defined entry by entry as
  an inner product (`Dot`, `Entry`, `IsProduct`).
- `kernel.dfy` (module `Kernel`):
  - the `element` kernel as written, with C's truncating `/` and `%`
  - its launch over a grid, as a sequential walk over the threads
  - the grid size computation
  - the proofs that at square sizes the kernel computes the product
  - the proof that it reads out of bounds otherwise, and a corrected kernel
- `diff.dfy` (module `Diff`): `printDiff`, proved to count exactly the
  cells that differ by more than the tolerance. The cells it lists are the
  first of them in row-major order, capped at the list length.
- `benchmark.dfy` (module `Benchmark`): `main`, meaning the size check, the
  host/device copies, the launches, the host reference and the comparison.

Matrix elements are exact reals. The `double` accumulators, the rounding
to `float` and `fabs` on floats are not modelled (see "Left out"). Under
exact arithmetic the GPU and host results are equal, so the model proves
that `printDiff` reports no differences whenever `main` calls it.

`main`'s size check (CUDA/mmCUBLAS.cpp:122-128) accepts every size with
uiWA == uiHB, uiHA == uiHC and uiWB == uiWC. `main` then compares the
kernel's output with `matrixMulCPU` (lines 202-208). The kernel, however,
uses uiHB as its only stride, so it agrees with `matrixMulCPU` only when B
is square (see "Findings"). The model keeps both:
- `Kernel.Element`, `Kernel.Launch` and `Benchmark.DeviceRuns` are the
  kernel as written. `Benchmark.DeviceRuns` takes B square, which is exactly
  when its launches stay in bounds.
- `Benchmark.Run` launches the corrected kernel through
  `Benchmark.DeviceRunsFixed`, for every size that passes the check.
- `Benchmark.AsWrittenCorrectForSquareB` shows that at the sizes `main`
  uses (160 everywhere) the kernel as written computes the same product.

## Model

| member | source | states |
|---|---|---|
| `Reference.RowColumnSum` | CUDA/mmCUBLAS.cpp:36-43 | The k-loop's sum is the inner product of row i of A and column j of B, over the wA columns of A. |
| `Reference.MatrixMulCpu` | CUDA/mmCUBLAS.cpp:30-47 | After the call, C[i*wB + j] is the inner product of row i of A and column j of B for every i < hA and j < wB. Cells of C past hA*wB are untouched. A and B are only read. |
| `Reference.DotInBounds` | CUDA/mmCUBLAS.cpp:40-41 | Every read A[i*wA + k] and B[k*wB + j] of the reference loop is in bounds when A holds hA*wA cells and B holds wA*wB. |
| `Reference.DotReadsInBounds` | CUDA/mmCUBLAS.cpp:40-41 | For each k < wA, index i*wA + k is inside A and k*wB + j is inside B. |
| `Reference.EntryAt` | CUDA/mmCUBLAS.cpp:45 | Slot i*wB + j lies inside the hA*wB output, and the product's entry there is row i times column j. |
| `Reference.ProductUnique` | CUDA/mmCUBLAS.cpp:30-47 | Two buffers that both hold the product of the same A and B agree on all hA*wB cells. |
| `Kernel.DivModIdentity` | CUDA/mmCUBLAS.cpp:90-91 | C's truncating quot and rem rebuild i (quot*row_num_b + rem == i), with rem smaller than row_num_b in magnitude. For i >= 0 and a positive divisor they equal Euclidean `/` and `%`. |
| `Kernel.DistinctThreadsDistinctSlots` | CUDA/mmCUBLAS.cpp:90-98 | Two different thread indices write two different slots of c, for any non-zero row_num_b. |
| `Kernel.KernelReadsInBounds` | CUDA/mmCUBLAS.cpp:96 | When row quot of a and column rem of b fit the buffers, term j reads a[r*quot + j] and b[r*j + rem] in bounds. |
| `Kernel.KernelSum` | CUDA/mmCUBLAS.cpp:92-97 | The j-loop's temp is the sum over j < row_num_b of a[row_num_b*quot + j] * b[row_num_b*j + rem]. It is 0 when row_num_b is not positive. |
| `Kernel.Element` | CUDA/mmCUBLAS.cpp:85-100 | A thread with i >= n changes nothing. A thread with i < n writes exactly slot i (quot*row_num_b + rem) with its sum, and no other slot. |
| `Kernel.Launch` | CUDA/mmCUBLAS.cpp:176-182 | After a launch of blocks * blockDim threads, each slot i < n covered by a thread holds that thread's value. Every other slot keeps its old value. |
| `Kernel.LaunchIdempotent` | CUDA/mmCUBLAS.cpp:180-183 | Launching again on the launch's own output gives the same c. |
| `Kernel.GridCovers` | CUDA/mmCUBLAS.cpp:176 | When N + 255 does not wrap in 32 bits, (N+255)/256 blocks of 256 threads cover all N slots with fewer than 256 to spare. |
| `Kernel.SquareThreadInBounds` | CUDA/mmCUBLAS.cpp:90-96 | With row_num_b = m and B of m x m, every thread i < hA*m has quot < hA and rem < m, and reads and writes in bounds. |
| `Kernel.KernelDotIsDot` | CUDA/mmCUBLAS.cpp:93-97 | With row length m, the kernel's sum equals the reference inner product of row quot and column rem. |
| `Kernel.SquareElementIsEntry` | CUDA/mmCUBLAS.cpp:85-98 | With B square (m x m), thread i stores the reference product's entry i, for any number of rows of A. |
| `Kernel.SquareLaunchIsProduct` | CUDA/mmCUBLAS.cpp:176-183 | With B square and at least hA*m threads, the launch is in bounds and leaves A * B in c. The slots past hA*m are untouched. |
| `Kernel.InBoundsForcesSquareB` | CUDA/mmCUBLAS.cpp:90-96 | Under main's size check (row_num_b = uiHB = wA), a launch whose every thread stays in bounds forces wA == wB. |
| `Kernel.ElementFixed` | CUDA/mmCUBLAS.cpp:85-100 | The corrected thread writes exactly slot i (< n) with the product's entry i, and a thread at or beyond n writes nothing. |
| `Kernel.LaunchFixed` | CUDA/mmCUBLAS.cpp:176-182 | The corrected launch, with enough threads, leaves A * B in c for any sizes and leaves the tail of c untouched. |
| `Diff.MismatchCountAgrees` | CUDA/mmCUBLAS.cpp:67-74 | The list of all differences is exactly as long as their count. |
| `Diff.CountIsCardinality` | CUDA/mmCUBLAS.cpp:62-75 | error_count equals the number of cells k with fabs(data1[k] - data2[k]) > tol. |
| `Diff.MismatchesAreExactlyTheDifferences` | CUDA/mmCUBLAS.cpp:62-75 | Every listed mismatch names a differing cell by (column, row), with both values and their distance above tol. They come in strictly increasing row-major order, and no differing cell is missed. |
| `Diff.IdenticalBuffersHaveNoErrors` | CUDA/mmCUBLAS.cpp:62-79 | Equal buffers and a non-negative tolerance give a count of 0 and nothing listed. |
| `Diff.SingleDifferenceIsListed` | CUDA/mmCUBLAS.cpp:62-75 | Buffers that differ beyond tol in one cell p give a count of 1 and list exactly p with its column p % width and row p / width. |
| `Diff.ScanStep` | CUDA/mmCUBLAS.cpp:64-75 | One cell of the scan keeps the running state: the count so far, and a list that is a prefix of all differences whose length is min(count, iListLength). |
| `Diff.ScanRow` | CUDA/mmCUBLAS.cpp:62-76 | Scanning row j extends that running state from cell j*width to cell j*width + width. |
| `Diff.PrintDiff` | CUDA/mmCUBLAS.cpp:49-80 | error_count is the number of cells among width*height that differ by more than the tolerance. The listed mismatches are the first min(error_count, iListLength) of them in row-major order, and none when iListLength <= 0. |
| `Benchmark.Copy` | CUDA/mmCUBLAS.cpp:198 | The destination buffer ends up equal to the source buffer. |
| `Benchmark.DeviceRuns` | CUDA/mmCUBLAS.cpp:176-183 | With B square, the warm-up and the 30 timed launches of `element` as written (row_num_b = uiHB) stay in bounds. d_c ends exactly as one launch leaves it, and that is A * B. |
| `Benchmark.DeviceRunsFixed` | CUDA/mmCUBLAS.cpp:176-183 | With the corrected kernel, for any sizes that pass the check, d_c holds A * B after the warm-up and the 30 timed launches. |
| `Benchmark.Run` | CUDA/mmCUBLAS.cpp:105-222 | Run exits iff the sizes fail the check. Otherwise the device result and the host reference are equal and both are A * B. PASS/FAIL is the L2 verdict. printDiff runs only on FAIL, and then counts 0 and lists nothing. |
| `Benchmark.SourceSizesAreSquare` | CUDA/mmCUBLAS.cpp:110-115 | main's 160 x 160 sizes pass the check, fit 32-bit byte counts and make B square. |
| `Benchmark.AsWrittenCorrectForSquareB` | CUDA/mmCUBLAS.cpp:176-182 | For sizes that pass the check with B square, the kernel as written, launched with main's grid and uiHB, is in bounds and computes A * B. |
| `Benchmark.AsWrittenOutOfBounds` | CUDA/mmCUBLAS.cpp:90-96 | Sizes wA=1, hA=1, wB=2, hB=1 pass the check, yet thread 1 of main's launch reads past A. |

## Findings

| source | as written | input that shows it | evidently intended | confidence | as-written member | corrected member |
|---|---|---|---|---|---|---|
| CUDA/mmCUBLAS.cpp:90-98 | Each thread splits i by row_num_b = uiHB, sums over j < uiHB, and reads a[uiHB*quot + j] and b[uiHB*j + rem]. This is right only when wA == wB (B square). | uiWA=1, uiHA=1, uiWB=2, uiHB=1, uiWC=2, uiHC=1 pass main's size check, but thread 1 reads a[1] while A has one element. | Split i by C's width wB, sum over j < wA, and read a[quot*wA + j] and b[j*wB + rem]. | not executed | `Benchmark.AsWrittenOutOfBounds` | `Kernel.LaunchFixed` |

## Left out

- Floating point: elements, sums and tolerances are exact reals. The `double` accumulators, the rounding to `float` at lines 45 and 98, and `fabs` on floats are not modelled. Neither is any difference between the GPU and CPU reduction orders.
- `sdkCompareL2fe` (line 204) is not part of this model; its PASS/FAIL verdict is a parameter of `Benchmark.Run`.
- `randomInit` (lines 18-28) and the uninitialised host buffer `c` are not modelled as values; their contents are parameters of `Benchmark.Run`, which holds for every such content.
- CUDA events, elapsed time, the GFlop/s computation and `cudaDeviceReset` (lines 163-196, 221) are timing and runtime calls that do not affect any result.
- The `block_size`, `threads` and `grid` values at lines 170-175 are computed and never used by a launch; they are not modelled.
- `printf` output is not modelled. `printDiff`'s listed lines are its returned list of mismatches, and the verdict line is the `pass` field of the outcome.
- The per-row branch at lines 57-60 of `printDiff` has an empty body and is not modelled.
- Concurrency: the threads of a launch run as a sequential walk in block and thread order. This gives the same result because no thread reads c and every thread writes only its own slot (`Kernel.DistinctThreadsDistinctSlots`).
- Benchmark.Run: it requires the byte counts 4 * size of A, B and C to fit in 32 bits, where the source's unsigned products would wrap and allocate too little. It launches the corrected kernel (see "Findings"); the kernel as written is proved equal to it at square sizes, including main's.
- Benchmark.DeviceRunsFixed: it launches the corrected kernel, not `element` as written, so that every size that passes the check is covered; `Benchmark.DeviceRuns` is the launch as written.
- Benchmark.DeviceRuns: it requires wA == wB, because only then do the launches as written stay in bounds (`Kernel.InBoundsForcesSquareB`, `Benchmark.AsWrittenOutOfBounds`).
- Reference.MatrixMulCpu: the indices i * wA + k, k * wB + j and i * wB + j are unbounded naturals; the source's unsigned 32-bit products would wrap. Under `Benchmark.Run`'s byte bound every buffer has fewer than 2^30 cells, so no index wraps there.
- Diff.PrintDiff: the index k = j * width + i and error_count are unbounded integers; the source's signed `int` would overflow beyond 2^31 cells. Under `Benchmark.Run`'s byte bound C has fewer than 2^30 cells, so neither overflows there.
- Kernel.Element: the thread index blockIdx.x * blockDim.x + threadIdx.x is an unbounded natural; the wrap of the source's `int` is not modelled. Under `Benchmark.Run`'s byte bound it stays below 2^30.
- MPI/SendRecv.c is not part of this model.
