# Verified model of the c_rinkou linear-algebra exercises

The repository is a set of small C programs. Each one reads a matrix and
a vector from text files, runs one numerical kernel, and prints the result.
The kernels are:

- integer warm-ups: vector add, dot product, mat-vec, mat-mat, aᵀ(AB) and a primality test;
- dense mat-vec products, one of them distributed row-cyclically with MPI;
- Gaussian elimination in five storage layouts:
  - dense without pivoting (NaN on a zero pivot);
  - dense with partial pivoting;
  - a packed upper triangle of a symmetric matrix;
  - ragged triangular rows `A[i][j-i]`;
  - fixed-width band rows `A[i][j-i]`;
- a conjugate-gradient (CG) solver.

This project models the index logic and loop structure of those kernels in
Dafny. It also models the text-counting helpers that fix the dimensions.
One module covers each program:

| module | file | program |
|---|---|---|
| `Warmup` | warmup.dfy | 0_kadai/3.c – 8.c |
| `FileMatVec` | kadai1.dfy | 1_kadai/1.c |
| `NaiveElimination` | naive.dfy | 2_kadai/program.c |
| `PartialPivoting` | pivot.dfy | 3_kadai/3.c (`N = 4`) |
| `PackedSymmetric` | packed.dfy | 3_kadai/3_submit.c |
| `TriangularSymmetric` | triangular.dfy | 4_kadai/2.c |
| `BandSymmetric` | band.dfy | 5_kadai/1.c |
| `ConjugateGradient` | cg.dfy | CG/1.c (`N = 10`, `KMAX = 100`, `EPS = 1e-8`) |
| `VectorDoubling` | mpi1.dfy | mpi1/1.c |
| `CyclicMatVec` | mpi2.dfy | mpi2/1.c |
| `Text`, `Vectors`, `Arith` | text.dfy, vectors.dfy, arith.dfy | shared: line, character and token counting; real sums and 1-norms; row-major offsets |

How the C is represented:

- **Numbers.**
  - `double` is Dafny `real`, with exact arithmetic.
  - The tolerances `2^-50` and `1e-8` are named constants.
  - The warm-ups' `int` is unbounded `int`.
- **Storage.**
  - The 1-based vectors and matrices built by `dvector`/`dmatrix` (CG, 3_kadai) are arrays of `N + 1` entries. Index 0 is unused.
  - The 0-based programs use 0-based arrays.
  - The ragged rows of 4_kadai and the band rows of 5_kadai are rows of an `n x n` and an `n x w` `array2`. A cell `A[i][d]` is `a[i, d]`.
- **Globals.** The globals `b`, `x` and `N` are parameters.
- **Inputs.** Files are in-memory text (`string`), lists of lines, or the sequence of numbers `fscanf` would read from them.
- **Exits.** Every `exit(1)` or `MPI_Abort` is a result value: `ok == false`, `Singular(step)` or `Aborted(step)`.
- **Unchecked divisions.** These are `a(N, N)` in the back substitutions of 3_kadai, and `p·Ap` in CG. Each has its own outcome, because a real division by zero has no value here. The other CG divisor, `rho`, is proved nonzero wherever it divides.
- **Solvers.** Each solver is a method over arrays, proved against a ghost function. The function gives the state after each elimination step and whether the run stops. The back-substitution methods are proved to solve the reduced triangular system exactly.

## Model

| member | source | states |
|---|---|---|
| Vectors.Abs | CG/1.c:260 | `fabs` is non-negative and equals the value or its negation |
| Vectors.Norm1 | CG/1.c:256-263 | the 1-norm over indices `m..n` is non-negative |
| Vectors.InnerStep | CG/1.c:269-271 | widening the range of `inner_product` by index `n` adds `a[n]·b[n]`: the accumulator step |
| Vectors.Norm1Step | CG/1.c:259-261 | widening the range of `vector_norm1` by index `n` adds `abs(a[n])` |
| Vectors.InnerSymmetric | CG/1.c:266-273 | `inner_product(m, n, a, b) == inner_product(m, n, b, a)` |
| Vectors.InnerFrame | CG/1.c:266-273 | the inner product reads only indices `m..n` of its two vectors |
| Vectors.Norm1Frame | CG/1.c:256-263 | the 1-norm reads only indices `m..n` |
| Vectors.InnerLinear | CG/1.c:134-135 | `a·(x + c·v) == a·x + c·(a·v)`, the algebra behind the residual update |
| Vectors.InnerZero | CG/1.c:80-83 | a row times the zero vector is 0 |
| Vectors.Norm1Zero | CG/1.c:256-263 | the 1-norm of a zero vector is 0 |
| Vectors.DotSelfPositive | CG/1.c:266-273 | `r·r` is a sum of squares: non-negative, and positive once an entry is nonzero |
| Vectors.InnerSelfZero | CG/1.c:266-273 | `r·r = 0` over `m..n` only when every `r[i]` there is 0 |
| Vectors.Norm1Bounds | CG/1.c:256-263 | every `abs(a[k])` with `m <= k <= n` is at most the 1-norm |
| Text.CountIsCardinality | 4_kadai/2.c:140-144 | a counting loop's result is the number of positions satisfying its test |
| Text.CountAppend | 4_kadai/2.c:140-144 | counting over two concatenated inputs adds the two counts |
| Text.NewlinesIsMultiplicity | 1_kadai/1.c:19-23 | the newline count is the multiplicity of `'\n'` in the text |
| Text.SizeCount | 1_kadai/1.c:5-28 | `Size_count` returns the number of `'\n'` characters; mpi1's `Size_count` is the same loop |
| Text.StrLen | 4_kadai/2.c:141 | `strlen` is the index of the first NUL, or the whole length when there is none |
| Text.CountLongLines | 4_kadai/2.c:129-148 | `count_matrix_size` counts the lines whose `strlen` exceeds 1; 5_kadai/1.c:177-196 is the same loop |
| Text.CountNonBlankLines | 3_kadai/3_submit.c:96-109 | `count_matrix_size` counts the lines whose first character is neither `'\n'` nor NUL |
| Text.LastLineWithoutNewline | 4_kadai/2.c:141 | a last line `"5"` without a newline counts as non-blank but not as long, `"5\n"` counts as both, `"\n"` as neither |
| Text.TokensAreTokenStarts | mpi2/1.c:23-27 | the `strtok` token count is the number of positions where a token starts after a space, tab or newline |
| Text.TokensJoin | mpi2/1.c:23-27 | a delimiter between two texts makes the token count add up |
| Text.NumberRunUnique | mpi2/1.c:46-48 | the length of the run of leading numbers that `fscanf` reads is unique |
| Arith.RowMajorBound | 1_kadai/1.c:72-80 | for `i < n` and `j < m`, the row-major offset `i·m + j` lies in `[0, n·m)` and row `i` ends by `(i + 1)·m` |
| Arith.RowStartIsProduct | mpi2/1.c:175 | the row cursor `RowStart(k, m)` is `k·m` |
| Arith.RowStartMono | mpi2/1.c:175 | row `p` ends before row `i > p` starts: flat rows do not overlap |
| Arith.RowOffset | mpi2/1.c:202 | computes the offset `k·m` of row `k` |
| FileMatVec.RowMajorEntry | 1_kadai/1.c:72-80 | after the fill, `A[i][j]` is number `i·N + j` of the matrix file |
| FileMatVec.ReadMatrix | 1_kadai/1.c:72-80 | succeeds iff the file holds at least `N·N` numbers, and then fills `A` row-major |
| FileMatVec.ReadVector | 1_kadai/1.c:86-91 | succeeds iff the file holds at least `N` numbers, and then `b` is the first `N` of them |
| FileMatVec.FileRead | 1_kadai/1.c:60-93 | succeeds iff both files hold enough numbers; then `A` is row-major and `b` holds the vector file's numbers |
| FileMatVec.MatrixVectorMultiplier | 1_kadai/1.c:96-105 | `c[i] = Σ_j A[i][j]·b[j]` for every `i < N`; `A` and `b` are unchanged |
| VectorDoubling.DoubledInjective | mpi1/1.c:84-89 | doubling loses nothing: equal doubled vectors were equal |
| VectorDoubling.DoubledExample | mpi1/1.c:27-34 | `[1, 2, 3]` doubles to `[2, 4, 6]` |
| VectorDoubling.Bai | mpi1/1.c:84-89 | `bai` doubles `a[0..N-1]` and touches no other index |
| VectorDoubling.Transfer | mpi1/1.c:27-34 | a matched send and receive copy `N` entries and leave the rest of the target unchanged |
| VectorDoubling.Exchange | mpi1/1.c:26-35 | run in sequence, rank 0 ends with its original buffer doubled and rank 1 with the same; other ranks are untouched |
| CyclicMatVec.CountMyRows | mpi2/1.c:149-154 | `my_rows` is the number of rows `i < N` with `i % world_size == rank`, which is `N / ws + (rank < N % ws ? 1 : 0)` |
| CyclicMatVec.RowsOfTotal | mpi2/1.c:149-154 | summed over all ranks, `my_rows` is `N` |
| CyclicMatVec.RowsSentComplement | mpi2/1.c:166-181 | rank 0 sends `N - my_rows` rows, the number it waits on at 247-248 |
| CyclicMatVec.RowsOfStrict | mpi2/1.c:170-191 | the local index of row `i` at its owner is below the owner's `my_rows` |
| CyclicMatVec.SameOwnerApart | mpi2/1.c:151 | two distinct rows fewer than `world_size` apart have different owners |
| CyclicMatVec.LocalRowIsGlobal | mpi2/1.c:170-191 | local row `t` of rank `r` is global row `r + t·world_size` |
| CyclicMatVec.LocalIndexIsQuotient | mpi2/1.c:170-191 | global row `i` is local row `i / world_size` of rank `i % world_size` |
| CyclicMatVec.RowsOfClosedForm | mpi2/1.c:149-154 | the closed form of the row count of every rank |
| CyclicMatVec.PlaceRow | mpi2/1.c:175-176 | copies global row `i` into local slot `idx`; the earlier slots are unchanged |
| CyclicMatVec.CopyRow | mpi2/1.c:175 | the `memcpy` copies `M` entries and leaves the rest of the target unchanged |
| CyclicMatVec.Distribute | mpi2/1.c:165-195 | each rank's part holds every row it owns at that row's local index; rank 0 sends `N - my_rows` rows and the others send none |
| CyclicMatVec.AccumulateRow | mpi2/1.c:200-203 | `my_results[t] = Σ_j part[t·M + j]·vector[j]`; the other results are unchanged |
| CyclicMatVec.LocalProducts | mpi2/1.c:198-204 | every local result is the product of its local row with the vector |
| CyclicMatVec.Gather | mpi2/1.c:207-218 | `result_vector[i]` is the next local result of rank `i % world_size` |
| CyclicMatVec.DistributedProduct | mpi2/1.c:146-218 | for any `world_size >= 1`, the gathered `result_vector[i] = Σ_j matrix[i·M + j]·vector[j]` for every `i < N` |
| CyclicMatVec.VectorSize | mpi2/1.c:38-50 | `get_vector_size` is the length of the run of leading numbers of the vector file |
| CyclicMatVec.ReadNumbers | mpi2/1.c:106-127 | the read succeeds iff the file starts with `count` numbers, and then holds exactly them |
| CyclicMatVec.CountColumns | mpi2/1.c:21-28 | the column count is the token count of the first line |
| CyclicMatVec.MatrixDimensions | mpi2/1.c:8-35 | `cols` is the token count of the first line and `rows` is 1 plus the later lines longer than 1; both are 0 for an empty file |
| CyclicMatVec.Run | mpi2/1.c:90-218 | the run aborts iff the vector length differs from the column count or a file is short; otherwise the result is the full product |
| Warmup.DotStep | 0_kadai/5.c:32-34 | the loop invariant: after `k + 1` iterations the sum is the sum after `k` plus `a[k]·b[k]` |
| Warmup.DotSymmetric | 0_kadai/5.c:31-34 | swapping `a` and `b` does not change the dot product |
| Warmup.DotProduct | 0_kadai/5.c:31-34 | the loop computes `Σ_{i<n} a[i]·b[i]`, symmetric in `a` and `b`, and 0 when `n == 0` |
| Warmup.DotZeroRight | 0_kadai/6.c:37-42 | a zero vector has zero dot product with anything |
| Warmup.VecAddCommutes | 0_kadai/4.c:30-32 | swapping `a` and `b` gives the same sum |
| Warmup.VecAddZero | 0_kadai/4.c:30-32 | adding a zero vector gives back `a` |
| Warmup.VectorAdd | 0_kadai/4.c:30-32 | `result[i] = a[i] + b[i]` for all `i < n`; `result` has length `n` |
| Warmup.MatVecZero | 0_kadai/6.c:37-42 | `A·0` is zero |
| Warmup.MatVecIdentity | 0_kadai/6.c:37-42 | `I·a == a` |
| Warmup.AccumulateRow | 0_kadai/6.c:38-41 | `result[i] = Σ_j A[i][j]·a[j]`; the other results are unchanged |
| Warmup.MatrixVector | 0_kadai/6.c:37-42 | every `result[i] = Σ_j A[i][j]·a[j]` |
| Warmup.AccumulateEntry | 0_kadai/7.c:52-55 | `AB[i][j] = Σ_k A[i][k]·B[k][j]`; no other cell changes |
| Warmup.ProductRow | 0_kadai/7.c:51-56 | row `i` of `AB` is the product row; the other rows are unchanged |
| Warmup.MatrixProduct | 0_kadai/7.c:50-57 | every cell of the `n x m` result is `Σ_k A[i][k]·B[k][j]` |
| Warmup.IdentityProduct | 0_kadai/7.c:50-57 | with `A` the identity, `AB == B` |
| Warmup.ColumnDot | 0_kadai/8.c:78-81 | `Σ_i a[i]·AB[i][j]` for one `j` |
| Warmup.RowTimesMatrix | 0_kadai/8.c:77-82 | every `result[j] = Σ_i a[i]·AB[i][j]` |
| Warmup.AssociatedRow | 0_kadai/8.c:68-82 | `aᵀ(AB) == (aᵀA)B`: `result[j] = Σ_k (Σ_i a[i]·A[i][k])·B[k][j]` |
| Warmup.ATransposeAB | 0_kadai/8.c:68-82 | the program computes `AB` and `aᵀ(AB)`, and the latter equals `(aᵀA)B` |
| Warmup.DivisorOfOddIsOdd | 0_kadai/3.c:20-26 | a divisor of an odd number is odd, so the loop may skip even candidates |
| Warmup.OddWithoutOddFactorIsPrime | 0_kadai/3.c:20-28 | an odd `n >= 3` with no odd divisor in `[3, n-1)` is prime |
| Warmup.ReportPrime | 0_kadai/3.c:3-30 | 2 is prime; 1 and even numbers are not; an odd `n >= 3` is prime iff no odd `i` in `[3, n-1)` divides it; so for `n >= 1` the report is primality, and a negative odd `n` is reported prime |
| NaiveElimination.ReadDimension | 2_kadai/program.c:66-93 | `n == 0` (the error) iff the newline count is 0 or odd; otherwise `n` is half the newline count |
| NaiveElimination.Steps | 2_kadai/program.c:179 | the forward loop runs `n - 1` steps, none for `n == 0` |
| NaiveElimination.StepZeroPivot | 2_kadai/program.c:185-189 | with `A[k][k] == 0` step `k` changes neither `A` nor `b` |
| NaiveElimination.StepClearsColumn | 2_kadai/program.c:190-194 | with a nonzero pivot, step `k` makes `A[i][k]` zero for every `i > k` |
| NaiveElimination.StepFrame | 2_kadai/program.c:185-195 | step `k` changes only rows `i > k` of `A`, columns `j >= k`, and `b[i]` for `i > k` |
| NaiveElimination.EliminateClears | 2_kadai/program.c:178-196 | after the steps up to `k`, column `c < k` below the diagonal is zero when step `c` had a nonzero pivot |
| NaiveElimination.UpdateRow | 2_kadai/program.c:191-193 | the `j` loop subtracts `factor` times row `k` from row `i`, columns `k..n-1` |
| NaiveElimination.EliminateRow | 2_kadai/program.c:185-195 | one pass of the `i` loop, including the skip on a zero pivot |
| NaiveElimination.EliminateStep | 2_kadai/program.c:185-195 | the arrays after one step are the step function of the arrays before |
| NaiveElimination.ForwardElimination | 2_kadai/program.c:178-210 | `A` and `b` end as the `n - 1` steps of elimination leave them |
| NaiveElimination.RowSum | 2_kadai/program.c:221-224 | `sum = Σ_{j>i} A[i][j]·x[j]` |
| NaiveElimination.Flood | 2_kadai/program.c:215 | every `x[k]` becomes NaN |
| NaiveElimination.SolveAt | 2_kadai/program.c:218-230 | setting `x[i] = (b[i] - sum) / A[i][i]` keeps rows `i..n-1` solved |
| NaiveElimination.BackwardSubstitution | 2_kadai/program.c:212-233 | if some diagonal entry is 0, every `x` entry is NaN, computed or not; otherwise `x[i]·A[i][i] = b[i] - Σ_{j>i} A[i][j]·x[j]` for all `i`; `A` and `b` are unchanged |
| PartialPivoting.FirstMax | 3_kadai/3.c:66-74 | the scan ends on the first row of `k..i` that attains the largest `abs(a[r][k])` |
| PartialPivoting.PivotFirst | 3_kadai/3.c:66-74 | the pivot row comes no later than any row that attains the maximum |
| PartialPivoting.PivotUnique | 3_kadai/3.c:66-74 | the pivot row is uniquely determined |
| PartialPivoting.PivotSearch | 3_kadai/3.c:66-74 | `ip` is the smallest index in `k..N` attaining the maximum `abs(a[i][k])`, and `amax` is that maximum |
| PartialPivoting.SwapSelf | 3_kadai/3.c:83-94 | when `ip == k` the swap changes nothing |
| PartialPivoting.SwapRows | 3_kadai/3.c:83-94 | exchanges `a[k][j]` and `a[ip][j]` for `j >= k`, and `b[k]` and `b[ip]`; nothing else changes |
| PartialPivoting.ElimFrame | 3_kadai/3.c:97-105 | elimination step `k` writes only `a[i][j]` with `i, j > k` and `b[i]` with `i > k`; column `k` keeps its old values |
| PartialPivoting.UpdateRow | 3_kadai/3.c:100-103 | subtracts `alpha` times row `k` from row `i`, columns `k+1..N` |
| PartialPivoting.EliminateRow | 3_kadai/3.c:97-105 | one pass of the `i` loop |
| PartialPivoting.EliminateBelow | 3_kadai/3.c:97-105 | the arrays after the `i` loop are the step function of the arrays before |
| PartialPivoting.StepKeepsPivots | 3_kadai/3.c:83-105 | the swap brings `a[ip][k]` to the diagonal, and elimination keeps the diagonal entries of rows `<= k` |
| PartialPivoting.StopsAt | 3_kadai/3.c:77-81 | once the run aborts at step `k`, it stays aborted at step `k` |
| PartialPivoting.ForwardStep | 3_kadai/3.c:64-105 | one step: abort iff `amax < 2^-50`, leaving the arrays; otherwise the arrays are the reduced state |
| PartialPivoting.Forward | 3_kadai/3.c:63-106 | forward elimination aborts at step `k` iff elimination stops there; otherwise it leaves the reduced system |
| PartialPivoting.BackRow | 3_kadai/3.c:112-116 | `tmp = b[k] - Σ_{j>k} a[k][j]·b[j]` |
| PartialPivoting.SolveRow | 3_kadai/3.c:110-117 | setting `b[k]` keeps rows `k..N` of the reduced system solved; `b[0..k-1]` is unchanged |
| PartialPivoting.BackSubstitute | 3_kadai/3.c:108-118 | succeeds iff `a[N][N] != 0`; then `b[k]` satisfies row `k` of the reduced triangular system for every `k` |
| PartialPivoting.Gauss | 3_kadai/3.c:57-121 | aborts exactly when the pivot maximum falls below `2^-50` at some step `k <= N - 1`; otherwise it returns the exact solution of the reduced system, or the zero-`a[N][N]` outcome |
| PackedSymmetric.PackedRowStartClosed | 3_kadai/3_submit.c:115 | the start of packed row `i` is `(i-1)·n - (i-1)(i-2)/2` |
| PackedSymmetric.PackedSizeClosed | 3_kadai/3_submit.c:126 | the packed array has `n(n+1)/2` cells |
| PackedSymmetric.PackedRowStartMono | 3_kadai/3_submit.c:115 | packed row `i`, of `n - i + 1` cells, ends before any later row starts |
| PackedSymmetric.Place | 3_kadai/3_submit.c:112-120 | every `(i, j)` with `1 <= i, j <= n` has its cell in `[0, n(n+1)/2)` |
| PackedSymmetric.UpperIndex | 3_kadai/3_submit.c:112-120 | `get_upper_index` follows both branches of the source, lies in `[0, n(n+1)/2)` and equals `Place` |
| PackedSymmetric.Unpack | 3_kadai/3_submit.c:112-120 | every packed index maps back to a pair `1 <= p <= q <= n` |
| PackedSymmetric.UnpackUpperIndex | 3_kadai/3_submit.c:112-120 | unpacking `get_upper_index(i, j)` gives `(min, max)` of `i, j` |
| PackedSymmetric.UpperIndexUnpack | 3_kadai/3_submit.c:112-120 | every index in `[0, n(n+1)/2)` is `get_upper_index` of its unpacked pair, so the map onto the upper triangle is a bijection |
| PackedSymmetric.UpperIndexSymmetricInjective | 3_kadai/3_submit.c:114-119 | `get_upper_index(i, j) == get_upper_index(j, i)`, and it is injective on the upper triangle |
| PackedSymmetric.InputSymmetricMatrix | 3_kadai/3_submit.c:162-182 | succeeds iff the file starts with `n(n+1)/2` numbers; then cell `idx` holds number `idx`, so each cell is written once, in increasing order, from consecutive numbers |
| PackedSymmetric.InputVector | 3_kadai/3_submit.c:185-199 | succeeds iff the file starts with `n` numbers; then `b[1..n]` holds them and `b[0]` is untouched |
| PackedSymmetric.MultiplierFromRowK | 3_kadai/3_submit.c:226-228 | row `k` is not yet changed when row `i` reads it, so `alpha` is the pre-step `a(i,k)/a(k,k)` |
| PackedSymmetric.EliminateRow | 3_kadai/3_submit.c:230-238 | the `j` loop of row `i`, as a partial step over the packed array |
| PackedSymmetric.EliminateBelow | 3_kadai/3_submit.c:223-240 | the `i` loop, with the right-hand side |
| PackedSymmetric.EliminateStep | 3_kadai/3_submit.c:223-240 | the arrays after step `k` are the step function of the arrays before |
| PackedSymmetric.StepKeepsRows | 3_kadai/3_submit.c:223-240 | step `k` changes no packed cell whose smaller coordinate is `<= k`, and none of `b[0..k]` |
| PackedSymmetric.StepKeepsPivots | 3_kadai/3_submit.c:223-240 | step `k` keeps the diagonal cells of rows `<= k` |
| PackedSymmetric.StepDecrementsTwice | 3_kadai/3_submit.c:226-237 | in step `k`, an off-diagonal cell `(p, q)`, `k < p < q`, loses its decrement twice (as `(p, q)` and `(q, p)`), a diagonal cell once |
| PackedSymmetric.DoubleDecrementExample | 3_kadai/3_submit.c:230-237 | on the all-ones `3 x 3` matrix, step 1 makes cell `(2, 3)` equal to `-1`, where dense elimination gives 0 |
| PackedSymmetric.PivotTooSmall | 3_kadai/3_submit.c:216 | the test is `abs(a(k,k)) < 2^-50` |
| PackedSymmetric.StopsAt | 3_kadai/3_submit.c:216-220 | once the run aborts at a step, it stays aborted at that step |
| PackedSymmetric.ForwardStep | 3_kadai/3_submit.c:212-240 | one step with a large enough pivot leaves the reduced state and keeps the earlier pivots |
| PackedSymmetric.Forward | 3_kadai/3_submit.c:210-241 | aborts at step `k <= n - 1` iff `abs(a(k,k)) < 2^-50` is first seen there; otherwise it leaves the reduced system |
| PackedSymmetric.BackRow | 3_kadai/3_submit.c:249-255 | `tmp = b[k] - Σ_{j>k} a(k,j)·b[j]` |
| PackedSymmetric.SolveRow | 3_kadai/3_submit.c:247-259 | setting `b[k]` keeps rows `k..n` of the reduced system solved; `b[0..k-1]` is unchanged |
| PackedSymmetric.BackSubstitute | 3_kadai/3_submit.c:244-259 | succeeds iff `a(n,n) != 0`, which the source never checks; then `a(k,k)·b[k] + Σ_{j>k} a(k,j)·b[j]` equals the post-elimination `b[k]` for every `k` |
| PackedSymmetric.GaussSymmetric | 3_kadai/3_submit.c:202-262 | forward elimination, then back substitution: an abort exactly when elimination stops, otherwise the exact solution of the reduced system or the zero-`a(n,n)` outcome |
| TriangularSymmetric.ReadRow | 4_kadai/2.c:48-61 | reads input row `i`, storing columns `j >= i` at `A[i][j-i]` and failing only on an asymmetric pair |
| TriangularSymmetric.ReadMatrix | 4_kadai/2.c:36-65 | succeeds iff every lower entry equals its stored mirror `A[j][i-j]`; then row `i` holds input columns `i..n-1` |
| TriangularSymmetric.StepFrame | 4_kadai/2.c:96-102 | step `i` changes only rows `j > i`, and `b[j]` only for `j > i` |
| TriangularSymmetric.StepIsDenseStep | 4_kadai/2.c:96-102 | on the stored upper triangle of a symmetric matrix, step `i` computes what dense elimination computes |
| TriangularSymmetric.AbortStays | 4_kadai/2.c:91-95 | once the run aborts at step `s`, it stays aborted at `s` |
| TriangularSymmetric.UpdateRow | 4_kadai/2.c:99-101 | `A[j][k-j] -= tmp·A[i][k-i]` for `k = j..n-1`, each offset asserted to lie within its ragged row |
| TriangularSymmetric.EraseRow | 4_kadai/2.c:96-102 | one pass of the `j` loop, with `b[j]` |
| TriangularSymmetric.EraseStep | 4_kadai/2.c:96-102 | the arrays after step `i` are the step function of the arrays before |
| TriangularSymmetric.ForwardErase | 4_kadai/2.c:87-104 | aborts at step `i < n - 1` iff `A[i][0] == 0` is first met there; otherwise it leaves the reduced system |
| TriangularSymmetric.SubtractTail | 4_kadai/2.c:110-112 | `b[i] -= Σ_{j>i} A[i][j-i]·x[j]`; the other `b` entries are unchanged |
| TriangularSymmetric.BackwardAssignment | 4_kadai/2.c:106-119 | aborts iff some `A[i][0] == 0`, `i = n-1` included, at the last such `i`; otherwise `x[i]·A[i][0]` equals the old `b[i] - Σ_{j>i} A[i][j-i]·x[j]`, which `b[i]` now holds |
| BandSymmetric.BandwidthUnique | 5_kadai/1.c:13-41 | the bandwidth `max{j-i+1 : j >= i, A[i][j] != 0}`, or 0, is uniquely determined |
| BandSymmetric.BandwidthOfDiagonal | 5_kadai/1.c:24-36 | a matrix whose only nonzero upper entries are on the diagonal, `A[0][0]` among them, has bandwidth 1 |
| BandSymmetric.BandwidthOfCorner | 5_kadai/1.c:24-36 | `A[0][n-1] != 0` gives bandwidth `n` |
| BandSymmetric.GetBandwidth | 5_kadai/1.c:13-41 | `get_bandwidth` returns the bandwidth, which is at most `n` |
| BandSymmetric.ZeroFill | 5_kadai/1.c:79-83 | every band cell becomes 0 |
| BandSymmetric.ReadRow | 5_kadai/1.c:86-104 | reads input row `i`: band entries stored, lower entries inside the band compared with their mirror |
| BandSymmetric.ReadMatrix | 5_kadai/1.c:68-108 | succeeds iff every lower entry with `i - j < w` equals its mirror, the others unchecked; then `A[i][d]` is input `(i, i+d)` when `i + d < n` and 0 otherwise |
| BandSymmetric.Limit | 5_kadai/1.c:143-144 | `k_limit = min(i + w, n)` |
| BandSymmetric.StepFrame | 5_kadai/1.c:140-150 | step `i` changes only rows `j` with `i < j < min(i + w, n)`, and only their `b[j]` |
| BandSymmetric.StepIsTriangularStep | 5_kadai/1.c:140-150 | on a matrix that is zero outside the band, a band step is the triangular-row step and creates no fill-in outside the band |
| BandSymmetric.AbortStays | 5_kadai/1.c:136-139 | once the run aborts at step `s`, it stays aborted at `s` |
| BandSymmetric.UpdateRow | 5_kadai/1.c:145-149 | the `k` loop, every offset `j-i`, `k-i`, `k-j` below `w`, so the guard at line 146 always holds |
| BandSymmetric.EraseRow | 5_kadai/1.c:140-150 | one pass of the `j` loop, with `b[j]` |
| BandSymmetric.EraseStep | 5_kadai/1.c:134-151 | the arrays after step `i` are the step function of the arrays before |
| BandSymmetric.ForwardErase | 5_kadai/1.c:130-152 | aborts at step `i < n - 1` iff `A[i][0] == 0` is first met there; otherwise it leaves the reduced band system |
| BandSymmetric.SubtractTail | 5_kadai/1.c:157-159 | `b[i] -= Σ_{i<j<min(i+w,n)} A[i][j-i]·x[j]`; the other `b` entries are unchanged |
| BandSymmetric.BackwardAssignment | 5_kadai/1.c:154-167 | aborts iff some `A[i][0] == 0`, at the last such `i`; otherwise `x[i]·A[i][0] = b[i] - Σ_{i<j<min(i+w,n)} A[i][j-i]·x[j]` with `b[i]` overwritten by that difference |
| ConjugateGradient.InnerProduct | CG/1.c:266-273 | `inner_product(m, n, a, b) = Σ_{i=m..n} a[i]·b[i]`, symmetric in `a` and `b` |
| ConjugateGradient.VectorNorm1 | CG/1.c:256-263 | `vector_norm1 = Σ abs(a[i])`, non-negative |
| ConjugateGradient.MatrixVectorProduct | CG/1.c:166-180 | `c[i] = Σ_j a[i][j]·b[j]` for `i` in `1..N`; `c[0]` is unchanged |
| ConjugateGradient.InitResidual | CG/1.c:112-117 | after initialisation `r = b - A·x`, and `p = r` |
| ConjugateGradient.ZeroStart | CG/1.c:80-83 | from `x = 0`, the residual is `b`, so `r0 = p0 = b` |
| ConjugateGradient.AddScaled | CG/1.c:134 | `x[i] += alpha·p[i]` for `i` in `1..N` |
| ConjugateGradient.SubScaled | CG/1.c:135 | `r[i] -= alpha·tmp[i]` for `i` in `1..N` |
| ConjugateGradient.UpdateDirection | CG/1.c:148 | `p = r + beta·p` on `1..N` for the `beta` it is given; `p[0]` is unchanged |
| ConjugateGradient.ResidualUpdate | CG/1.c:134-135 | if `r = b - A·x` and `tmp = A·p`, the updates keep `r = b - A·x` |
| ConjugateGradient.Advance | CG/1.c:131-135 | updates `x` and `r` by the step length, keeping `r = b - A·x` |
| ConjugateGradient.Descend | CG/1.c:121-135 | `rho` is the old `r·r`; unless `p·Ap = 0`, `x += alpha·p` and `r -= alpha·Ap` with `alpha = rho / (p·Ap)`; `r = b - A·x` is kept |
| ConjugateGradient.Redirect | CG/1.c:140-148 | unless `rho = 0`, `p = r + (rho_new / rho)·p` with `rho_new` the new `r·r`; otherwise `p` is unchanged |
| ConjugateGradient.Iterate | CG/1.c:120-148 | one pass: with `rho` the old `r·r` and `alpha = rho / (p·Ap)` for the old `p`, `x += alpha·p` and `r -= alpha·Ap` (`Moved`); `r = b - A·x` is kept; `eps` is the 1-norm of the true residual and convergence is reported iff `eps < EPS`; otherwise `p = r + (rho_new / rho)·p_old` (`Turned`); a breakdown is reported iff the old `p·Ap` is zero, and a pass that goes on to the `beta` step always has `rho != 0` |
| ConjugateGradient.VanishedResidual | CG/1.c:122-138 | if the old `r·r` is 0, the step length is 0 and the new residual has 1-norm 0, so the pass converges before dividing by `rho` |
| ConjugateGradient.TraceExtend | CG/1.c:118-150 | a trace of pass states followed by a pass that continued (nonzero curvature and `rho`, `Moved`, new 1-norm `>= EPS`, `Turned`) is again a trace |
| ConjugateGradient.Cg | CG/1.c:102-162 | `k` is in `1..KMAX`; the ghost `trace` holds the `k` states at the start of each pass, from `r = p = b - A·x0`, each reached from the one before by a pass that continued; a breakdown happens only on a last pass whose direction has `p·Ap = 0`, with `x` left at that pass's start; otherwise the last pass moved `x` (`Moved`) and `eps` is the 1-norm of `b - A·x`; `Solved` iff `k < KMAX`, and then `eps < EPS`; `NotFound` only at `k = KMAX`, every earlier pass having ended with `eps >= EPS` |

## Left out

- File and console I/O is not modelled.
  - This covers `fopen` failures, `printf` output, prompts, and `fgets`'s 1024-byte chunking of long lines.
  - Inputs are in-memory strings, lines or number sequences.
  - An `fscanf` that returns `EOF` and one that returns 0 are the same "out of numbers" case.
- The `char`/`EOF` comparison in the `Size_count` loops is a platform issue. Those loops are modelled as counting over the text.
- `read_vector` in 4_kadai and 5_kadai is not modelled, nor the printing and display functions. Each is a plain loop of `fscanf`/`printf` calls.
- The MPI runtime is not modelled: initialisation, broadcasts, non-blocking sends and receives, waits, request arrays.
  - Ranks run one after the other in the model.
  - A matched send and receive is a copy.
  - Concurrency and message ordering are not modelled.
- Floating point is not modelled.
  - `double` is `real`, so the claims about solutions hold for exact arithmetic only.
  - Rounding, overflow and NaN propagation are absent. 2_kadai's NaN marker is a separate `NaN` value.
- CG convergence within `KMAX` is not proved. The model states the loop's invariants and its exit rule, not that the method converges.
- ConjugateGradient.Cg ends with the `Breakdown` outcome on a zero divisor `p·Ap` (CG/1.c:129), because a real division by zero has no value. In C that division gives an infinity or NaN and the loop goes on. The other divisor, `rho` at CG/1.c:144, is proved never to be zero when it is reached (ConjugateGradient.VanishedResidual).
- PartialPivoting.Gauss and PackedSymmetric.GaussSymmetric end with `ZeroLastPivot` when `a(N,N)` or `a(n,n)` is zero. The source divides by it unchecked.
- PartialPivoting.Gauss does not prove the stretch property that the result solves the original `A·x = b`. Its contract stops at the reduced triangular system.
- PackedSymmetric elimination is not dense elimination: off-diagonal cells are decremented twice per step (StepDecrementsTwice). No equivalence with dense elimination is claimed.
- The 0_kadai kernels use unbounded integers: 32-bit `int` overflow is not modelled.
- Memory management is not modelled: `malloc`/`free`, allocation-failure exits, and the 1-based pointer rebasing of `dvector`/`dmatrix`. The index base is explicit in the arrays instead.
- Storage for 4_kadai and 5_kadai:
  - The ragged rows of 4_kadai are the rows of an `n x n` array, whose row `i` uses only offsets `0..n-i-1`. Every access to the array is preceded by an assertion (`TriangularSymmetric.InRow`) that its offset lies inside that range.
  - Pointer aliasing between rows is not modelled.
- BandSymmetric.ForwardErase and BandSymmetric.BackwardAssignment take a bandwidth of at least 1. A bandwidth of 0, from an all-zero upper triangle, makes the C allocate zero-width rows. `forward_erase` then reads `A[i][0]` out of bounds when `n >= 2`, and `backward_assignment` does so when `n >= 1`.
- Dimensions of 0 are excluded where the C would read out of bounds (`n >= 1` for the packed solver).
