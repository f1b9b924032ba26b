# Least-squares solve orchestration (ndarray-linalg `least_squares`)

This project models the hand-written logic of `src/least_squares.rs` in
ndarray-linalg: the layer around LAPACK's divide-and-conquer SVD
least-squares routine (xGELSD) that solves `A x = b` for a single
right-hand side (`Ix1`) or for a matrix of right-hand sides (`Ix2`).

- **Entry points.** `least_squares` borrows its inputs and copies them.
  `least_squares_into` consumes them. `least_squares_in_place` overwrites
  them. The first two only delegate, so all three reach the same in-place
  code.
- **Solve.** The in-place solve queries A's layout (and, for a matrix
  right-hand side, the right-hand side's layout too). It then obtains
  contiguous slices of both buffers and hands them to the kernel, which
  overwrites both. Any failure returns at once, as Rust's `?` does.
- **Result extraction.** The solution is the leading `n` entries (rows) of
  the overwritten right-hand side. The singular values and the rank are
  passed through unchanged. The residual sum of squares is absent when
  `m < n` or `rank != n`. Otherwise it is the sum of squares of the
  entries (rows) from `n` on: one value for a vector, one per column for a
  matrix.

Modules:

- `Linalg` (Linalg.dfy): the error values and a `Result` whose `:-` plays
  the part of `?`.
- `NdArray` (NdArray.dfy): the container's storage facts (layout query,
  contiguity), matrix values, snapshots of `array2`, and `to_owned`.
- `Lapack` (Lapack.dfy): the kernel as seen from this file. Any function
  from its inputs to new buffer contents plus error-or-(singular values,
  rank) is a possible kernel. `RunKernel` and `RunKernelNrhs` write those
  contents into the arrays in place.
- `Residual` (Residual.dfy): `compute_residual_scalar`,
  `compute_residual_array1`, and their properties.
- `LeastSquares` (LeastSquares.dfy): the result type (generic in the
  solution and residual shapes), the six entry points, the specification
  functions `SolveVector` / `SolveMatrix` that they are proved against, and
  lemmas about those functions.

Elements are `int`, so sums of squares are exact. Singular values are
`real`. The rank is an `int`.

Where the code and its documentation disagree, the model follows the code:

- The doc comment on `residual_sum_of_squares` (line 99) says "n < m".
  The code also produces a residual when `m == n`, and it is then the
  empty sum, zero (`SquareFullRankResidualIsZero`).
- The residual sums the right-hand-side buffer from row `n` to the
  buffer's own end. The code never compares that length with `m`.

## Model

| member | source | states |
|---|---|---|
| Residual.SumOfSquares | src/least_squares.rs:315 | `mapv(x*x).sum()` is non-negative, and zero exactly when every entry is zero |
| Residual.SquaredSumAxis0 | src/least_squares.rs:376 | `mapv(x*x).sum_axis(Axis(0))` of rows of width k has exactly k entries |
| Residual.ResidualScalar | src/least_squares.rs:306-316 | a present residual is non-negative; it is `Some(0)` exactly when m >= n, rank == n and every entry from n on is zero |
| Residual.ResidualArray1 | src/least_squares.rs:367-377 | a present matrix residual has one entry per right-hand-side column |
| Residual.SumOfSquaresAppend | src/least_squares.rs:315 | the sum of squares of a concatenation is the sum of the parts' sums |
| Residual.SquaredSumAxis0Column | src/least_squares.rs:376 | entry j of the axis-0 sum of squares is the sum of squares of column j alone |
| Residual.ResidualArray1Column | src/least_squares.rs:373-376 | the matrix residual is present exactly when each column's scalar residual is, and entry j equals column j's scalar residual |
| Residual.ResidualArray1NonNegative | src/least_squares.rs:376 | every entry of a present matrix residual is non-negative |
| Residual.ResidualScalarSplit | src/least_squares.rs:312-315 | a present residual is the buffer's sum of squares minus that of its leading n entries |
| Residual.SquareFullRankResidualIsZero | src/least_squares.rs:312-315 | with m == n == rank and an m-entry buffer, the residual is `Some(0)`, not `None` |
| Residual.SquareFullRankResidualArray1IsZero | src/least_squares.rs:373-376 | the matrix form of the same: `Some` of k zeros |
| NdArray.Owned | src/least_squares.rs:178-179 | an owned copy is always contiguous; a contiguous source's copy keeps its storage (so its layout query answers as the source's does), any other source's copy is row-major |
| NdArray.ToOwned2 | src/least_squares.rs:178 | `to_owned` of a matrix is a fresh array with the same contents |
| NdArray.ToOwned1 | src/least_squares.rs:179 | `to_owned` of a vector is a fresh array with the same contents |
| Lapack.RunKernel | src/least_squares.rs:285-292 | the single-right-hand-side kernel call returns the kernel's status and leaves A and rhs holding the contents the kernel produced |
| Lapack.RunKernelNrhs | src/least_squares.rs:345-352 | the same for the multi-right-hand-side kernel call, on two distinct buffers |
| LeastSquares.LeastSquaresInPlaceVector | src/least_squares.rs:277-303 | result is `SolveVector` of the old contents; on success the solution is the first n entries of rhs as the kernel left it and the residual is `ResidualScalar` of that buffer; buffers untouched when a query fails, and overwritten by the kernel otherwise |
| LeastSquares.LeastSquaresInPlaceMatrix | src/least_squares.rs:336-364 | result is `SolveMatrix` of the old contents; on success the solution is the first n rows (all k columns) of rhs as left by the kernel and the residual is `ResidualArray1` of it; buffers untouched when a query fails |
| LeastSquares.LeastSquaresIntoVector | src/least_squares.rs:225-230 | the consuming solve returns exactly what the in-place solve returns on the same buffers |
| LeastSquares.LeastSquaresIntoMatrix | src/least_squares.rs:251-256 | the consuming solve returns exactly what the in-place solve returns on the same buffers |
| LeastSquares.LeastSquaresVector | src/least_squares.rs:177-181 | the borrowed solve modifies nothing and returns the in-place outcome on owned copies of A and rhs |
| LeastSquares.LeastSquaresMatrix | src/least_squares.rs:200-204 | the borrowed solve modifies nothing and returns the in-place outcome on owned copies of A and rhs |
| LeastSquares.SolveVectorShortCircuit | src/least_squares.rs:281-291 | a failed layout query gives `InvalidStride` first; an unobtainable contiguous slice of A or rhs gives `MemoryNotCont`; a kernel error is returned unchanged |
| LeastSquares.SolveVectorSuccess | src/least_squares.rs:294-302 | success iff the kernel is reached, succeeds and leaves at least n entries; then the solution has length n and is the leading n entries, rank and singular values are the kernel's, and the residual is present iff m >= n and rank == n, equal to the non-negative sum of squares after index n |
| LeastSquares.SolveMatrixShortCircuit | src/least_squares.rs:340-352 | layout errors of A or rhs come first, then `MemoryNotCont`, and a kernel error is returned unchanged |
| LeastSquares.SolveMatrixSuccess | src/least_squares.rs:354-363 | success iff the kernel is reached, succeeds and leaves at least n rows; then the solution is the n x k block of leading rows, rank and singular values are the kernel's, and the residual is present iff m >= n and rank == n, with k entries, entry j the non-negative sum of squares of column j after row n |
| LeastSquares.ExtractMatrixColumn | src/least_squares.rs:354-376 | matrix extraction agrees column by column with vector extraction: column j of the solution and residual entry j are the vector results for column j |
| LeastSquares.BorrowedVectorFailures | src/least_squares.rs:177-181 | the borrowed solve never fails a contiguity query; it fails the layout query exactly when A is contiguous without a row- or column-major layout, and otherwise fails only with the kernel's own error or a too-short right-hand side |
| LeastSquares.BorrowedMatrixFailures | src/least_squares.rs:200-204 | the same for the matrix right-hand side, where the layout query fails exactly when A or the right-hand side is contiguous without a known layout |
| LeastSquares.BorrowedVectorAgrees | src/least_squares.rs:177-181 | on inputs whose storage passes every query, the borrowed solve's result equals the in-place one |
| LeastSquares.BorrowedMatrixAgrees | src/least_squares.rs:200-204 | the same for the matrix right-hand side |

## Left out

- The xGELSD kernel's numerics (`least_squares` and `least_squares_nrhs` in `crate::lapack`) are not part of this model. The kernel is any deterministic function of its inputs, so the model does not state singular-value ordering, the length `min(m, n)`, rank thresholding or minimum-norm optimality. It also leaves out the kernel's own layout-compatibility check (`IncompatibleShape`); that check is one of the errors a kernel may return.
- The numeric claims of the tests (expected solutions, residual equal to `||b - A x||^2` within 1e-12) rest on floating point and on the kernel's correctness, so they are not modelled.
- Scalar kinds `f32`/`f64`/`c32`/`c64` are replaced by exact `int` entries. For complex scalars `powi(2)` is `x*x` rather than `|x|^2`, so the non-negativity of the residual holds for the real kinds only.
- `layout()` and `as_allocated_mut` / `as_slice_memory_order_mut` are not computed from strides. The `Storage` value records their pass/fail outcome.
- `Owned` encodes one assumption about ndarray's `to_owned`: a contiguous array is copied with its strides unchanged, and any other array is copied into row-major order.
- A Rust slice past the end of the right-hand side panics. The model returns `Err(SlicePanic)` instead.
- `Array::from_shape_vec((len,), v)` on the singular values cannot fail, since the shape is the vector's own length. The model passes the values through.
- `rank as usize` is not modelled. The rank is an `int`, so a negative rank never equals `n`.
- Rust's borrow rules guarantee that `&mut self` and `&mut rhs` are distinct buffers. The matrix methods state this as `a != rhs`.
- The trait scaffolding (`Ix1OrIx2`, `ScalarOrArray1`, the three traits) is replaced by a generic result type used at two shapes, with separate vector and matrix methods.
