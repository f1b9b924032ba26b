// The three ownership variants of the least-squares solve (borrowed,
// consuming, in place) for a single right-hand side and for a matrix of
// right-hand sides, and the result extraction after the kernel has run.
module LeastSquares {
  import opened Linalg
  import opened NdArray
  import opened Lapack
  import opened Residual

  /**
   * The result of a solve. `S` is the solution's shape and `R` the
   * residual's: a vector and a scalar for one right-hand side, a matrix
   * and a vector (one entry per column) for several.
   */
  datatype LeastSquaresResult<S, R> = LeastSquaresResult(
    singularValues: seq<real>,
    solution: S,
    rank: int,
    residualSumOfSquares: Option<R>)

  type VectorResult = LeastSquaresResult<seq<int>, int>
  type MatrixResult = LeastSquaresResult<Mat, seq<int>>

  /** Whether the single-right-hand-side solve gets as far as the kernel. */
  predicate VectorKernelReached(aStorage: Storage, rhsStorage: Storage) {
    aStorage.layout.Some? && aStorage.contiguous && rhsStorage.contiguous
  }

  /** Whether the multi-right-hand-side solve gets as far as the kernel. */
  predicate MatrixKernelReached(aStorage: Storage, rhsStorage: Storage) {
    aStorage.layout.Some? && rhsStorage.layout.Some? && aStorage.contiguous && rhsStorage.contiguous
  }

  // ---------------------------------------------------------------------
  // Specification: the outcome of a solve as a function of its inputs
  // ---------------------------------------------------------------------

  /** Result extraction from the right-hand side `b` an m x n solve left behind. */
  function ExtractVector(m: nat, n: nat, out: KernelOutput, b: seq<int>): (r: Result<VectorResult>) {
    if |b| < n then Err(SlicePanic)
    else Ok(LeastSquaresResult(out.singularValues, b[..n], out.rank, ResidualScalar(m, n, out.rank, b)))
  }

  /** Result extraction from the right-hand-side matrix `b` an m x n solve left behind. */
  function ExtractMatrix(m: nat, n: nat, out: KernelOutput, b: Mat): (r: Result<MatrixResult>)
    requires b.Valid()
  {
    if b.rows < n then Err(SlicePanic)
    else Ok(LeastSquaresResult(out.singularValues, Mat(n, b.cols, b.entries[..n]), out.rank,
                               ResidualArray1(m, n, out.rank, b)))
  }

  /** The outcome of an in-place solve of A x = b for a single right-hand side. */
  function SolveVector(a: Mat, aStorage: Storage, b: seq<int>, rhsStorage: Storage, kernel: VectorKernel)
    : (r: Result<VectorResult>)
  {
    var aLayout :- Layout(aStorage);
    if !aStorage.contiguous then Err(MemoryNotCont)
    else if !rhsStorage.contiguous then Err(MemoryNotCont)
    else
      var run := kernel(aLayout, a, b);
      var out :- run.status;
      ExtractVector(a.rows, a.cols, out, seq(|b|, run.rhsAfter))
  }

  /** The outcome of an in-place solve of A X = B for a matrix of right-hand sides. */
  function SolveMatrix(a: Mat, aStorage: Storage, b: Mat, rhsStorage: Storage, kernel: MatrixKernel)
    : (r: Result<MatrixResult>)
  {
    var aLayout :- Layout(aStorage);
    var rhsLayout :- Layout(rhsStorage);
    if !aStorage.contiguous then Err(MemoryNotCont)
    else if !rhsStorage.contiguous then Err(MemoryNotCont)
    else
      var run := kernel(aLayout, a, rhsLayout, b);
      var out :- run.status;
      ExtractMatrix(a.rows, a.cols, out, Tabulate(b.rows, b.cols, run.rhsAfter))
  }

  // ---------------------------------------------------------------------
  // In place: A and the right-hand side are handed to the kernel
  // ---------------------------------------------------------------------

  method LeastSquaresInPlaceVector(a: array2<int>, aStorage: Storage, rhs: array<int>, rhsStorage: Storage,
                                   kernel: VectorKernel)
    returns (r: Result<VectorResult>)
    modifies a, rhs
    ensures r == SolveVector(old(Snapshot(a)), aStorage, old(rhs[..]), rhsStorage, kernel)
    ensures r.Ok? ==>
      && a.Length1 <= rhs.Length
      && r.value.solution == rhs[..a.Length1]
      && r.value.residualSumOfSquares == ResidualScalar(a.Length0, a.Length1, r.value.rank, rhs[..])
    ensures !VectorKernelReached(aStorage, rhsStorage) ==> unchanged(a) && unchanged(rhs)
    ensures VectorKernelReached(aStorage, rhsStorage) ==>
      var run := kernel(aStorage.layout.value, old(Snapshot(a)), old(rhs[..]));
      Snapshot(a) == Tabulate(a.Length0, a.Length1, run.aAfter) && rhs[..] == seq(rhs.Length, run.rhsAfter)
  {
    var aLayout :- Layout(aStorage);
    if !aStorage.contiguous {
      return Err(MemoryNotCont);
    }
    if !rhsStorage.contiguous {
      return Err(MemoryNotCont);
    }
    var status := RunKernel(kernel, aLayout, a, rhs);
    var out :- status;
    var m, n := a.Length0, a.Length1;
    if rhs.Length < n {
      return Err(SlicePanic);
    }
    var solution := rhs[..n];
    var residual := ResidualScalar(m, n, out.rank, rhs[..]);
    r := Ok(LeastSquaresResult(out.singularValues, solution, out.rank, residual));
  }

  method LeastSquaresInPlaceMatrix(a: array2<int>, aStorage: Storage, rhs: array2<int>, rhsStorage: Storage,
                                   kernel: MatrixKernel)
    returns (r: Result<MatrixResult>)
    requires a != rhs
    modifies a, rhs
    ensures r == SolveMatrix(old(Snapshot(a)), aStorage, old(Snapshot(rhs)), rhsStorage, kernel)
    ensures r.Ok? ==>
      && a.Length1 <= rhs.Length0
      && r.value.solution == Mat(a.Length1, rhs.Length1, Snapshot(rhs).entries[..a.Length1])
      && r.value.residualSumOfSquares == ResidualArray1(a.Length0, a.Length1, r.value.rank, Snapshot(rhs))
    ensures !MatrixKernelReached(aStorage, rhsStorage) ==> unchanged(a) && unchanged(rhs)
    ensures MatrixKernelReached(aStorage, rhsStorage) ==>
      var run := kernel(aStorage.layout.value, old(Snapshot(a)), rhsStorage.layout.value, old(Snapshot(rhs)));
      Snapshot(a) == Tabulate(a.Length0, a.Length1, run.aAfter)
      && Snapshot(rhs) == Tabulate(rhs.Length0, rhs.Length1, run.rhsAfter)
  {
    var aLayout :- Layout(aStorage);
    var rhsLayout :- Layout(rhsStorage);
    if !aStorage.contiguous {
      return Err(MemoryNotCont);
    }
    if !rhsStorage.contiguous {
      return Err(MemoryNotCont);
    }
    var status := RunKernelNrhs(kernel, aLayout, a, rhsLayout, rhs);
    var out :- status;
    var n := a.Length1;
    if rhs.Length0 < n {
      return Err(SlicePanic);
    }
    var after := Snapshot(rhs);
    var solution := Mat(n, rhs.Length1, after.entries[..n]);
    var m := a.Length0;
    var residual := ResidualArray1(m, n, out.rank, after);
    r := Ok(LeastSquaresResult(out.singularValues, solution, out.rank, residual));
  }

  // ---------------------------------------------------------------------
  // Consuming: the caller's buffers are used as they are
  // ---------------------------------------------------------------------

  method LeastSquaresIntoVector(a: array2<int>, aStorage: Storage, rhs: array<int>, rhsStorage: Storage,
                                kernel: VectorKernel)
    returns (r: Result<VectorResult>)
    modifies a, rhs
    ensures r == SolveVector(old(Snapshot(a)), aStorage, old(rhs[..]), rhsStorage, kernel)
  {
    r := LeastSquaresInPlaceVector(a, aStorage, rhs, rhsStorage, kernel);
  }

  method LeastSquaresIntoMatrix(a: array2<int>, aStorage: Storage, rhs: array2<int>, rhsStorage: Storage,
                                kernel: MatrixKernel)
    returns (r: Result<MatrixResult>)
    requires a != rhs
    modifies a, rhs
    ensures r == SolveMatrix(old(Snapshot(a)), aStorage, old(Snapshot(rhs)), rhsStorage, kernel)
  {
    r := LeastSquaresInPlaceMatrix(a, aStorage, rhs, rhsStorage, kernel);
  }

  // ---------------------------------------------------------------------
  // Borrowed: both inputs are copied first and left as they were
  // ---------------------------------------------------------------------

  method LeastSquaresVector(a: array2<int>, aStorage: Storage, rhs: array<int>, rhsStorage: Storage,
                            kernel: VectorKernel)
    returns (r: Result<VectorResult>)
    ensures r == SolveVector(Snapshot(a), Owned(aStorage), rhs[..], Owned(rhsStorage), kernel)
  {
    var aOwned := ToOwned2(a);
    var rhsOwned := ToOwned1(rhs);
    r := LeastSquaresIntoVector(aOwned, Owned(aStorage), rhsOwned, Owned(rhsStorage), kernel);
  }

  method LeastSquaresMatrix(a: array2<int>, aStorage: Storage, rhs: array2<int>, rhsStorage: Storage,
                            kernel: MatrixKernel)
    returns (r: Result<MatrixResult>)
    ensures r == SolveMatrix(Snapshot(a), Owned(aStorage), Snapshot(rhs), Owned(rhsStorage), kernel)
  {
    var aOwned := ToOwned2(a);
    var rhsOwned := ToOwned2(rhs);
    r := LeastSquaresIntoMatrix(aOwned, Owned(aStorage), rhsOwned, Owned(rhsStorage), kernel);
  }

  // ---------------------------------------------------------------------
  // Properties of the specification
  // ---------------------------------------------------------------------

  /**
   * A failed query short-circuits before the kernel runs, with the layout
   * error first; a kernel error comes back unchanged.
   */
  lemma SolveVectorShortCircuit(a: Mat, aStorage: Storage, b: seq<int>, rhsStorage: Storage, kernel: VectorKernel)
    ensures var r := SolveVector(a, aStorage, b, rhsStorage, kernel);
      && (aStorage.layout.None? ==> r == Err(InvalidStride))
      && (aStorage.layout.Some? && !VectorKernelReached(aStorage, rhsStorage) ==> r == Err(MemoryNotCont))
      && (VectorKernelReached(aStorage, rhsStorage) ==>
            var status := kernel(aStorage.layout.value, a, b).status;
            status.Err? ==> r == Err(status.error))
  {
  }

  /**
   * A solve succeeds exactly when the kernel is reached, reports success and
   * leaves at least n entries; the result then carries the leading n entries
   * as the solution, the kernel's singular values and rank unchanged, and a
   * residual present exactly when m >= n and rank == n, summing the squares
   * of the entries after the first n.
   */
  lemma SolveVectorSuccess(a: Mat, aStorage: Storage, b: seq<int>, rhsStorage: Storage, kernel: VectorKernel)
    ensures var r := SolveVector(a, aStorage, b, rhsStorage, kernel);
      && (r.Ok? <==>
            && VectorKernelReached(aStorage, rhsStorage)
            && kernel(aStorage.layout.value, a, b).status.Ok?
            && a.cols <= |b|)
      && (r.Ok? ==>
            var run := kernel(aStorage.layout.value, a, b);
            var left := seq(|b|, run.rhsAfter);
            && |r.value.solution| == a.cols
            && r.value.solution == left[..a.cols]
            && r.value.singularValues == run.status.value.singularValues
            && r.value.rank == run.status.value.rank
            && (r.value.residualSumOfSquares.Some? <==> a.cols <= a.rows && r.value.rank == a.cols)
            && (r.value.residualSumOfSquares.Some? ==>
                  r.value.residualSumOfSquares.value == SumOfSquares(left[a.cols..]) >= 0))
  {
  }

  /** The multi-right-hand-side counterpart of SolveVectorShortCircuit. */
  lemma SolveMatrixShortCircuit(a: Mat, aStorage: Storage, b: Mat, rhsStorage: Storage, kernel: MatrixKernel)
    ensures var r := SolveMatrix(a, aStorage, b, rhsStorage, kernel);
      && (aStorage.layout.None? || rhsStorage.layout.None? ==> r == Err(InvalidStride))
      && (aStorage.layout.Some? && rhsStorage.layout.Some? && !MatrixKernelReached(aStorage, rhsStorage) ==>
            r == Err(MemoryNotCont))
      && (MatrixKernelReached(aStorage, rhsStorage) ==>
            var status := kernel(aStorage.layout.value, a, rhsStorage.layout.value, b).status;
            status.Err? ==> r == Err(status.error))
  {
  }

  /**
   * The multi-right-hand-side counterpart of SolveVectorSuccess: the
   * solution is the n x k block of leading rows, and a present residual has
   * one non-negative entry per column: the sum of squares of that column of
   * the kernel's buffer after its first n rows.
   */
  lemma SolveMatrixSuccess(a: Mat, aStorage: Storage, b: Mat, rhsStorage: Storage, kernel: MatrixKernel)
    ensures var r := SolveMatrix(a, aStorage, b, rhsStorage, kernel);
      && (r.Ok? <==>
            && MatrixKernelReached(aStorage, rhsStorage)
            && kernel(aStorage.layout.value, a, rhsStorage.layout.value, b).status.Ok?
            && a.cols <= b.rows)
      && (r.Ok? ==>
            var run := kernel(aStorage.layout.value, a, rhsStorage.layout.value, b);
            var left := Tabulate(b.rows, b.cols, run.rhsAfter);
            && r.value.solution.Valid()
            && r.value.solution.rows == a.cols
            && r.value.solution.cols == b.cols
            && r.value.solution.entries == left.entries[..a.cols]
            && r.value.singularValues == run.status.value.singularValues
            && r.value.rank == run.status.value.rank
            && (r.value.residualSumOfSquares.Some? <==> a.cols <= a.rows && r.value.rank == a.cols)
            && (r.value.residualSumOfSquares.Some? ==>
                  var res := r.value.residualSumOfSquares.value;
                  && |res| == b.cols
                  && forall j :: 0 <= j < |res| ==>
                       res[j] == SumOfSquares(Column(left.entries, j)[a.cols..]) >= 0))
  {
    var r := SolveMatrix(a, aStorage, b, rhsStorage, kernel);
    if r.Ok? && r.value.residualSumOfSquares.Some? {
      var run := kernel(aStorage.layout.value, a, rhsStorage.layout.value, b);
      var left := Tabulate(b.rows, b.cols, run.rhsAfter);
      var res := r.value.residualSumOfSquares.value;
      forall j | 0 <= j < |res|
        ensures res[j] == SumOfSquares(Column(left.entries, j)[a.cols..]) >= 0
      {
        ResidualArray1Column(a.rows, a.cols, run.status.value.rank, left, j);
      }
    }
  }

  /**
   * Extracting from a matrix of right-hand sides is extracting from each
   * column alone: column j of the solution and entry j of the residual are
   * what the single-right-hand-side extraction gives for column j.
   */
  lemma ExtractMatrixColumn(m: nat, n: nat, out: KernelOutput, b: Mat, j: nat)
    requires b.Valid() && j < b.cols
    ensures var rm, rv := ExtractMatrix(m, n, out, b), ExtractVector(m, n, out, Column(b.entries, j));
      && rm.Ok? == rv.Ok?
      && (rm.Err? ==> rm.error == rv.error)
      && (rm.Ok? ==>
            && Column(rm.value.solution.entries, j) == rv.value.solution
            && rm.value.singularValues == rv.value.singularValues
            && rm.value.rank == rv.value.rank
            && rm.value.residualSumOfSquares.Some? == rv.value.residualSumOfSquares.Some?
            && (rm.value.residualSumOfSquares.Some? ==>
                  rm.value.residualSumOfSquares.value[j] == rv.value.residualSumOfSquares.value))
  {
    if n <= b.rows {
      ResidualArray1Column(m, n, out.rank, b, j);
      assert Column(b.entries[..n], j) == Column(b.entries, j)[..n];
    }
  }

  /**
   * The borrowed solve's copies are contiguous, so it never fails a
   * contiguity query. It fails on the layout query exactly when A is
   * contiguous but has no row- or column-major layout (the copy keeps those
   * strides); otherwise it fails only as the kernel does, or on a
   * right-hand side too short to slice.
   */
  lemma BorrowedVectorFailures(a: Mat, aStorage: Storage, b: seq<int>, rhsStorage: Storage, kernel: VectorKernel)
    ensures var r := SolveVector(a, Owned(aStorage), b, Owned(rhsStorage), kernel);
      && (r == Err(InvalidStride) && Owned(aStorage).layout.None? <==> aStorage.contiguous && aStorage.layout.None?)
      && (r.Err? ==>
            || (r.error == InvalidStride && Owned(aStorage).layout.None?)
            || r.error == SlicePanic
            || (Owned(aStorage).layout.Some? && kernel(Owned(aStorage).layout.value, a, b).status == Err(r.error)))
  {
  }

  /** The multi-right-hand-side counterpart of BorrowedVectorFailures, for A and the right-hand side alike. */
  lemma BorrowedMatrixFailures(a: Mat, aStorage: Storage, b: Mat, rhsStorage: Storage, kernel: MatrixKernel)
    ensures var r := SolveMatrix(a, Owned(aStorage), b, Owned(rhsStorage), kernel);
      var noLayout := Owned(aStorage).layout.None? || Owned(rhsStorage).layout.None?;
      && (r == Err(InvalidStride) && noLayout <==>
            (aStorage.contiguous && aStorage.layout.None?) || (rhsStorage.contiguous && rhsStorage.layout.None?))
      && (r.Err? ==>
            || (r.error == InvalidStride && noLayout)
            || r.error == SlicePanic
            || (!noLayout
                && kernel(Owned(aStorage).layout.value, a, Owned(rhsStorage).layout.value, b).status == Err(r.error)))
  {
  }

  /**
   * On inputs whose storage already passes every query, the borrowed,
   * consuming and in-place solves compute the same result.
   */
  lemma BorrowedVectorAgrees(a: Mat, aStorage: Storage, b: seq<int>, rhsStorage: Storage, kernel: VectorKernel)
    requires VectorKernelReached(aStorage, rhsStorage)
    ensures SolveVector(a, Owned(aStorage), b, Owned(rhsStorage), kernel)
         == SolveVector(a, aStorage, b, rhsStorage, kernel)
  {
  }

  /** The multi-right-hand-side counterpart of BorrowedVectorAgrees. */
  lemma BorrowedMatrixAgrees(a: Mat, aStorage: Storage, b: Mat, rhsStorage: Storage, kernel: MatrixKernel)
    requires MatrixKernelReached(aStorage, rhsStorage)
    ensures SolveMatrix(a, Owned(aStorage), b, Owned(rhsStorage), kernel)
         == SolveMatrix(a, aStorage, b, rhsStorage, kernel)
  {
  }
}
