// The divide-and-conquer SVD least-squares kernel (xGELSD) as this core sees
// it. The kernel's numerics are not modelled: a kernel is any function from
// its inputs to the contents it leaves in both buffers and to either an
// error or the singular values and rank it reports.
module Lapack {
  import opened Linalg
  import opened NdArray

  /** What a successful kernel call reports. */
  datatype KernelOutput = KernelOutput(singularValues: seq<real>, rank: int)

  /**
   * One kernel call: the new contents of A (entry (i, j) is aAfter(i, j)),
   * the new contents of the right-hand side (indexed by `F`'s argument) and
   * the reported status. The buffers may be overwritten even when the call
   * fails.
   */
  datatype KernelRun<F> = KernelRun(aAfter: (int, int) -> int, rhsAfter: F, status: Result<KernelOutput>)

  /** `least_squares`: A's layout, A, and a single right-hand side. */
  type VectorKernel = (Order, Mat, seq<int>) -> KernelRun<int -> int>

  /** `least_squares_nrhs`: A's layout, A, the right-hand side's layout and the right-hand side. */
  type MatrixKernel = (Order, Mat, Order, Mat) -> KernelRun<(int, int) -> int>

  /** Overwrites every entry (i, j) of `a` with f(i, j). */
  method Overwrite(a: array2<int>, f: (int, int) -> int)
    modifies a
    ensures Snapshot(a) == Tabulate(a.Length0, a.Length1, f)
  {
    var i := 0;
    while i < a.Length0
      invariant 0 <= i <= a.Length0
      invariant forall p, q :: 0 <= p < i && 0 <= q < a.Length1 ==> a[p, q] == f(p, q)
    {
      var j := 0;
      while j < a.Length1
        invariant 0 <= j <= a.Length1
        invariant forall p, q :: 0 <= p < i && 0 <= q < a.Length1 ==> a[p, q] == f(p, q)
        invariant forall q :: 0 <= q < j ==> a[i, q] == f(i, q)
      {
        a[i, j] := f(i, j);
        j := j + 1;
      }
      i := i + 1;
    }
    SnapshotIs(a, Tabulate(a.Length0, a.Length1, f));
  }

  /** Runs the single-right-hand-side kernel on `a` and `rhs` in place. */
  method RunKernel(kernel: VectorKernel, aLayout: Order, a: array2<int>, rhs: array<int>)
    returns (status: Result<KernelOutput>)
    modifies a, rhs
    ensures var run := kernel(aLayout, old(Snapshot(a)), old(rhs[..]));
      && status == run.status
      && Snapshot(a) == Tabulate(a.Length0, a.Length1, run.aAfter)
      && rhs[..] == seq(rhs.Length, run.rhsAfter)
  {
    var run := kernel(aLayout, Snapshot(a), rhs[..]);
    Overwrite(a, run.aAfter);
    var i := 0;
    while i < rhs.Length
      invariant 0 <= i <= rhs.Length
      invariant forall k :: 0 <= k < i ==> rhs[k] == run.rhsAfter(k)
      invariant Snapshot(a) == Tabulate(a.Length0, a.Length1, run.aAfter)
    {
      rhs[i] := run.rhsAfter(i);
      i := i + 1;
    }
    status := run.status;
  }

  /** Runs the multi-right-hand-side kernel on `a` and `rhs` in place. */
  method RunKernelNrhs(kernel: MatrixKernel, aLayout: Order, a: array2<int>, rhsLayout: Order, rhs: array2<int>)
    returns (status: Result<KernelOutput>)
    requires a != rhs
    modifies a, rhs
    ensures var run := kernel(aLayout, old(Snapshot(a)), rhsLayout, old(Snapshot(rhs)));
      && status == run.status
      && Snapshot(a) == Tabulate(a.Length0, a.Length1, run.aAfter)
      && Snapshot(rhs) == Tabulate(rhs.Length0, rhs.Length1, run.rhsAfter)
  {
    var run := kernel(aLayout, Snapshot(a), rhsLayout, Snapshot(rhs));
    Overwrite(a, run.aAfter);
    Overwrite(rhs, run.rhsAfter);
    status := run.status;
  }
}
