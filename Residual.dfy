// The residual sum of squares that `compute_residual_scalar` and
// `compute_residual_array1` read off the right-hand side the kernel left
// behind: absent unless the system is square or over-determined and of full
// column rank, otherwise the squares of the trailing entries (rows) summed.
module Residual {
  import opened Linalg
  import opened NdArray

  /** The sum of x * x over the entries of `s`. */
  function SumOfSquares(s: seq<int>): (r: int)
    ensures r >= 0
    ensures r == 0 <==> forall i :: 0 <= i < |s| ==> s[i] == 0
  {
    if s == [] then 0
    else
      var rest := SumOfSquares(s[1..]);
      assert s[0] != 0 ==> s[0] * s[0] > 0;
      assert forall i :: 1 <= i < |s| ==> s[i] == s[1..][i - 1];
      s[0] * s[0] + rest
  }

  /**
   * Element-wise square, then sum along axis 0: entry j of the result adds
   * up the squares of column j over all rows.
   */
  function SquaredSumAxis0(rows: seq<seq<int>>, k: nat): (r: seq<int>)
    requires forall i :: 0 <= i < |rows| ==> |rows[i]| == k
    ensures |r| == k
    decreases |rows|
  {
    if rows == [] then seq(k, _ => 0)
    else
      var rest := SquaredSumAxis0(rows[1..], k);
      seq(k, j requires 0 <= j < k => rows[0][j] * rows[0][j] + rest[j])
  }

  /**
   * Residual of a single right-hand side `b` for an m x n matrix of the
   * given rank. Slicing `b` from `n` is only reached when the rule lets the
   * residual through, and needs `n <= |b|` there.
   */
  function ResidualScalar(m: nat, n: nat, rank: int, b: seq<int>): (r: Option<int>)
    requires m < n || n != rank || n <= |b|
    ensures r.Some? ==> r.value >= 0
    ensures r == Some(0) <==> n <= m && rank == n && forall i :: n <= i < |b| ==> b[i] == 0
  {
    if m < n || n != rank then None
    else
      assert forall i :: n <= i < |b| ==> b[i] == b[n..][i - n];
      Some(SumOfSquares(b[n..]))
  }

  /** Residuals of a right-hand-side matrix `b`, one per column. */
  function ResidualArray1(m: nat, n: nat, rank: int, b: Mat): (r: Option<seq<int>>)
    requires b.Valid()
    requires m < n || n != rank || n <= b.rows
    ensures r.Some? ==> |r.value| == b.cols
  {
    if m < n || n != rank then None
    else Some(SquaredSumAxis0(b.entries[n..], b.cols))
  }

  lemma {:induction false} SumOfSquaresAppend(s: seq<int>, t: seq<int>)
    ensures SumOfSquares(s + t) == SumOfSquares(s) + SumOfSquares(t)
  {
    if s == [] {
      assert s + t == t;
    } else {
      SumOfSquaresAppend(s[1..], t);
      assert (s + t)[1..] == s[1..] + t;
    }
  }

  /** Entry j of the axis-0 sum of squares is the sum of squares of column j alone. */
  lemma {:induction false} SquaredSumAxis0Column(rows: seq<seq<int>>, k: nat, j: nat)
    requires forall i :: 0 <= i < |rows| ==> |rows[i]| == k
    requires j < k
    ensures SquaredSumAxis0(rows, k)[j] == SumOfSquares(Column(rows, j))
    decreases |rows|
  {
    if rows != [] {
      SquaredSumAxis0Column(rows[1..], k, j);
      assert Column(rows, j)[1..] == Column(rows[1..], j);
    }
  }

  /**
   * The matrix residual is present exactly when the scalar residual of any
   * one column is, and its entry j is that column's scalar residual.
   */
  lemma ResidualArray1Column(m: nat, n: nat, rank: int, b: Mat, j: nat)
    requires b.Valid() && j < b.cols
    requires m < n || n != rank || n <= b.rows
    ensures var col := Column(b.entries, j);
      var r, s := ResidualArray1(m, n, rank, b), ResidualScalar(m, n, rank, col);
      && r.Some? == s.Some?
      && (r.Some? ==> r.value[j] == s.value)
  {
    if !(m < n || n != rank) {
      SquaredSumAxis0Column(b.entries[n..], b.cols, j);
      assert Column(b.entries[n..], j) == Column(b.entries, j)[n..];
    }
  }

  /** A present residual is the part of the buffer's energy not in its leading n entries. */
  lemma ResidualScalarSplit(m: nat, n: nat, rank: int, b: seq<int>)
    requires m < n || n != rank || n <= |b|
    ensures var r := ResidualScalar(m, n, rank, b);
      r.Some? ==> SumOfSquares(b) == SumOfSquares(b[..n]) + r.value
  {
    if !(m < n || n != rank) {
      var head, tail := b[..n], b[n..];
      assert ResidualScalar(m, n, rank, b) == Some(SumOfSquares(tail));
      assert head + tail == b;
      SumOfSquaresAppend(head, tail);
    }
  }

  /** Every column residual of a present matrix residual is non-negative. */
  lemma ResidualArray1NonNegative(m: nat, n: nat, rank: int, b: Mat)
    requires b.Valid()
    requires m < n || n != rank || n <= b.rows
    ensures var r := ResidualArray1(m, n, rank, b);
      r.Some? ==> forall j :: 0 <= j < |r.value| ==> r.value[j] >= 0
  {
    var r := ResidualArray1(m, n, rank, b);
    if r.Some? {
      forall j | 0 <= j < |r.value|
        ensures r.value[j] >= 0
      {
        ResidualArray1Column(m, n, rank, b, j);
      }
    }
  }

  /**
   * A square system of full rank (m == n == rank) whose right-hand side has
   * m entries gets a residual, and it is the empty sum, zero.
   */
  lemma SquareFullRankResidualIsZero(m: nat, rank: int, b: seq<int>)
    requires rank == m && |b| == m
    ensures ResidualScalar(m, m, rank, b) == Some(0)
  {
  }

  /** The matrix form of SquareFullRankResidualIsZero: one zero per column. */
  lemma SquareFullRankResidualArray1IsZero(m: nat, rank: int, b: Mat)
    requires b.Valid() && rank == m && b.rows == m
    ensures ResidualArray1(m, m, rank, b) == Some(seq(b.cols, _ => 0))
  {
    assert b.entries[m..] == [];
  }
}
