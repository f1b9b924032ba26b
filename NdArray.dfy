// The parts of the dense-array container that a least-squares solve
// consults: storage order, the layout query, contiguity, and value
// snapshots of two-dimensional arrays.
module NdArray {
  import opened Linalg

  /** Memory order of a contiguous two-dimensional array (C or Fortran). */
  datatype Order = RowMajor | ColumnMajor

  /**
   * What the container reports about an array's storage: the order its
   * layout query finds (None when the strides fit neither order) and
   * whether its elements can be handed out as one contiguous slice.
   */
  datatype Storage = Storage(layout: Option<Order>, contiguous: bool)

  /** The layout query of a two-dimensional array. */
  function Layout(s: Storage): (r: Result<Order>)
    ensures r.Ok? <==> s.layout.Some?
    ensures r.Ok? ==> r.value == s.layout.value
    ensures r.Err? ==> r.error == InvalidStride
  {
    match s.layout
    case Some(o) => Ok(o)
    case None => Err(InvalidStride)
  }

  /**
   * Storage of an owned copy: a contiguous source is copied with its
   * strides unchanged, so the copy answers every query as the source does;
   * anything else is copied into standard row-major order.
   */
  function Owned(s: Storage): (r: Storage)
    ensures r.contiguous
    ensures s.contiguous ==> r == s
    ensures !s.contiguous ==> r.layout == Some(RowMajor)
  {
    if s.contiguous then s else Storage(Some(RowMajor), true)
  }

  /** A matrix value: `rows` rows of `cols` entries each. */
  datatype Mat = Mat(rows: nat, cols: nat, entries: seq<seq<int>>) {
    ghost predicate Valid() {
      |entries| == rows && forall i :: 0 <= i < |entries| ==> |entries[i]| == cols
    }
  }

  /** Column `j` of a rectangular sequence of rows. */
  function Column(rows: seq<seq<int>>, j: int): (c: seq<int>)
    requires 0 <= j
    requires forall i :: 0 <= i < |rows| ==> j < |rows[i]|
    ensures |c| == |rows|
  {
    seq(|rows|, i requires 0 <= i < |rows| => rows[i][j])
  }

  /** The current contents of a two-dimensional array. */
  function Snapshot(a: array2<int>): (r: Mat)
    reads a
    ensures r.Valid() && r.rows == a.Length0 && r.cols == a.Length1
  {
    Mat(a.Length0, a.Length1,
        seq(a.Length0, i requires 0 <= i < a.Length0 reads a =>
          seq(a.Length1, j requires 0 <= j < a.Length1 reads a => a[i, j])))
  }

  /** The matrix whose entry (i, j) is f(i, j). */
  function Tabulate(rows: nat, cols: nat, f: (int, int) -> int): (r: Mat)
    ensures r.Valid() && r.rows == rows && r.cols == cols
  {
    Mat(rows, cols, seq(rows, i => seq(cols, j => f(i, j))))
  }

  lemma SnapshotIs(a: array2<int>, t: Mat)
    requires t.Valid() && t.rows == a.Length0 && t.cols == a.Length1
    requires forall i, j :: 0 <= i < a.Length0 && 0 <= j < a.Length1 ==> a[i, j] == t.entries[i][j]
    ensures Snapshot(a) == t
  {
    var s := Snapshot(a);
    forall i | 0 <= i < a.Length0
      ensures s.entries[i] == t.entries[i]
    {
    }
  }

  /** `to_owned` of a two-dimensional array: a fresh copy of its contents. */
  method ToOwned2(a: array2<int>) returns (c: array2<int>)
    ensures fresh(c) && Snapshot(c) == Snapshot(a)
  {
    c := new int[a.Length0, a.Length1]((i, j) reads a =>
      if 0 <= i < a.Length0 && 0 <= j < a.Length1 then a[i, j] else 0);
    SnapshotIs(c, Snapshot(a));
  }

  /** `to_owned` of a one-dimensional array: a fresh copy of its contents. */
  method ToOwned1(v: array<int>) returns (c: array<int>)
    ensures fresh(c) && c[..] == v[..]
  {
    c := new int[v.Length](i reads v => if 0 <= i < v.Length then v[i] else 0);
  }
}
