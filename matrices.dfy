/** Two-dimensional label arrays (numpy `ndarray`s of shape (rows, cols)) as values.
    The width is kept explicitly so that an array with no rows still has a column
    count, as `target.shape[1]` does for a numpy array of shape (0, w). */
module Matrices {

  datatype Matrix<T> = Matrix(cols: nat, rows: seq<seq<T>>)

  /** Every row has exactly `cols` entries (a numpy array is always rectangular). */
  predicate Valid<T>(m: Matrix<T>)
  {
    forall r :: 0 <= r < |m.rows| ==> |m.rows[r]| == m.cols
  }

  /** `np.concatenate((a, b), axis=1)`: rows are glued side by side. */
  function HConcat<T>(a: Matrix<T>, b: Matrix<T>): (r: Matrix<T>)
    requires |a.rows| == |b.rows|
    ensures Valid(a) && Valid(b) ==> Valid(r)
    ensures |r.rows| == |a.rows| && r.cols == a.cols + b.cols
  {
    Matrix(a.cols + b.cols, seq(|a.rows|, i requires 0 <= i < |a.rows| => a.rows[i] + b.rows[i]))
  }

  /** `m[:, lo:hi]`: the columns lo, ..., hi-1 of every row. */
  function ColumnSlice<T>(m: Matrix<T>, lo: nat, hi: nat): (r: Matrix<T>)
    requires Valid(m) && lo <= hi <= m.cols
    ensures Valid(r) && r.cols == hi - lo && |r.rows| == |m.rows|
  {
    Matrix(hi - lo, seq(|m.rows|, i requires 0 <= i < |m.rows| => m.rows[i][lo..hi]))
  }

  /** Every index of `idx` names a row of a matrix with `n` rows. */
  predicate InRange(idx: seq<nat>, n: nat)
  {
    forall j :: 0 <= j < |idx| ==> idx[j] < n
  }

  /** `m[idx]`: the rows named by `idx`, in that order (rows may repeat or be left out). */
  function SelectRows<T>(m: Matrix<T>, idx: seq<nat>): (r: Matrix<T>)
    requires InRange(idx, |m.rows|)
    ensures Valid(m) ==> Valid(r)
    ensures r.cols == m.cols && |r.rows| == |idx|
    ensures forall j :: 0 <= j < |idx| ==> r.rows[j] == m.rows[idx[j]]
  {
    Matrix(m.cols, seq(|idx|, j requires 0 <= j < |idx| => m.rows[idx[j]]))
  }

  /** The indices 0, 1, ..., n-1: selecting them leaves the rows in their original order. */
  function Iota(n: nat): (r: seq<nat>)
    ensures |r| == n && forall j :: 0 <= j < n ==> r[j] == j
  {
    seq(n, j requires 0 <= j < n => j)
  }

  /** Entry c of row i of a column-wise concatenation comes from the left array when
      c is one of its columns, and from the right array, shifted by the left width, otherwise. */
  lemma HConcatEntry<T>(a: Matrix<T>, b: Matrix<T>, i: nat, c: nat)
    requires Valid(a) && Valid(b) && |a.rows| == |b.rows|
    requires i < |a.rows| && c < a.cols + b.cols
    ensures HConcat(a, b).rows[i][c] == if c < a.cols then a.rows[i][c] else b.rows[i][c - a.cols]
  {
  }

  /** Entry c of row i of a column slice is entry lo+c of the same row. */
  lemma ColumnSliceEntry<T>(m: Matrix<T>, lo: nat, hi: nat, i: nat, c: nat)
    requires Valid(m) && lo <= hi <= m.cols && i < |m.rows| && c < hi - lo
    ensures ColumnSlice(m, lo, hi).rows[i][c] == m.rows[i][lo + c]
  {
  }

  /** Two valid matrices with the same shape and the same entries are the same value. */
  lemma Extensionality<T>(a: Matrix<T>, b: Matrix<T>)
    requires Valid(a) && Valid(b) && a.cols == b.cols && |a.rows| == |b.rows|
    requires forall i, c :: 0 <= i < |a.rows| && 0 <= c < a.cols ==> a.rows[i][c] == b.rows[i][c]
    ensures a == b
  {
    forall i | 0 <= i < |a.rows|
      ensures a.rows[i] == b.rows[i]
    {
      assert forall c :: 0 <= c < a.cols ==> a.rows[i][c] == b.rows[i][c];
    }
  }

  /** Selecting the rows 0..n-1 of an n-row matrix gives the matrix back. */
  lemma SelectAll<T>(m: Matrix<T>)
    ensures SelectRows(m, Iota(|m.rows|)) == m
  {
    assert SelectRows(m, Iota(|m.rows|)).rows == m.rows;
  }
}
