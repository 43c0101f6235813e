/** Dense real matrices and vectors: the part of Eigen's `MatrixXd` / `VectorXd`
    that the two solvers use, over exact `real` arithmetic.

    A matrix in a specification is a sequence of rows; an `array2<real>` is turned
    into one by `Snapshot`. */
module Matrices {

  datatype Option<T> = None | Some(value: T)

  type Matrix = seq<seq<real>>

  /** `m` has `rows` rows of `cols` entries each. */
  ghost predicate IsMatrix(m: Matrix, rows: nat, cols: nat) {
    |m| == rows && forall i :: 0 <= i < rows ==> |m[i]| == cols
  }

  /** The current contents of a 2-D array, row by row. */
  ghost function Snapshot(a: array2<real>): (m: Matrix)
    reads a
    ensures IsMatrix(m, a.Length0, a.Length1)
    ensures forall i, j :: 0 <= i < a.Length0 && 0 <= j < a.Length1 ==> m[i][j] == a[i, j]
  {
    RowsOf(a, a.Length0)
  }

  /** The first `k` rows of `a`. */
  ghost function RowsOf(a: array2<real>, k: nat): (m: Matrix)
    reads a
    requires k <= a.Length0
    ensures IsMatrix(m, k, a.Length1)
    ensures forall i, j :: 0 <= i < k && 0 <= j < a.Length1 ==> m[i][j] == a[i, j]
    decreases k
  {
    if k == 0 then [] else RowsOf(a, k - 1) + [RowOf(a, k - 1, a.Length1)]
  }

  /** The first `k` entries of row `i` of `a`. */
  ghost function RowOf(a: array2<real>, i: nat, k: nat): (r: seq<real>)
    reads a
    requires i < a.Length0 && k <= a.Length1
    ensures |r| == k && forall j :: 0 <= j < k ==> r[j] == a[i, j]
    decreases k
  {
    if k == 0 then [] else RowOf(a, i, k - 1) + [a[i, k - 1]]
  }

  /** Two matrices of the same shape with the same entries are equal. */
  lemma SameEntries(m1: Matrix, m2: Matrix, rows: nat, cols: nat)
    requires IsMatrix(m1, rows, cols) && IsMatrix(m2, rows, cols)
    requires forall i, j :: 0 <= i < rows && 0 <= j < cols ==> m1[i][j] == m2[i][j]
    ensures m1 == m2
  {
    forall i | 0 <= i < rows
      ensures m1[i] == m2[i]
    {
      assert forall j :: 0 <= j < cols ==> m1[i][j] == m2[i][j];
    }
  }

  /** Column `j` of `m`. */
  function Column(m: Matrix, j: nat): (c: seq<real>)
    requires forall i :: 0 <= i < |m| ==> j < |m[i]|
    ensures |c| == |m| && forall i :: 0 <= i < |m| ==> c[i] == m[i][j]
  {
    seq(|m|, i requires 0 <= i < |m| => m[i][j])
  }

  /** The partial inner product: the sum of `row[t] * x[t]` for `lo <= t < hi`,
      accumulated from `lo` upwards as the source's loops do. */
  function Dot(row: seq<real>, x: seq<real>, lo: nat, hi: nat): real
    requires lo <= hi <= |row| && hi <= |x|
    decreases hi - lo
  {
    if lo == hi then 0.0 else Dot(row, x, lo, hi - 1) + row[hi - 1] * x[hi - 1]
  }

  /** A sum over `[lo, hi)` is the sum over `[lo, mid)` plus the sum over `[mid, hi)`. */
  lemma {:induction false} DotSplit(row: seq<real>, x: seq<real>, lo: nat, mid: nat, hi: nat)
    requires lo <= mid <= hi <= |row| && hi <= |x|
    ensures Dot(row, x, lo, hi) == Dot(row, x, lo, mid) + Dot(row, x, mid, hi)
    decreases hi - mid
  {
    if mid < hi {
      DotSplit(row, x, lo, mid, hi - 1);
    }
  }

  /** A sum reads only the entries of its range. */
  lemma {:induction false} DotAgree(r: seq<real>, s: seq<real>, x: seq<real>, y: seq<real>, lo: nat, hi: nat)
    requires lo <= hi <= |r| && hi <= |s| && hi <= |x| && hi <= |y|
    requires forall t :: lo <= t < hi ==> r[t] == s[t] && x[t] == y[t]
    ensures Dot(r, x, lo, hi) == Dot(s, y, lo, hi)
    decreases hi - lo
  {
    if lo < hi {
      DotAgree(r, s, x, y, lo, hi - 1);
    }
  }

  /** A sum whose every term has a zero factor is zero. */
  lemma {:induction false} DotZero(row: seq<real>, x: seq<real>, lo: nat, hi: nat)
    requires lo <= hi <= |row| && hi <= |x|
    requires forall t :: lo <= t < hi ==> row[t] == 0.0 || x[t] == 0.0
    ensures Dot(row, x, lo, hi) == 0.0
    decreases hi - lo
  {
    if lo < hi {
      DotZero(row, x, lo, hi - 1);
    }
  }

  /** The sum is linear in the row: if `t = alpha * r + beta * s` entry by entry on the
      range, the sums are related the same way. */
  lemma {:induction false} DotLinear(r: seq<real>, s: seq<real>, t: seq<real>, alpha: real, beta: real,
                                     x: seq<real>, lo: nat, hi: nat)
    requires lo <= hi <= |r| && hi <= |s| && hi <= |t| && hi <= |x|
    requires forall k :: lo <= k < hi ==> t[k] == alpha * r[k] + beta * s[k]
    ensures Dot(t, x, lo, hi) == alpha * Dot(r, x, lo, hi) + beta * Dot(s, x, lo, hi)
    decreases hi - lo
  {
    if lo < hi {
      var k := hi - 1;
      DotLinear(r, s, t, alpha, beta, x, lo, k);
      calc {
        t[k] * x[k];
        (alpha * r[k] + beta * s[k]) * x[k];
        alpha * (r[k] * x[k]) + beta * (s[k] * x[k]);
      }
    }
  }

  /** A sum over three entries written out. */
  lemma Dot3(row: seq<real>, x: seq<real>)
    requires |row| >= 3 && |x| == 3
    ensures Dot(row, x, 0, 3) == row[0] * x[0] + row[1] * x[1] + row[2] * x[2]
  {
  }
}
