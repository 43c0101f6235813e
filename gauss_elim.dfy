/** gauss_elim.cpp: `swap` and `gauss_elim` as methods over `array2<real>`.

    Each phase of the elimination loop is its own method, proved to change the
    augmented matrix exactly as the corresponding function of `GaussElimSpec` does;
    `GaussElim` chains them and concludes `A * x == b`. */
module GaussElimination {
  import opened Matrices
  import opened GaussElimSpec

  /** `swap(A, i, j)` (gauss_elim.cpp:6-15): exchanges rows `i` and `j` entry by entry
      through a temporary. */
  method Swap(A: array2<real>, i: nat, j: nat)
    requires i < A.Length0 && j < A.Length0
    modifies A
    ensures Snapshot(A) == SwapRows(old(Snapshot(A)), i, j)
  {
    var n := A.Length1;
    for l := 0 to n
      invariant forall r, c :: 0 <= r < A.Length0 && 0 <= c < n ==>
        A[r, c] == if r == i && c < l then old(A[j, c])
                   else if r == j && c < l then old(A[i, c])
                   else old(A[r, c])
    {
      var temp := A[i, l];
      A[i, l] := A[j, l];
      A[j, l] := temp;
    }
    SameEntries(Snapshot(A), SwapRows(old(Snapshot(A)), i, j), A.Length0, n);
  }

  /** The pivot search of gauss_elim.cpp:25-36: the first row of `k..n-1` holding the
      largest signed value of column `k`. */
  method FindPivot(Ab: array2<real>, k: nat) returns (irow: nat)
    requires Ab.Length1 == Ab.Length0 + 1 && k < Ab.Length0
    ensures k <= irow < Ab.Length0
    ensures forall i :: k <= i < Ab.Length0 ==> Ab[i, k] <= Ab[irow, k]
    ensures forall i :: k <= i < irow ==> Ab[i, k] < Ab[irow, k]
    ensures irow == PivotRow(Snapshot(Ab), Ab.Length0, k)
  {
    var n := Ab.Length0;
    var big := Ab[k, k];
    irow := k;
    for i := k + 1 to n
      invariant k <= irow < i
      invariant big == Ab[irow, k]
      invariant forall t :: k <= t < i ==> Ab[t, k] <= big
      invariant forall t :: k <= t < irow ==> Ab[t, k] < big
      invariant PivotScan(Snapshot(Ab), n, k, i, irow) == PivotRow(Snapshot(Ab), n, k)
    {
      if Ab[i, k] > big {
        big := Ab[i, k];
        irow := i;
      }
    }
  }

  /** gauss_elim.cpp:45-50: `pivinv = 1.0 / pivot`, `Ab(k,k) = 1.0`, and every entry
      right of the pivot multiplied by `pivinv`. */
  method NormalizeRow(Ab: array2<real>, k: nat)
    requires Ab.Length1 == Ab.Length0 + 1 && k < Ab.Length0 && Ab[k, k] != 0.0
    modifies Ab
    ensures Snapshot(Ab) == Normalize(old(Snapshot(Ab)), Ab.Length0, k)
  {
    var n := Ab.Length0;
    var pivot := Ab[k, k];
    var pivinv := 1.0 / pivot;
    Ab[k, k] := 1.0;
    for l := k + 1 to n + 1
      invariant forall r, c :: 0 <= r < n && 0 <= c <= n ==>
        Ab[r, c] == if r == k && c == k then 1.0
                    else if r == k && k < c < l then old(Ab[r, c]) * pivinv
                    else old(Ab[r, c])
    {
      Ab[k, l] := Ab[k, l] * pivinv;
    }
    SameEntries(Snapshot(Ab), Normalize(old(Snapshot(Ab)), n, k), n, n + 1);
  }

  /** gauss_elim.cpp:53-60: for every row `i` below `k`, `factor = Ab(i,k)` and
      `Ab(i,j) -= factor * Ab(k,j)` for `j = k..n`. */
  method ReduceBelow(Ab: array2<real>, k: nat)
    requires Ab.Length1 == Ab.Length0 + 1 && k < Ab.Length0
    modifies Ab
    ensures Snapshot(Ab) == Reduce(old(Snapshot(Ab)), Ab.Length0, k)
  {
    var n := Ab.Length0;
    ghost var m := Snapshot(Ab);
    ghost var r := Reduce(m, n, k);
    ReduceEntries(m, n, k);
    for i := k + 1 to n
      invariant forall t, c :: 0 <= t < n && 0 <= c <= n ==>
        Ab[t, c] == if k < t < i then r[t][c] else m[t][c]
    {
      var factor := Ab[i, k];
      for j := k to n + 1
        invariant forall t, c :: 0 <= t < n && 0 <= c <= n ==>
          Ab[t, c] == if k < t < i || (t == i && k <= c < j) then r[t][c] else m[t][c]
      {
        Ab[i, j] := Ab[i, j] - factor * Ab[k, j];
      }
    }
    SameEntries(Snapshot(Ab), r, n, n + 1);
  }

  /** Back-substitution, gauss_elim.cpp:63-71: for `i = n-1` down to 0,
      `x(i) = (Ab(i,n) - sum over j > i of Ab(i,j) * x(j)) / Ab(i,i)`. Every equation
      then holds from its diagonal rightwards. */
  method BackSubstitute(Ab: array2<real>, x: array<real>)
    requires Ab.Length1 == Ab.Length0 + 1 && x.Length == Ab.Length0
    requires forall i :: 0 <= i < Ab.Length0 ==> Ab[i, i] != 0.0
    modifies x
    ensures forall i :: 0 <= i < x.Length ==> Dot(Snapshot(Ab)[i], x[..], i, x.Length) == Ab[i, x.Length]
  {
    var n := Ab.Length0;
    ghost var m := Snapshot(Ab);
    var i := n - 1;
    while i >= 0
      invariant -1 <= i < n
      invariant forall t :: i < t < n ==> Dot(m[t], x[..], t, n) == m[t][n]
    {
      ghost var done := x[..];
      x[i] := Ab[i, n];
      for j := i + 1 to n
        invariant x[i] == m[i][n] - Dot(m[i], done, i + 1, j)
        invariant forall t :: 0 <= t < n && t != i ==> x[t] == done[t]
      {
        x[i] := x[i] - Ab[i, j] * x[j];
      }
      x[i] := x[i] / Ab[i, i];
      SolveRow(m[i], n, i, done, x[..]);
      KeepSolvedTail(m, n, i, done, x[..]);
      i := i - 1;
    }
  }

  /** Row `i` of back-substitution: with `x(i)` set to the remainder of the right-hand
      side divided by the diagonal entry, the equation holds from the diagonal on. */
  lemma SolveRow(row: seq<real>, n: nat, i: nat, before: seq<real>, after: seq<real>)
    requires |row| == n + 1 && i < n && |before| == |after| == n && row[i] != 0.0
    requires forall t :: 0 <= t < n && t != i ==> after[t] == before[t]
    requires after[i] == (row[n] - Dot(row, before, i + 1, n)) / row[i]
    ensures Dot(row, after, i, n) == row[n]
  {
    DotAgree(row, row, before, after, i + 1, n);
    DotSplit(row, after, i, i + 1, n);
    assert Dot(row, after, i, i + 1) == row[i] * after[i];
  }

  /** Writing `x(i)` leaves the equations of the rows below `i` as they were. */
  lemma KeepSolvedTail(m: Matrix, n: nat, i: nat, before: seq<real>, after: seq<real>)
    requires IsAugmented(m, n) && i < n && |before| == |after| == n
    requires forall t :: i < t < n ==> before[t] == after[t]
    ensures forall t :: i < t < n ==> Dot(m[t], before, t, n) == Dot(m[t], after, t, n)
  {
    forall t | i < t < n
      ensures Dot(m[t], before, t, n) == Dot(m[t], after, t, n)
    {
      DotAgree(m[t], m[t], before, after, t, n);
    }
  }

  /** `MatrixXd Ab(n, n + 1); Ab << A, b;` (gauss_elim.cpp:19-21): a fresh augmented
      matrix holding `A` in its first `n` columns and `b` in column `n`. */
  method Augment(A: array2<real>, b: array<real>) returns (Ab: array2<real>)
    requires A.Length0 == A.Length1 == b.Length
    ensures fresh(Ab) && Ab.Length0 == A.Length0 && Ab.Length1 == A.Length0 + 1
    ensures Snapshot(Ab) == Augmented(Snapshot(A), b[..], A.Length0)
  {
    var n := A.Length0;
    Ab := new real[n, n + 1]((r: nat, c: nat) reads A, b =>
      if r < n && c < n then A[r, c] else if r < n then b[r] else 0.0);
    SameEntries(Snapshot(Ab), Augmented(Snapshot(A), b[..], n), n, n + 1);
  }

  /** One pass of the loop at gauss_elim.cpp:23-61 for column `k`: pivot search, row
      interchange when the pivot row is not `k`, normalisation and reduction. The
      precondition says the pivot landing on the diagonal is nonzero; the source divides
      by it without checking. */
  method EliminationStep(Ab: array2<real>, k: nat)
    requires Ab.Length1 == Ab.Length0 + 1 && k < Ab.Length0
    requires Step(Snapshot(Ab), Ab.Length0, k).Some?
    modifies Ab
    ensures Snapshot(Ab) == Step(old(Snapshot(Ab)), Ab.Length0, k).value
  {
    var n := Ab.Length0;
    var irow := FindPivot(Ab, k);
    if irow != k {
      Swap(Ab, irow, k);
    }
    NormalizeRow(Ab, k);
    ReduceBelow(Ab, k);
  }

  /** `gauss_elim(A, b, x)` (gauss_elim.cpp:17-72). Provided that no step meets a zero
      pivot after its (signed) pivot search, `x` solves `A * x == b`. The caller's `A` is
      never written; `b` is read only while the augmented matrix is built. */
  method GaussElim(A: array2<real>, b: array<real>, x: array<real>)
    requires A.Length0 == A.Length1 == b.Length == x.Length
    requires Eliminate(Augmented(Snapshot(A), b[..], A.Length0), A.Length0, 0).Some?
    modifies x
    ensures forall i :: 0 <= i < A.Length0 ==> Dot(Snapshot(A)[i], x[..], 0, A.Length0) == old(b[i])
  {
    var n := A.Length0;
    ghost var a := Snapshot(A);
    ghost var rhs := b[..];
    var Ab := Augment(A, b);
    ghost var m0 := Snapshot(Ab);
    ghost var result := Eliminate(m0, n, 0).value;

    for k := 0 to n
      invariant Snapshot(A) == a
      invariant Eliminate(Snapshot(Ab), n, k) == Some(result)
    {
      EliminateUnfold(Snapshot(Ab), n, k);
      EliminationStep(Ab, k);
    }

    EliminateEchelon(m0, n, 0, result);
    forall i | 0 <= i < n
      ensures Ab[i, i] == 1.0
    {
      assert UnitEntry(result, n, i, i);
    }
    BackSubstitute(Ab, x);
    EliminationSolves(a, rhs, n, x[..]);
  }
}
