/** ludcmp.cpp: `ludcmp` as a method over `array2<real>`, proved to perform `Sweep` of
    `LudcmpSpec` on the caller's `L` and `U`. */
module LuDecomposition {
  import opened Matrices
  import opened LudcmpSpec

  /** ludcmp.cpp:13-18: `U(i,j) = A(i,j)`, then `U(i,j) -= L(i,k) * U(k,j)` for
      `k = 0..i-1`, then `U(i,j) /= L(i,k)` with `k` left at `i` by the loop. */
  method ComputeU(A: array2<real>, L: array2<real>, U: array2<real>, i: nat, j: nat)
    requires A.Length0 == A.Length1 == L.Length0 == L.Length1 == U.Length0 == U.Length1
    requires U != A && U != L
    requires i <= j < A.Length0 && L[i, i] != 0.0
    modifies U
    ensures U[i, j] == UEntry(Snapshot(A), Snapshot(L), old(Snapshot(U)), A.Length0, i, j)
    ensures forall r, c :: 0 <= r < A.Length0 && 0 <= c < A.Length0 && (r != i || c != j) ==>
      U[r, c] == old(U[r, c])
  {
    var n := A.Length0;
    ghost var a := Snapshot(A);
    ghost var l := Snapshot(L);
    ghost var u := Snapshot(U);
    U[i, j] := A[i, j];
    var k := 0;
    while k < i
      invariant k <= i
      invariant U[i, j] == a[i][j] - Inner(l, u, n, i, j, k)
      invariant forall r, c :: 0 <= r < n && 0 <= c < n && (r != i || c != j) ==> U[r, c] == old(U[r, c])
    {
      assert U[k, j] == u[k][j];
      InnerStep(l, u, n, i, j, k);
      U[i, j] := U[i, j] - L[i, k] * U[k, j];
      k := k + 1;
    }
    U[i, j] := U[i, j] / L[i, k];
  }

  /** ludcmp.cpp:22-27: `L(i,j) = A(i,j)`, then `L(i,j) -= L(i,k) * U(k,j)` for
      `k = 0..j-1`, then `L(i,j) /= U(k,j)` with `k` left at `j` by the loop. */
  method ComputeL(A: array2<real>, L: array2<real>, U: array2<real>, i: nat, j: nat)
    requires A.Length0 == A.Length1 == L.Length0 == L.Length1 == U.Length0 == U.Length1
    requires L != A && L != U
    requires j < i < A.Length0 && U[j, j] != 0.0
    modifies L
    ensures L[i, j] == LEntry(Snapshot(A), old(Snapshot(L)), Snapshot(U), A.Length0, i, j)
    ensures forall r, c :: 0 <= r < A.Length0 && 0 <= c < A.Length0 && (r != i || c != j) ==>
      L[r, c] == old(L[r, c])
  {
    var n := A.Length0;
    ghost var a := Snapshot(A);
    ghost var l := Snapshot(L);
    ghost var u := Snapshot(U);
    L[i, j] := A[i, j];
    var k := 0;
    while k < j
      invariant k <= j
      invariant L[i, j] == a[i][j] - Inner(l, u, n, i, j, k)
      invariant forall r, c :: 0 <= r < n && 0 <= c < n && (r != i || c != j) ==> L[r, c] == old(L[r, c])
    {
      assert L[i, k] == l[i][k];
      InnerStep(l, u, n, i, j, k);
      L[i, j] := L[i, j] - L[i, k] * U[k, j];
      k := k + 1;
    }
    L[i, j] := L[i, j] / U[k, j];
  }

  /** ludcmp.cpp:12-19: column `j` of `U` from row 0 down to the diagonal. Only those
      entries of `U` are written. */
  method SweepUpper(A: array2<real>, L: array2<real>, U: array2<real>, j: nat)
    requires A.Length0 == A.Length1 == L.Length0 == L.Length1 == U.Length0 == U.Length1
    requires A != L && A != U && L != U && j < A.Length0
    requires Sweep(Snapshot(A), Snapshot(L), Snapshot(U), A.Length0, j, 0).Some?
    modifies U
    ensures Sweep(Snapshot(A), Snapshot(L), Snapshot(U), A.Length0, j, j + 1)
      == Sweep(Snapshot(A), Snapshot(L), old(Snapshot(U)), A.Length0, j, 0)
    ensures forall r, c :: 0 <= r < A.Length0 && 0 <= c < A.Length0 && c != j ==>
      U[r, c] == old(U[r, c])
  {
    var n := A.Length0;
    ghost var a := Snapshot(A);
    ghost var l := Snapshot(L);
    ghost var u0 := Snapshot(U);
    ghost var cur := u0;
    for i := 0 to j + 1
      invariant Snapshot(U) == cur && IsMatrix(cur, n, n)
      invariant Sweep(a, l, cur, n, j, i) == Sweep(a, l, u0, n, j, 0)
      invariant forall r, c :: 0 <= r < n && 0 <= c < n && c != j ==> cur[r][c] == u0[r][c]
    {
      SweepUnfoldU(a, l, cur, n, j, i);
      cur := cur[i := cur[i][j := UEntry(a, l, cur, n, i, j)]];
      ComputeU(A, L, U, i, j);
      SameEntries(Snapshot(U), cur, n, n);
    }
  }

  /** ludcmp.cpp:21-28: column `j` of `L` below the diagonal. Only those entries of `L`
      are written. */
  method SweepLower(A: array2<real>, L: array2<real>, U: array2<real>, j: nat)
    requires A.Length0 == A.Length1 == L.Length0 == L.Length1 == U.Length0 == U.Length1
    requires A != L && A != U && L != U && j < A.Length0
    requires Sweep(Snapshot(A), Snapshot(L), Snapshot(U), A.Length0, j, j + 1).Some?
    modifies L
    ensures Sweep(Snapshot(A), Snapshot(L), Snapshot(U), A.Length0, j + 1, 0)
      == Sweep(Snapshot(A), old(Snapshot(L)), Snapshot(U), A.Length0, j, j + 1)
    ensures forall r, c :: 0 <= r < A.Length0 && 0 <= c < A.Length0 && c != j ==>
      L[r, c] == old(L[r, c])
  {
    var n := A.Length0;
    ghost var a := Snapshot(A);
    ghost var u := Snapshot(U);
    ghost var l0 := Snapshot(L);
    ghost var cur := l0;
    for i := j + 1 to n
      invariant Snapshot(L) == cur && IsMatrix(cur, n, n)
      invariant Sweep(a, cur, u, n, j, i) == Sweep(a, l0, u, n, j, j + 1)
      invariant forall r, c :: 0 <= r < n && 0 <= c < n && c != j ==> cur[r][c] == l0[r][c]
    {
      SweepUnfoldL(a, cur, u, n, j, i);
      cur := cur[i := cur[i][j := LEntry(a, cur, u, n, i, j)]];
      ComputeL(A, L, U, i, j);
      SameEntries(Snapshot(L), cur, n, n);
    }
  }

  /** One pass of the loop at ludcmp.cpp:10-29: column `j` of `U` down to the diagonal
      (12-19), then column `j` of `L` below it (21-28). Only column `j` of `L` and `U`
      is written. */
  method SweepColumn(A: array2<real>, L: array2<real>, U: array2<real>, j: nat)
    requires A.Length0 == A.Length1 == L.Length0 == L.Length1 == U.Length0 == U.Length1
    requires A != L && A != U && L != U && j < A.Length0
    requires Sweep(Snapshot(A), Snapshot(L), Snapshot(U), A.Length0, j, 0).Some?
    modifies L, U
    ensures Sweep(Snapshot(A), Snapshot(L), Snapshot(U), A.Length0, j + 1, 0)
      == Sweep(Snapshot(A), old(Snapshot(L)), old(Snapshot(U)), A.Length0, j, 0)
    ensures forall r, c :: 0 <= r < A.Length0 && 0 <= c < A.Length0 && c != j ==>
      L[r, c] == old(L[r, c]) && U[r, c] == old(U[r, c])
  {
    SweepUpper(A, L, U, j);
    SweepLower(A, L, U, j);
  }

  /** `ludcmp(A, L, U)` (ludcmp.cpp:6-30). Provided no divisor met on the way is zero,
      it leaves in `L` and `U` what `Sweep` computes: every `U(i,j)`, `i <= j`, and every
      `L(i,j)`, `i > j`, satisfies the Doolittle recurrence, and no other entry changes.
      When `L` comes in unit lower-triangular and `U` upper-triangular, as in the
      source's `main`, they leave so with `L * U == A`. */
  method Ludcmp(A: array2<real>, L: array2<real>, U: array2<real>)
    requires A.Length0 == A.Length1 == L.Length0 == L.Length1 == U.Length0 == U.Length1
    requires A != L && A != U && L != U
    requires Sweep(Snapshot(A), Snapshot(L), Snapshot(U), A.Length0, 0, 0).Some?
    modifies L, U
    ensures Sweep(Snapshot(A), old(Snapshot(L)), old(Snapshot(U)), A.Length0, 0, 0)
      == Some((Snapshot(L), Snapshot(U)))
    ensures Doolittle(Snapshot(A), Snapshot(L), Snapshot(U), A.Length0)
    ensures forall r, c :: 0 <= r < A.Length0 && 0 <= c < A.Length0 && r <= c ==> L[r, c] == old(L[r, c])
    ensures forall r, c :: 0 <= r < A.Length0 && 0 <= c < A.Length0 && c < r ==> U[r, c] == old(U[r, c])
    ensures UnitLower(old(Snapshot(L)), A.Length0) && Upper(old(Snapshot(U)), A.Length0) ==>
      UnitLower(Snapshot(L), A.Length0) && Upper(Snapshot(U), A.Length0) &&
      Product(Snapshot(L), Snapshot(U), A.Length0) == Snapshot(A)
  {
    var n := A.Length0;
    ghost var a := Snapshot(A);
    ghost var l0 := Snapshot(L);
    ghost var u0 := Snapshot(U);
    ghost var result := Sweep(a, l0, u0, n, 0, 0);

    for j := 0 to n
      invariant Snapshot(A) == a
      invariant Sweep(a, Snapshot(L), Snapshot(U), n, j, 0) == result
    {
      SweepColumn(A, L, U, j);
    }

    assert result == Some((Snapshot(L), Snapshot(U)));
    assert Doolittle(a, Snapshot(L), Snapshot(U), n) by {
      SweepEstablishes(a, l0, u0, n, 0, 0);
    }
    assert LKept(l0, Snapshot(L), n, 0, 0) && UKept(u0, Snapshot(U), n, 0, 0) by {
      SweepFrame(a, l0, u0, n, 0, 0);
    }
    if UnitLower(l0, n) && Upper(u0, n) {
      SweepFactors(a, l0, u0, n);
    }
  }
}
