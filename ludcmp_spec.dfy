/** The Doolittle sweep of `ludcmp` (ludcmp.cpp) as functions on matrices.

    `ludcmp` visits column `j = 0..n-1` and, within it, row `i = 0..n-1`: an entry on or
    above the diagonal (`i <= j`) is written into `U`, one below it into `L`. `Sweep`
    follows that order one entry at a time. */
module LudcmpSpec {
  import opened Matrices

  /** `a`, `l` and `u` are all `n` by `n`. */
  ghost predicate Square(a: Matrix, l: Matrix, u: Matrix, n: nat) {
    IsMatrix(a, n, n) && IsMatrix(l, n, n) && IsMatrix(u, n, n)
  }

  /** The sum of `l(i,k) * u(k,j)` over `k < m`: what the inner loops subtract. */
  function Inner(l: Matrix, u: Matrix, n: nat, i: nat, j: nat, m: nat): real
    requires IsMatrix(l, n, n) && IsMatrix(u, n, n) && i < n && j < n && m <= n
  {
    Dot(l[i], Column(u, j), 0, m)
  }

  /** One more term of the inner loops: `Inner` up to `m + 1` adds `l(i,m) * u(m,j)`. */
  lemma InnerStep(l: Matrix, u: Matrix, n: nat, i: nat, j: nat, m: nat)
    requires IsMatrix(l, n, n) && IsMatrix(u, n, n) && i < n && j < n && m < n
    ensures Inner(l, u, n, i, j, m + 1) == Inner(l, u, n, i, j, m) + l[i][m] * u[m][j]
  {
    assert Column(u, j)[m] == u[m][j];
  }

  /** The value ludcmp.cpp:13-18 gives `U(i,j)` for `i <= j`: the remainder of `A(i,j)`
      after the first `i` products, divided by `L(i,i)`. */
  function UEntry(a: Matrix, l: Matrix, u: Matrix, n: nat, i: nat, j: nat): real
    requires Square(a, l, u, n) && i < n && j < n && l[i][i] != 0.0
  {
    (a[i][j] - Inner(l, u, n, i, j, i)) / l[i][i]
  }

  /** The value ludcmp.cpp:22-27 gives `L(i,j)` for `i > j`: the remainder of `A(i,j)`
      after the first `j` products, divided by `U(j,j)`. */
  function LEntry(a: Matrix, l: Matrix, u: Matrix, n: nat, i: nat, j: nat): real
    requires Square(a, l, u, n) && i < n && j < n && u[j][j] != 0.0
  {
    (a[i][j] - Inner(l, u, n, i, j, j)) / u[j][j]
  }

  /** The sweep from column `j`, row `i` on. `None` exactly when the source would divide
      by zero: by `L(i,i)` for an entry of `U`, by `U(j,j)` for an entry of `L`. */
  function Sweep(a: Matrix, l: Matrix, u: Matrix, n: nat, j: nat, i: nat): (r: Option<(Matrix, Matrix)>)
    requires Square(a, l, u, n) && j <= n && i <= n
    ensures r.Some? ==> Square(a, r.value.0, r.value.1, n)
    decreases n - j, n - i
  {
    if j == n then Some((l, u))
    else if i == n then Sweep(a, l, u, n, j + 1, 0)
    else if i <= j then
      if l[i][i] == 0.0 then None
      else Sweep(a, l, u[i := u[i][j := UEntry(a, l, u, n, i, j)]], n, j, i + 1)
    else
      if u[j][j] == 0.0 then None
      else Sweep(a, l[i := l[i][j := LEntry(a, l, u, n, i, j)]], u, n, j, i + 1)
  }

  /** Entry `(r, c)` comes before position (column `j`, row `i`) in the sweep. */
  ghost predicate Before(r: nat, c: nat, j: nat, i: nat) {
    c < j || (c == j && r < i)
  }

  /** The Doolittle recurrence at entry `(r, c)`: `U(r,c)` for `r <= c`, `L(r,c)` for
      `r > c`, each with a nonzero divisor. */
  ghost predicate EntryHolds(a: Matrix, l: Matrix, u: Matrix, n: nat, r: nat, c: nat)
    requires Square(a, l, u, n) && r < n && c < n
  {
    if r <= c then l[r][r] != 0.0 && u[r][c] == UEntry(a, l, u, n, r, c)
    else u[c][c] != 0.0 && l[r][c] == LEntry(a, l, u, n, r, c)
  }

  /** The recurrence holds at every entry before position (`j`, `i`). */
  ghost predicate DoneUpTo(a: Matrix, l: Matrix, u: Matrix, n: nat, j: nat, i: nat)
    requires Square(a, l, u, n)
  {
    forall r, c :: 0 <= r < n && 0 <= c < n && Before(r, c, j, i) ==> EntryHolds(a, l, u, n, r, c)
  }

  /** The recurrence holds at every entry. */
  ghost predicate Doolittle(a: Matrix, l: Matrix, u: Matrix, n: nat)
    requires Square(a, l, u, n)
  {
    forall r, c :: 0 <= r < n && 0 <= c < n ==> EntryHolds(a, l, u, n, r, c)
  }

  /** `l` and `l'` agree on the diagonal and above, and below it before (`j`, `i`). */
  ghost predicate LKept(l: Matrix, l': Matrix, n: nat, j: nat, i: nat)
    requires IsMatrix(l, n, n) && IsMatrix(l', n, n)
  {
    forall r, c :: 0 <= r < n && 0 <= c < n && (r <= c || Before(r, c, j, i)) ==> l'[r][c] == l[r][c]
  }

  /** `u` and `u'` agree below the diagonal, and on or above it before (`j`, `i`). */
  ghost predicate UKept(u: Matrix, u': Matrix, n: nat, j: nat, i: nat)
    requires IsMatrix(u, n, n) && IsMatrix(u', n, n)
  {
    forall r, c :: 0 <= r < n && 0 <= c < n && (c < r || Before(r, c, j, i)) ==> u'[r][c] == u[r][c]
  }

  /** `l` has ones on its diagonal and zeros above it. */
  ghost predicate UnitLower(l: Matrix, n: nat)
    requires IsMatrix(l, n, n)
  {
    forall r, c :: 0 <= r < n && 0 <= c < n ==> (r == c ==> l[r][c] == 1.0) && (r < c ==> l[r][c] == 0.0)
  }

  /** `u` has zeros below its diagonal. */
  ghost predicate Upper(u: Matrix, n: nat)
    requires IsMatrix(u, n, n)
  {
    forall r, c :: 0 <= r < n && 0 <= c < n && c < r ==> u[r][c] == 0.0
  }

  /** The matrix product `l * u`. */
  function Product(l: Matrix, u: Matrix, n: nat): (p: Matrix)
    requires IsMatrix(l, n, n) && IsMatrix(u, n, n)
    ensures IsMatrix(p, n, n)
  {
    seq(n, r requires 0 <= r < n => seq(n, c requires 0 <= c < n => Dot(l[r], Column(u, c), 0, n)))
  }

  /** One `U` entry of the sweep, unfolded. */
  lemma SweepUnfoldU(a: Matrix, l: Matrix, u: Matrix, n: nat, j: nat, i: nat)
    requires Square(a, l, u, n) && i <= j < n && Sweep(a, l, u, n, j, i).Some?
    ensures l[i][i] != 0.0
    ensures Sweep(a, l, u, n, j, i) == Sweep(a, l, u[i := u[i][j := UEntry(a, l, u, n, i, j)]], n, j, i + 1)
  {
  }

  /** One `L` entry of the sweep, unfolded. */
  lemma SweepUnfoldL(a: Matrix, l: Matrix, u: Matrix, n: nat, j: nat, i: nat)
    requires Square(a, l, u, n) && j < i < n && Sweep(a, l, u, n, j, i).Some?
    ensures u[j][j] != 0.0
    ensures Sweep(a, l, u, n, j, i) == Sweep(a, l[i := l[i][j := LEntry(a, l, u, n, i, j)]], u, n, j, i + 1)
  {
  }

  /** An inner sum reads only `l(i,k)` and `u(k,j)` for `k < m`. */
  lemma InnerFrame(l: Matrix, u: Matrix, l': Matrix, u': Matrix, n: nat, i: nat, j: nat, m: nat)
    requires IsMatrix(l, n, n) && IsMatrix(u, n, n) && IsMatrix(l', n, n) && IsMatrix(u', n, n)
    requires i < n && j < n && m <= n
    requires forall k :: 0 <= k < m ==> l'[i][k] == l[i][k] && u'[k][j] == u[k][j]
    ensures Inner(l', u', n, i, j, m) == Inner(l, u, n, i, j, m)
  {
    DotAgree(l'[i], l[i], Column(u', j), Column(u, j), 0, m);
  }

  /** Writing `U(i,j)`, `i <= j`, keeps the recurrence at every earlier entry and
      establishes it at `(i, j)`. */
  lemma WriteUKeepsDone(a: Matrix, l: Matrix, u: Matrix, n: nat, j: nat, i: nat)
    requires Square(a, l, u, n) && i <= j < n && l[i][i] != 0.0
    requires DoneUpTo(a, l, u, n, j, i)
    ensures DoneUpTo(a, l, u[i := u[i][j := UEntry(a, l, u, n, i, j)]], n, j, i + 1)
  {
    var u' := u[i := u[i][j := UEntry(a, l, u, n, i, j)]];
    forall r, c | 0 <= r < n && 0 <= c < n && Before(r, c, j, i + 1)
      ensures EntryHolds(a, l, u', n, r, c)
    {
      var m := if r <= c then r else c;
      InnerFrame(l, u, l, u', n, r, c, m);
      if r == i && c == j {
        assert UEntry(a, l, u', n, r, c) == UEntry(a, l, u, n, r, c);
      } else {
        assert EntryHolds(a, l, u, n, r, c);
        if r <= c {
          assert UEntry(a, l, u', n, r, c) == UEntry(a, l, u, n, r, c);
        } else {
          assert u'[c][c] == u[c][c];
          assert LEntry(a, l, u', n, r, c) == LEntry(a, l, u, n, r, c);
        }
      }
    }
  }

  /** Writing `L(i,j)`, `i > j`, keeps the recurrence at every earlier entry and
      establishes it at `(i, j)`. */
  lemma WriteLKeepsDone(a: Matrix, l: Matrix, u: Matrix, n: nat, j: nat, i: nat)
    requires Square(a, l, u, n) && j < i < n && u[j][j] != 0.0
    requires DoneUpTo(a, l, u, n, j, i)
    ensures DoneUpTo(a, l[i := l[i][j := LEntry(a, l, u, n, i, j)]], u, n, j, i + 1)
  {
    var l' := l[i := l[i][j := LEntry(a, l, u, n, i, j)]];
    forall r, c | 0 <= r < n && 0 <= c < n && Before(r, c, j, i + 1)
      ensures EntryHolds(a, l', u, n, r, c)
    {
      var m := if r <= c then r else c;
      InnerFrame(l, u, l', u, n, r, c, m);
      if r == i && c == j {
        assert LEntry(a, l', u, n, r, c) == LEntry(a, l, u, n, r, c);
      } else {
        assert EntryHolds(a, l, u, n, r, c);
        if r <= c {
          assert l'[r][r] == l[r][r];
          assert UEntry(a, l', u, n, r, c) == UEntry(a, l, u, n, r, c);
        } else {
          assert LEntry(a, l', u, n, r, c) == LEntry(a, l, u, n, r, c);
        }
      }
    }
  }

  /** Whatever the sweep writes from (`j`, `i`) on satisfies the recurrence, and what
      was written before keeps satisfying it: each entry is written once and every entry
      it depends on is final when it is written. */
  lemma {:induction false} SweepEstablishes(a: Matrix, l: Matrix, u: Matrix, n: nat, j: nat, i: nat)
    requires Square(a, l, u, n) && j <= n && i <= n
    requires Sweep(a, l, u, n, j, i).Some? && DoneUpTo(a, l, u, n, j, i)
    ensures Doolittle(a, Sweep(a, l, u, n, j, i).value.0, Sweep(a, l, u, n, j, i).value.1, n)
    decreases n - j, n - i
  {
    if j == n {
    } else if i == n {
      SweepEstablishes(a, l, u, n, j + 1, 0);
    } else if i <= j {
      WriteUKeepsDone(a, l, u, n, j, i);
      SweepEstablishes(a, l, u[i := u[i][j := UEntry(a, l, u, n, i, j)]], n, j, i + 1);
    } else {
      WriteLKeepsDone(a, l, u, n, j, i);
      SweepEstablishes(a, l[i := l[i][j := LEntry(a, l, u, n, i, j)]], u, n, j, i + 1);
    }
  }

  /** The sweep from (`j`, `i`) on writes only entries not yet visited: `U` on and above
      the diagonal, `L` strictly below it. */
  lemma {:induction false} SweepFrame(a: Matrix, l: Matrix, u: Matrix, n: nat, j: nat, i: nat)
    requires Square(a, l, u, n) && j <= n && i <= n && Sweep(a, l, u, n, j, i).Some?
    ensures LKept(l, Sweep(a, l, u, n, j, i).value.0, n, j, i)
    ensures UKept(u, Sweep(a, l, u, n, j, i).value.1, n, j, i)
    decreases n - j, n - i
  {
    if j == n {
    } else if i == n {
      SweepFrame(a, l, u, n, j + 1, 0);
    } else if i <= j {
      SweepFrame(a, l, u[i := u[i][j := UEntry(a, l, u, n, i, j)]], n, j, i + 1);
    } else {
      SweepFrame(a, l[i := l[i][j := LEntry(a, l, u, n, i, j)]], u, n, j, i + 1);
    }
  }

  /** Entry `(r, c)` of `l * u` for unit lower-triangular `l` and upper-triangular `u`:
      the first `min(r, c)` products, plus `l(r,m) * u(m,c)` for `m = min(r, c)`. */
  lemma ProductEntry(l: Matrix, u: Matrix, n: nat, r: nat, c: nat)
    requires IsMatrix(l, n, n) && IsMatrix(u, n, n) && UnitLower(l, n) && Upper(u, n)
    requires r < n && c < n
    ensures var m := if r <= c then r else c;
            Product(l, u, n)[r][c] == Inner(l, u, n, r, c, m) + l[r][m] * u[m][c]
  {
    var m := if r <= c then r else c;
    var col := Column(u, c);
    DotSplit(l[r], col, 0, m, n);
    DotSplit(l[r], col, m, m + 1, n);
    DotZero(l[r], col, m + 1, n);
  }

  /** If `l` is unit lower-triangular, `u` upper-triangular and the recurrence holds
      everywhere, then `l * u == a`. */
  lemma DoolittleProduct(a: Matrix, l: Matrix, u: Matrix, n: nat)
    requires Square(a, l, u, n) && UnitLower(l, n) && Upper(u, n) && Doolittle(a, l, u, n)
    ensures Product(l, u, n) == a
  {
    forall r, c | 0 <= r < n && 0 <= c < n
      ensures Product(l, u, n)[r][c] == a[r][c]
    {
      ProductEntry(l, u, n, r, c);
      assert EntryHolds(a, l, u, n, r, c);
    }
    SameEntries(Product(l, u, n), a, n, n);
  }

  /** Conversely, a factorisation `a == l * u` into unit lower-triangular `l` and
      upper-triangular `u` whose diagonal entries `u(c,c)`, `c < n-1`, are nonzero
      satisfies the recurrence everywhere. */
  lemma ProductDoolittle(a: Matrix, l: Matrix, u: Matrix, n: nat)
    requires Square(a, l, u, n) && UnitLower(l, n) && Upper(u, n) && Product(l, u, n) == a
    requires forall c :: 0 <= c < n - 1 ==> u[c][c] != 0.0
    ensures Doolittle(a, l, u, n)
  {
    forall r, c | 0 <= r < n && 0 <= c < n
      ensures EntryHolds(a, l, u, n, r, c)
    {
      ProductEntry(l, u, n, r, c);
    }
  }

  /** From a unit lower-triangular `l` and an upper-triangular `u`, a sweep that meets
      no zero divisor yields a unit lower-triangular `L` and an upper-triangular `U`
      with `L * U == a`: the Doolittle factorisation. */
  lemma SweepFactors(a: Matrix, l: Matrix, u: Matrix, n: nat)
    requires Square(a, l, u, n) && UnitLower(l, n) && Upper(u, n)
    requires Sweep(a, l, u, n, 0, 0).Some?
    ensures var (l', u') := Sweep(a, l, u, n, 0, 0).value;
            UnitLower(l', n) && Upper(u', n) && Product(l', u', n) == a
  {
    var (l', u') := Sweep(a, l, u, n, 0, 0).value;
    SweepFrame(a, l, u, n, 0, 0);
    SweepEstablishes(a, l, u, n, 0, 0);
    DoolittleProduct(a, l', u', n);
  }

  /** The sweep, started from entries that agree with a Doolittle factorisation `(ls, us)`
      on the diagonal of `L`, above it, below the diagonal of `U`, and at every entry
      before (`j`, `i`), produces exactly `(ls, us)`. */
  lemma {:induction false} SweepFindsFactors(a: Matrix, l: Matrix, u: Matrix, ls: Matrix, us: Matrix,
                                             n: nat, j: nat, i: nat)
    requires Square(a, l, u, n) && Square(a, ls, us, n) && j <= n && i <= n
    requires UnitLower(ls, n) && Doolittle(a, ls, us, n)
    requires LKept(ls, l, n, j, i) && UKept(us, u, n, j, i)
    ensures Sweep(a, l, u, n, j, i) == Some((ls, us))
    decreases n - j, n - i
  {
    if j == n {
      SameEntries(l, ls, n, n);
      SameEntries(u, us, n, n);
    } else if i == n {
      SweepFindsFactors(a, l, u, ls, us, n, j + 1, 0);
    } else if i <= j {
      assert EntryHolds(a, ls, us, n, i, j);
      InnerFrame(ls, us, l, u, n, i, j, i);
      SweepFindsFactors(a, l, u[i := u[i][j := UEntry(a, l, u, n, i, j)]], ls, us, n, j, i + 1);
    } else {
      assert EntryHolds(a, ls, us, n, i, j);
      InnerFrame(ls, us, l, u, n, i, j, j);
      SweepFindsFactors(a, l[i := l[i][j := LEntry(a, l, u, n, i, j)]], u, ls, us, n, j, i + 1);
    }
  }

  /** The factorisation is unique: whenever `a == ls * us` with `ls` unit lower-triangular,
      `us` upper-triangular and `us(c,c) != 0` for `c < n-1`, the sweep from any unit
      lower-triangular `l` and upper-triangular `u` meets no zero divisor and yields
      `(ls, us)`. */
  lemma SweepUnique(a: Matrix, l: Matrix, u: Matrix, ls: Matrix, us: Matrix, n: nat)
    requires Square(a, l, u, n) && UnitLower(l, n) && Upper(u, n)
    requires Square(a, ls, us, n) && UnitLower(ls, n) && Upper(us, n) && Product(ls, us, n) == a
    requires forall c :: 0 <= c < n - 1 ==> us[c][c] != 0.0
    ensures Sweep(a, l, u, n, 0, 0) == Some((ls, us))
  {
    ProductDoolittle(a, ls, us, n);
    SweepFindsFactors(a, l, u, ls, us, n, 0, 0);
  }
}
