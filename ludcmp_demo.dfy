/** The system `main` of ludcmp.cpp factors (ludcmp.cpp:32-54), and what the sweep does
    when a divisor is zero. */
module LudcmpDemo {
  import opened Matrices
  import opened LudcmpSpec
  import opened LuDecomposition

  /** The matrix of ludcmp.cpp:44-46. */
  const DemoA: Matrix := [[1.0, 1.0, 1.0], [4.0, 3.0, -1.0], [3.0, 5.0, 3.0]]

  /** The starting value of both `L` and `U` (ludcmp.cpp:38-42). */
  const Identity3: Matrix := [[1.0, 0.0, 0.0], [0.0, 1.0, 0.0], [0.0, 0.0, 1.0]]

  /** Its Doolittle factors. */
  const DemoL: Matrix := [[1.0, 0.0, 0.0], [4.0, 1.0, 0.0], [3.0, -2.0, 1.0]]
  const DemoU: Matrix := [[1.0, 1.0, 1.0], [0.0, -1.0, -5.0], [0.0, 0.0, -10.0]]

  /** `DemoL * DemoU == DemoA`. */
  lemma DemoProduct()
    ensures Product(DemoL, DemoU, 3) == DemoA
  {
    forall r, c | 0 <= r < 3 && 0 <= c < 3
      ensures Product(DemoL, DemoU, 3)[r][c] == DemoA[r][c]
    {
      Dot3(DemoL[r], Column(DemoU, c));
    }
    SameEntries(Product(DemoL, DemoU, 3), DemoA, 3, 3);
  }

  /** Starting from the identity, the sweep on `DemoA` meets no zero divisor and yields
      `DemoL` and `DemoU`. */
  lemma DemoSweep()
    ensures Sweep(DemoA, Identity3, Identity3, 3, 0, 0) == Some((DemoL, DemoU))
  {
    DemoProduct();
    SweepUnique(DemoA, Identity3, Identity3, DemoL, DemoU, 3);
  }

  /** `main` of ludcmp.cpp: `L` and `U` start as the identity and come back as the
      factors of `DemoA`. */
  method LudcmpDemo() returns (L: array2<real>, U: array2<real>)
    ensures Snapshot(L) == DemoL && Snapshot(U) == DemoU
  {
    var A := new real[3, 3]((i: nat, j: nat) => if i < 3 && j < 3 then DemoA[i][j] else 0.0);
    L := new real[3, 3]((i: nat, j: nat) => if i == j then 1.0 else 0.0);
    U := new real[3, 3]((i: nat, j: nat) => if i == j then 1.0 else 0.0);
    assert Snapshot(A) == DemoA by {
      SameEntries(Snapshot(A), DemoA, 3, 3);
    }
    assert Snapshot(L) == Identity3 by {
      SameEntries(Snapshot(L), Identity3, 3, 3);
    }
    assert Snapshot(U) == Identity3 by {
      SameEntries(Snapshot(U), Identity3, 3, 3);
    }
    DemoSweep();
    Ludcmp(A, L, U);
  }

  /** With `L(0,0) == 0` the very first division, `U(0,0) /= L(0,0)`, is by zero. */
  lemma ZeroLDiagonalFails()
    ensures var l := [[0.0, 0.0], [0.0, 1.0]];
            var u := [[1.0, 0.0], [0.0, 1.0]];
            Sweep(u, l, u, 2, 0, 0) == None
  {
  }

  /** `A = [[0, 1], [1, 0]]` is invertible but has no Doolittle factorisation: `U(0,0)`
      comes out 0 and `L(1,0) /= U(0,0)` divides by zero. */
  lemma ZeroPivotFails()
    ensures var a := [[0.0, 1.0], [1.0, 0.0]];
            var id := [[1.0, 0.0], [0.0, 1.0]];
            Sweep(a, id, id, 2, 0, 0) == None
  {
    var a := [[0.0, 1.0], [1.0, 0.0]];
    var id := [[1.0, 0.0], [0.0, 1.0]];
    assert UEntry(a, id, id, 2, 0, 0) == 0.0;
    var u1 := id[0 := id[0][0 := 0.0]];
    assert Sweep(a, id, id, 2, 0, 0) == Sweep(a, id, u1, 2, 0, 1);
  }

  /** The last diagonal entry of `U` is never a divisor: the singular
      `A = [[1, 1], [1, 1]]` still factors, with `U(1,1) == 0`. */
  lemma SingularLastPivotFactors()
    ensures var a := [[1.0, 1.0], [1.0, 1.0]];
            var id := [[1.0, 0.0], [0.0, 1.0]];
            Sweep(a, id, id, 2, 0, 0) == Some(([[1.0, 0.0], [1.0, 1.0]], [[1.0, 1.0], [0.0, 0.0]]))
  {
    var a := [[1.0, 1.0], [1.0, 1.0]];
    var id := [[1.0, 0.0], [0.0, 1.0]];
    var ls := [[1.0, 0.0], [1.0, 1.0]];
    var us := [[1.0, 1.0], [0.0, 0.0]];
    forall r, c | 0 <= r < 2 && 0 <= c < 2
      ensures Product(ls, us, 2)[r][c] == a[r][c]
    {
      assert Dot(ls[r], Column(us, c), 0, 2) == ls[r][0] * us[0][c] + ls[r][1] * us[1][c];
    }
    SameEntries(Product(ls, us, 2), a, 2, 2);
    SweepUnique(a, id, id, ls, us, 2);
  }
}
