/** Concrete systems for `gauss_elim`: the one `main` solves (gauss_elim.cpp:74-89),
    one that shows the signed pivot comparison at work, and a singular one. */
module GaussElimDemo {
  import opened Matrices
  import opened GaussElimSpec
  import opened GaussElimination

  /** The coefficient matrix and right-hand side of gauss_elim.cpp:75-81. */
  const DemoA: Matrix := [[1.0, 1.0, 1.0], [4.0, 3.0, -1.0], [3.0, 5.0, 3.0]]
  const DemoB: seq<real> := [1.0, 6.0, 4.0]

  /** The augmented matrix after each of the three elimination steps. */
  const DemoStep1: Matrix := [[1.0, 0.75, -0.25, 1.5], [0.0, 0.25, 1.25, -0.5], [0.0, 2.75, 3.75, -0.5]]
  const DemoStep2: Matrix := [[1.0, 0.75, -0.25, 1.5], [0.0, 1.0, 15.0 / 11.0, -2.0 / 11.0], [0.0, 0.0, 10.0 / 11.0, -5.0 / 11.0]]
  const DemoStep3: Matrix := [[1.0, 0.75, -0.25, 1.5], [0.0, 1.0, 15.0 / 11.0, -2.0 / 11.0], [0.0, 0.0, 1.0, -0.5]]

  /** Step 0 of the demo: column 0 holds 1, 4, 3, so row 1 is the pivot row. */
  lemma DemoFirstStep()
    ensures PivotRow(Augmented(DemoA, DemoB, 3), 3, 0) == 1
    ensures Step(Augmented(DemoA, DemoB, 3), 3, 0) == Some(DemoStep1)
  {
    var m0 := Augmented(DemoA, DemoB, 3);
    SameEntries(m0, [[1.0, 1.0, 1.0, 1.0], [4.0, 3.0, -1.0, 6.0], [3.0, 5.0, 3.0, 4.0]], 3, 4);
    PivotRowUnique(m0, 3, 0, 1);
    var s := SwapRows(m0, 1, 0);
    assert s == [[4.0, 3.0, -1.0, 6.0], [1.0, 1.0, 1.0, 1.0], [3.0, 5.0, 3.0, 4.0]];
    var q := Normalize(s, 3, 0);
    SameEntries(q, [[1.0, 0.75, -0.25, 1.5], [1.0, 1.0, 1.0, 1.0], [3.0, 5.0, 3.0, 4.0]], 3, 4);
    ReduceEntries(q, 3, 0);
    SameEntries(Reduce(q, 3, 0), DemoStep1, 3, 4);
  }

  /** Step 1 of the demo: column 1 holds 0.25 and 2.75 below the diagonal, so row 2 is
      the pivot row. */
  lemma DemoSecondStep()
    ensures PivotRow(DemoStep1, 3, 1) == 2
    ensures Step(DemoStep1, 3, 1) == Some(DemoStep2)
  {
    PivotRowUnique(DemoStep1, 3, 1, 2);
    var s := SwapRows(DemoStep1, 2, 1);
    assert s == [[1.0, 0.75, -0.25, 1.5], [0.0, 2.75, 3.75, -0.5], [0.0, 0.25, 1.25, -0.5]];
    var q := Normalize(s, 3, 1);
    SameEntries(q, [[1.0, 0.75, -0.25, 1.5], [0.0, 1.0, 15.0 / 11.0, -2.0 / 11.0], [0.0, 0.25, 1.25, -0.5]], 3, 4);
    ReduceEntries(q, 3, 1);
    SameEntries(Reduce(q, 3, 1), DemoStep2, 3, 4);
  }

  /** Step 2 of the demo: the last pivot, 10/11, stays in place. */
  lemma DemoThirdStep()
    ensures PivotRow(DemoStep2, 3, 2) == 2
    ensures Step(DemoStep2, 3, 2) == Some(DemoStep3)
  {
    PivotRowUnique(DemoStep2, 3, 2, 2);
    var q := Normalize(DemoStep2, 3, 2);
    SameEntries(q, DemoStep3, 3, 4);
    ReduceEntries(q, 3, 2);
    SameEntries(Reduce(q, 3, 2), DemoStep3, 3, 4);
  }

  /** On the demo system every pivot is nonzero, so the source never divides by zero. */
  lemma DemoElimination()
    ensures Eliminate(Augmented(DemoA, DemoB, 3), 3, 0) == Some(DemoStep3)
  {
    DemoFirstStep();
    DemoSecondStep();
    DemoThirdStep();
    var m0 := Augmented(DemoA, DemoB, 3);
    assert Eliminate(DemoStep3, 3, 3) == Some(DemoStep3);
    assert Eliminate(DemoStep2, 3, 2) == Some(DemoStep3);
    assert Eliminate(DemoStep1, 3, 1) == Some(DemoStep3);
  }

  /** The demo system has exactly one solution, `x = [1, 0.5, -0.5]`. */
  lemma DemoSolutionUnique(x: seq<real>)
    requires |x| == 3
    requires forall i :: 0 <= i < 3 ==> Dot(DemoA[i], x, 0, 3) == DemoB[i]
    ensures x == [1.0, 0.5, -0.5]
  {
    assert Dot(DemoA[0], x, 0, 3) == DemoB[0];
    assert Dot(DemoA[1], x, 0, 3) == DemoB[1];
    assert Dot(DemoA[2], x, 0, 3) == DemoB[2];
    Dot3(DemoA[0], x);
    Dot3(DemoA[1], x);
    Dot3(DemoA[2], x);
    assert x[0] + x[1] + x[2] == 1.0;
    assert 4.0 * x[0] + 3.0 * x[1] - x[2] == 6.0;
    assert 3.0 * x[0] + 5.0 * x[1] + 3.0 * x[2] == 4.0;
  }

  /** `main` of gauss_elim.cpp: solving the demo system gives `x = [1, 0.5, -0.5]`. */
  method GaussElimDemo() returns (x: seq<real>)
    ensures x == [1.0, 0.5, -0.5]
  {
    var A := new real[3, 3]((i: nat, j: nat) => if i < 3 && j < 3 then DemoA[i][j] else 0.0);
    var b := new real[3](i => if i < 3 then DemoB[i] else 0.0);
    var xs := new real[3];
    assert Snapshot(A) == DemoA by {
      SameEntries(Snapshot(A), DemoA, 3, 3);
    }
    assert b[..] == DemoB;
    assert Eliminate(Augmented(Snapshot(A), b[..], 3), 3, 0).Some? by {
      DemoElimination();
    }
    GaussElim(A, b, xs);
    x := xs[..];
    DemoSolutionUnique(x);
  }

  /** The pivot search compares signed values: for `A = [[0, 1], [-1, 0]]`, which is
      invertible, column 0 holds 0 and -1, the 0 stays as pivot and the source would
      divide by zero, although `x = [-1, 1]` solves the system with `b = [1, 1]`.
      Comparing magnitudes, as partial pivoting is usually described, would have
      taken row 1. */
  lemma SignedPivotCanBeZero()
    ensures var m := [[0.0, 1.0, 1.0], [-1.0, 0.0, 1.0]];
            && IsAugmented(m, 2)
            && PivotRow(m, 2, 0) == 0
            && Eliminate(m, 2, 0) == None
            && Solves(m, 2, [-1.0, 1.0])
  {
    var m := [[0.0, 1.0, 1.0], [-1.0, 0.0, 1.0]];
    PivotRowUnique(m, 2, 0, 0);
    assert Step(m, 2, 0) == None;
    assert Holds(m[0], 2, [-1.0, 1.0]);
    assert Holds(m[1], 2, [-1.0, 1.0]);
  }

  /** A singular system, `A = [[1, 2], [2, 4]]`, `b = [1, 2]`: after the first step the
      second row is all zero, so the second pivot is zero. */
  lemma SingularSystemMeetsZeroPivot()
    ensures var m := [[1.0, 2.0, 1.0], [2.0, 4.0, 2.0]];
            && IsAugmented(m, 2)
            && Step(m, 2, 0) == Some([[1.0, 2.0, 1.0], [0.0, 0.0, 0.0]])
            && Eliminate(m, 2, 0) == None
  {
    var m := [[1.0, 2.0, 1.0], [2.0, 4.0, 2.0]];
    PivotRowUnique(m, 2, 0, 1);
    var s := SwapRows(m, 1, 0);
    assert s == [[2.0, 4.0, 2.0], [1.0, 2.0, 1.0]];
    var q := Normalize(s, 2, 0);
    SameEntries(q, [[1.0, 2.0, 1.0], [1.0, 2.0, 1.0]], 2, 3);
    ReduceEntries(q, 2, 0);
    SameEntries(Reduce(q, 2, 0), [[1.0, 2.0, 1.0], [0.0, 0.0, 0.0]], 2, 3);
    var m1 := [[1.0, 2.0, 1.0], [0.0, 0.0, 0.0]];
    PivotRowUnique(m1, 2, 1, 1);
    assert Step(m1, 2, 1) == None;
  }
}
