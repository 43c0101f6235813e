# Dense linear solvers: Gaussian elimination and Doolittle LU

A model of the two linear-system kernels in `numerical_algorithms/systems_of_linear_algebraic_equations/`:

- `gauss_elim(A, b, x)` builds the augmented matrix `Ab = [A | b]`. For each column
  `k` it searches for a pivot row, swaps it into place with `swap`, scales the pivot row
  so the pivot is 1, and subtracts multiples of it from every row below. It then
  back-substitutes into `x`.
- `ludcmp(A, L, U)` is a Doolittle LU factorisation without pivoting. Column by
  column, it fills the entries of the caller's `U` on and above the diagonal and the
  entries of the caller's `L` strictly below it.

Arithmetic is exact `real`. Matrices are `array2<real>` and vectors `array<real>`. Each
loop of the source is a method with loop invariants. The loops of the elimination and
of the LU fill are proved to change their arrays as a function over `seq<seq<real>>`
does; one column pass of the LU fill is also proved to leave every other column alone.
Back-substitution is described by its equations instead: afterwards every row of the
triangular system holds from its diagonal rightwards. `Snapshot` reads an array into
such a matrix. The functions are:

- `Step` and `Eliminate` in `GaussElimSpec`, for the elimination.
- `Sweep` in `LudcmpSpec`, for the LU fill.

The properties are proved as lemmas about these functions. The files are:

- `matrices.dfy`: the matrix type, `Snapshot`, and the partial inner product `Dot` with its lemmas.
- `gauss_elim_spec.dfy`, `gauss_elim.dfy`, `gauss_elim_demo.dfy`: `swap`, `gauss_elim` and the system its `main` solves.
- `ludcmp_spec.dfy`, `ludcmp.dfy`, `ludcmp_demo.dfy`: `ludcmp` and the matrix its `main` factors.

The pivot search follows the code, not the usual description of partial pivoting.
It compares signed values with a strict `>` (gauss_elim.cpp:31), so the first
largest signed entry wins, not the largest magnitude. As a result the pivot landing on
the diagonal can be 0 for an invertible `A` (`GaussElimDemo.SignedPivotCanBeZero`).
Neither routine checks a divisor. The model therefore requires that the elimination
state never meets a zero pivot (`Eliminate(...).Some?`), and that the sweep never
divides by a zero `L(i,i)` or `U(j,j)` (`Sweep(...).Some?`). Both conditions are
stated over the state the source actually computes, not as "`A` is invertible".

## Model

| member | source | states |
|---|---|---|
| `GaussElimination.Swap` | numerical_algorithms/systems_of_linear_algebraic_equations/gauss_elim.cpp:6-15 | rows `i` and `j` are exchanged entry by entry; every other row is unchanged |
| `GaussElimSpec.SwapRows` | numerical_algorithms/systems_of_linear_algebraic_equations/gauss_elim.cpp:6-15 | the result has row `j` at `i`, row `i` at `j`, and every other row in place |
| `GaussElimSpec.SwapRowsSelf` | numerical_algorithms/systems_of_linear_algebraic_equations/gauss_elim.cpp:6-15 | swapping a row with itself is a no-op |
| `GaussElimSpec.SwapRowsTwice` | numerical_algorithms/systems_of_linear_algebraic_equations/gauss_elim.cpp:6-15 | swapping the same two rows twice restores the matrix |
| `GaussElimination.Augment` | numerical_algorithms/systems_of_linear_algebraic_equations/gauss_elim.cpp:19-21 | a fresh `n` by `n+1` array equal to the augmented matrix of `A` and `b`; `A` and `b` are read only |
| `GaussElimSpec.Augmented` | numerical_algorithms/systems_of_linear_algebraic_equations/gauss_elim.cpp:19-21 | `Ab(r,c) = A(r,c)` for `c < n`, and `Ab(r,n) = b(r)` |
| `GaussElimination.FindPivot` | numerical_algorithms/systems_of_linear_algebraic_equations/gauss_elim.cpp:25-36 | `k <= irow < n`; `Ab(irow,k) >= Ab(i,k)` for every `i` in `k..n-1`, strictly for `i < irow`, so the first signed maximum wins; it equals `PivotRow` |
| `GaussElimSpec.PivotScan` | numerical_algorithms/systems_of_linear_algebraic_equations/gauss_elim.cpp:29-36 | the scan from row `i` returns the best row so far or a later row, below `n` |
| `GaussElimSpec.PivotScanFirstMax` | numerical_algorithms/systems_of_linear_algebraic_equations/gauss_elim.cpp:29-36 | when the best row so far is a first signed maximum of rows `k..i-1`, the scan returns a first signed maximum of rows `k..n-1`: no row is larger in column `k`, every earlier row is strictly smaller |
| `GaussElimSpec.PivotRow` | numerical_algorithms/systems_of_linear_algebraic_equations/gauss_elim.cpp:25-36 | the pivot row lies in `k..n-1` |
| `GaussElimSpec.PivotRowUnique` | numerical_algorithms/systems_of_linear_algebraic_equations/gauss_elim.cpp:25-36 | `PivotRow` is a first signed maximum of column `k` over rows `k..n-1`, and a row is one if and only if it is `PivotRow` |
| `GaussElimination.NormalizeRow` | numerical_algorithms/systems_of_linear_algebraic_equations/gauss_elim.cpp:45-50 | the array becomes `Normalize` of its old contents |
| `GaussElimSpec.Normalize` | numerical_algorithms/systems_of_linear_algebraic_equations/gauss_elim.cpp:45-50 | `Ab(k,k) = 1`; `Ab(k,l) = old Ab(k,l) / pivot` for `l > k`; entries left of the pivot and all other rows are unchanged |
| `GaussElimination.ReduceBelow` | numerical_algorithms/systems_of_linear_algebraic_equations/gauss_elim.cpp:53-60 | the array becomes `Reduce` of its old contents |
| `GaussElimSpec.ReducedRow` | numerical_algorithms/systems_of_linear_algebraic_equations/gauss_elim.cpp:56-58 | the reduced row keeps the length `n+1` |
| `GaussElimSpec.ReduceRows` | numerical_algorithms/systems_of_linear_algebraic_equations/gauss_elim.cpp:53-60 | reducing rows `i..n-1` keeps the `n` by `n+1` shape |
| `GaussElimSpec.ReduceRowsEntries` | numerical_algorithms/systems_of_linear_algebraic_equations/gauss_elim.cpp:53-60 | rows `0..i-1` are left alone and every row from `i` on is replaced by its reduced form against the original pivot row `k`, which the loop never writes |
| `GaussElimSpec.Reduce` | numerical_algorithms/systems_of_linear_algebraic_equations/gauss_elim.cpp:53-60 | the reduction keeps the `n` by `n+1` shape |
| `GaussElimSpec.ReduceEntries` | numerical_algorithms/systems_of_linear_algebraic_equations/gauss_elim.cpp:53-60 | rows `0..k` are unchanged; row `i > k` becomes `Ab(i,j) - Ab(i,k) * Ab(k,j)` for `j >= k` and is unchanged left of `k` |
| `GaussElimSpec.ReduceClearsColumn` | numerical_algorithms/systems_of_linear_algebraic_equations/gauss_elim.cpp:52-60 | with pivot 1, column `k` is 0 below the diagonal after the reduction |
| `GaussElimination.EliminationStep` | numerical_algorithms/systems_of_linear_algebraic_equations/gauss_elim.cpp:23-61 | one pass of the column loop changes the array exactly as `Step` does |
| `GaussElimSpec.Step` | numerical_algorithms/systems_of_linear_algebraic_equations/gauss_elim.cpp:23-61 | one pass keeps the `n` by `n+1` shape; `None` when the pivot after the swap is 0 |
| `GaussElimSpec.Eliminate` | numerical_algorithms/systems_of_linear_algebraic_equations/gauss_elim.cpp:23-61 | passes `k..n-1` keep the shape; `None` when one of them meets a zero pivot |
| `GaussElimSpec.EliminateUnfold` | numerical_algorithms/systems_of_linear_algebraic_equations/gauss_elim.cpp:23-61 | a successful elimination from `k` is step `k` followed by the elimination from `k+1` |
| `GaussElimSpec.SwapKeepsSolutions` | numerical_algorithms/systems_of_linear_algebraic_equations/gauss_elim.cpp:40-43 | `x` solves the system after the interchange if and only if it solved it before |
| `GaussElimSpec.SwapKeepsEchelon` | numerical_algorithms/systems_of_linear_algebraic_equations/gauss_elim.cpp:40-43 | swapping two rows at or below `k` keeps columns `< k` unit upper-triangular |
| `GaussElimSpec.NormalizeKeepsSolutions` | numerical_algorithms/systems_of_linear_algebraic_equations/gauss_elim.cpp:45-50 | scaling the pivot row by `1/pivot` keeps the solution set, in both directions |
| `GaussElimSpec.ReduceKeepsSolutions` | numerical_algorithms/systems_of_linear_algebraic_equations/gauss_elim.cpp:52-60 | subtracting multiples of the pivot row keeps the solution set, in both directions |
| `GaussElimSpec.NormalizeReduceEchelon` | numerical_algorithms/systems_of_linear_algebraic_equations/gauss_elim.cpp:45-60 | after normalising and reducing, column `k` has 1 on the diagonal and 0 below it, and columns `< k` keep that shape |
| `GaussElimSpec.StepEchelon` | numerical_algorithms/systems_of_linear_algebraic_equations/gauss_elim.cpp:23-61 | one pass extends the unit upper-triangular shape of the coefficient block from columns `< k` to columns `< k+1` |
| `GaussElimSpec.StepKeepsSolutions` | numerical_algorithms/systems_of_linear_algebraic_equations/gauss_elim.cpp:23-61 | given that shape for columns `< k`, one pass keeps the solution set, in both directions |
| `GaussElimSpec.EliminateEchelon` | numerical_algorithms/systems_of_linear_algebraic_equations/gauss_elim.cpp:23-61 | when the loop finishes, the coefficient block is unit upper-triangular |
| `GaussElimSpec.EliminateKeepsSolutions` | numerical_algorithms/systems_of_linear_algebraic_equations/gauss_elim.cpp:23-61 | the eliminated system has exactly the solutions of the augmented matrix of `A` and `b` |
| `GaussElimination.BackSubstitute` | numerical_algorithms/systems_of_linear_algebraic_equations/gauss_elim.cpp:63-71 | every row `i` satisfies `sum over j >= i of Ab(i,j) * x(j) = Ab(i,n)` |
| `GaussElimination.SolveRow` | numerical_algorithms/systems_of_linear_algebraic_equations/gauss_elim.cpp:65-70 | `x(i)`, set to the remainder of `Ab(i,n)` divided by `Ab(i,i)`, makes equation `i` hold from the diagonal on |
| `GaussElimination.KeepSolvedTail` | numerical_algorithms/systems_of_linear_algebraic_equations/gauss_elim.cpp:64-71 | writing `x(i)` leaves the equations of rows `> i` holding |
| `GaussElimSpec.TriangularSolves` | numerical_algorithms/systems_of_linear_algebraic_equations/gauss_elim.cpp:63-71 | on a unit upper-triangular system, back-substitution's equations are the full equations |
| `GaussElimSpec.EliminationSolves` | numerical_algorithms/systems_of_linear_algebraic_equations/gauss_elim.cpp:17-72 | if elimination succeeds and `x` satisfies the eliminated rows from their diagonals, then `A * x = b` |
| `GaussElimination.GaussElim` | numerical_algorithms/systems_of_linear_algebraic_equations/gauss_elim.cpp:17-72 | when no pivot is zero, `A * x = b` for the caller's `b` as it was on entry; `A` is never written and `b` is read only while the augmented matrix is built |
| `GaussElimDemo.DemoFirstStep` | numerical_algorithms/systems_of_linear_algebraic_equations/gauss_elim.cpp:75-81 | on the demo system the first pivot row is 1 (entry 4), and the first pass gives the stated matrix |
| `GaussElimDemo.DemoSecondStep` | numerical_algorithms/systems_of_linear_algebraic_equations/gauss_elim.cpp:75-81 | the second pivot row is 2 (entry 2.75), and the second pass gives the stated matrix |
| `GaussElimDemo.DemoThirdStep` | numerical_algorithms/systems_of_linear_algebraic_equations/gauss_elim.cpp:75-81 | the third pivot stays in place (entry 10/11) |
| `GaussElimDemo.DemoElimination` | numerical_algorithms/systems_of_linear_algebraic_equations/gauss_elim.cpp:75-85 | the demo elimination meets no zero pivot and ends in the stated unit upper-triangular system |
| `GaussElimDemo.DemoSolutionUnique` | numerical_algorithms/systems_of_linear_algebraic_equations/gauss_elim.cpp:75-81 | `[1, 0.5, -0.5]` is the only solution of the demo system |
| `GaussElimDemo.GaussElimDemo` | numerical_algorithms/systems_of_linear_algebraic_equations/gauss_elim.cpp:74-89 | `gauss_elim` on the demo system yields `x = [1, 0.5, -0.5]` |
| `GaussElimDemo.SignedPivotCanBeZero` | numerical_algorithms/systems_of_linear_algebraic_equations/gauss_elim.cpp:29-36 | for `A = [[0, 1], [-1, 0]]`, which has a solution, the signed search keeps the 0 as pivot and the elimination fails |
| `GaussElimDemo.SingularSystemMeetsZeroPivot` | numerical_algorithms/systems_of_linear_algebraic_equations/gauss_elim.cpp:23-61 | for the singular `A = [[1, 2], [2, 4]]`, the second pivot is 0 |
| `LuDecomposition.ComputeU` | numerical_algorithms/systems_of_linear_algebraic_equations/ludcmp.cpp:13-18 | only `U(i,j)` changes, and it becomes `(A(i,j) - sum over k < i of L(i,k) * U(k,j)) / L(i,i)` |
| `LuDecomposition.ComputeL` | numerical_algorithms/systems_of_linear_algebraic_equations/ludcmp.cpp:22-27 | only `L(i,j)` changes, and it becomes `(A(i,j) - sum over k < j of L(i,k) * U(k,j)) / U(j,j)` |
| `LuDecomposition.SweepUpper` | numerical_algorithms/systems_of_linear_algebraic_equations/ludcmp.cpp:12-19 | the loop down column `j` of `U` to the diagonal advances `Sweep` from row 0 to row `j+1`; `L` is not written and no entry of `U` outside column `j` changes |
| `LuDecomposition.SweepLower` | numerical_algorithms/systems_of_linear_algebraic_equations/ludcmp.cpp:21-28 | the loop down column `j` of `L` below the diagonal advances `Sweep` from row `j+1` to the start of column `j+1`; `U` is not written and no entry of `L` outside column `j` changes |
| `LuDecomposition.SweepColumn` | numerical_algorithms/systems_of_linear_algebraic_equations/ludcmp.cpp:10-29 | one pass of the column loop advances `Sweep` from column `j` to column `j+1`, and no entry of `L` or `U` outside column `j` changes |
| `LuDecomposition.Ludcmp` | numerical_algorithms/systems_of_linear_algebraic_equations/ludcmp.cpp:6-30 | the arrays end as `Sweep` computes; every written entry satisfies the Doolittle recurrence; the diagonal and upper part of `L` and the strictly lower part of `U` are unchanged; from unit lower-triangular `L` and upper-triangular `U`, they end triangular with `L * U = A` |
| `LudcmpSpec.Sweep` | numerical_algorithms/systems_of_linear_algebraic_equations/ludcmp.cpp:10-29 | the sweep keeps all three matrices `n` by `n`; `None` when a divisor `L(i,i)` or `U(j,j)` is 0 |
| `LudcmpSpec.SweepUnfoldU` | numerical_algorithms/systems_of_linear_algebraic_equations/ludcmp.cpp:12-19 | a successful sweep at an entry on or above the diagonal has `L(i,i) != 0` and writes `U(i,j)` next |
| `LudcmpSpec.SweepUnfoldL` | numerical_algorithms/systems_of_linear_algebraic_equations/ludcmp.cpp:21-28 | a successful sweep at an entry below the diagonal has `U(j,j) != 0` and writes `L(i,j)` next |
| `LudcmpSpec.InnerStep` | numerical_algorithms/systems_of_linear_algebraic_equations/ludcmp.cpp:15-17 | one more pass of the inner loop adds exactly `L(i,k) * U(k,j)` to the sum |
| `LudcmpSpec.InnerFrame` | numerical_algorithms/systems_of_linear_algebraic_equations/ludcmp.cpp:15-17 | the inner sum reads only `L(i,k)` and `U(k,j)` for `k < m` |
| `LudcmpSpec.WriteUKeepsDone` | numerical_algorithms/systems_of_linear_algebraic_equations/ludcmp.cpp:12-19 | writing `U(i,j)` establishes the recurrence there and keeps it at every entry visited earlier |
| `LudcmpSpec.WriteLKeepsDone` | numerical_algorithms/systems_of_linear_algebraic_equations/ludcmp.cpp:21-28 | writing `L(i,j)` establishes the recurrence there and keeps it at every entry visited earlier |
| `LudcmpSpec.SweepEstablishes` | numerical_algorithms/systems_of_linear_algebraic_equations/ludcmp.cpp:10-29 | each entry is written once and never revisited: at the end the recurrence holds at every entry |
| `LudcmpSpec.SweepFrame` | numerical_algorithms/systems_of_linear_algebraic_equations/ludcmp.cpp:10-29 | the sweep writes only `U(i,j)` with `i <= j` and `L(i,j)` with `i > j`, each at or after its turn |
| `LudcmpSpec.ProductEntry` | numerical_algorithms/systems_of_linear_algebraic_equations/ludcmp.cpp:6-30 | for unit lower-triangular `L` and upper-triangular `U`, entry `(r,c)` of `L * U` is the first `min(r,c)` products plus `L(r,m) * U(m,c)` |
| `LudcmpSpec.DoolittleProduct` | numerical_algorithms/systems_of_linear_algebraic_equations/ludcmp.cpp:6-30 | triangular factors satisfying the recurrence multiply to `A` |
| `LudcmpSpec.ProductDoolittle` | numerical_algorithms/systems_of_linear_algebraic_equations/ludcmp.cpp:6-30 | conversely, triangular factors of `A` with nonzero `U(c,c)` for `c < n-1` satisfy the recurrence |
| `LudcmpSpec.SweepFactors` | numerical_algorithms/systems_of_linear_algebraic_equations/ludcmp.cpp:6-30 | from unit lower-triangular `L` and upper-triangular `U`, a sweep without zero divisors yields triangular `L`, `U` with `L * U = A` |
| `LudcmpSpec.SweepFindsFactors` | numerical_algorithms/systems_of_linear_algebraic_equations/ludcmp.cpp:10-29 | a sweep that starts in agreement with a Doolittle factorisation on every fixed or already visited entry produces exactly that factorisation |
| `LudcmpSpec.SweepUnique` | numerical_algorithms/systems_of_linear_algebraic_equations/ludcmp.cpp:6-30 | whenever `A = Ls * Us` with unit lower-triangular `Ls`, upper-triangular `Us` and `Us(c,c) != 0` for `c < n-1`, the sweep from triangular `L`, `U` succeeds and yields `(Ls, Us)` |
| `LudcmpDemo.DemoProduct` | numerical_algorithms/systems_of_linear_algebraic_equations/ludcmp.cpp:44-46 | the stated factors multiply to the demo matrix |
| `LudcmpDemo.DemoSweep` | numerical_algorithms/systems_of_linear_algebraic_equations/ludcmp.cpp:38-48 | starting from the identity, the sweep on the demo matrix succeeds with those factors |
| `LudcmpDemo.LudcmpDemo` | numerical_algorithms/systems_of_linear_algebraic_equations/ludcmp.cpp:32-54 | `ludcmp` on the demo matrix leaves `L = [[1,0,0],[4,1,0],[3,-2,1]]` and `U = [[1,1,1],[0,-1,-5],[0,0,-10]]` |
| `LudcmpDemo.ZeroLDiagonalFails` | numerical_algorithms/systems_of_linear_algebraic_equations/ludcmp.cpp:18 | with `L(0,0) = 0` the first division is by zero |
| `LudcmpDemo.ZeroPivotFails` | numerical_algorithms/systems_of_linear_algebraic_equations/ludcmp.cpp:27 | the invertible `A = [[0, 1], [1, 0]]` gives `U(0,0) = 0`, and `L(1,0)` divides by it |
| `LudcmpDemo.SingularLastPivotFactors` | numerical_algorithms/systems_of_linear_algebraic_equations/ludcmp.cpp:21-28 | `U(n-1,n-1)` is never a divisor: the singular `[[1, 1], [1, 1]]` still factors, with `U(1,1) = 0` |

## Left out

- The two `main` functions build Eigen matrices and print them with `std::cout`. Only their inputs and expected outputs are kept, as the demo members.
- The Eigen types (`MatrixXd`, `VectorXd` and the `<<` comma initialiser) are replaced by `array2<real>` and `array<real>` with dimension preconditions.
- Floating-point rounding, `inf` and NaN are not modelled; arithmetic is exact `real`. Division by a zero pivot, which yields `inf` or NaN in the source, is excluded by preconditions.
- GaussElimination.GaussElim: assumes `A`, `b` and `x` are dimensioned consistently, and that no elimination step meets a zero pivot. The source checks neither.
- LuDecomposition.Ludcmp: assumes `A`, `L` and `U` are three distinct arrays. The source takes references and would behave differently if they aliased; its only caller passes distinct matrices.
- The rest of the repository (bond pricing, the pendulum integrator, the language tutorials) is not part of this model.
