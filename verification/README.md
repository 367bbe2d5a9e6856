# GF(2) kernel of the stabilizer-state decomposition

This project models the linear-algebra kernel and the gate-list utilities of
`decompose.py`. That file supports the decomposition of a stabilizer state
into CNOT, Hadamard and Phase gates, following Lemmas 6 and 7 of Aaronson and
Gottesman, "Improved simulation of stabilizer circuits".

Matrices live over GF(2). A bit is a `bool`, addition and subtraction mod 2
are XOR (`!=`), and multiplication is AND. A matrix is a `seq<seq<bool>>`.
Most NumPy loops become a recursive function over the loop index, so the
model performs the same writes in the same order as the Python code. The
exception is the double loop of `transform_symplectic`, which writes every
cell of a, b, c and d exactly once. It is modelled as a sequence
comprehension per quadrant (`Symplectic.Quadrant`), where order does not
matter.

Modules:

- `Gf2` (`gf2.dfy`): matrices, row and column additions, inner products,
  transpose, products, and row independence (a trivial left kernel).
- `RowElimination` (`row_elimination.dfy`):
  - `row_wise_gaussian_elimination_pivots`;
  - `get_rank`;
  - `get_hadamard_steps`.
- `ColElimination` (`col_elimination.dfy`): `col_wise_gaussian_elimination_steps`.
  Each recorded `(source, destination)` step is one column addition.
- `Congruence` (`congruence.dfy`): `find_M`.
- `Symplectic` (`symplectic.dfy`): `transform_symplectic` and `symplectic_to_matrix`.
- `Gates` (`gates.dfy`):
  - `change_gates`;
  - `apply_gates`, modelled as the sequence of simulator calls it makes,
    plus whether it raised.

Main results:

- **Column steps.** Folding the steps over A as column additions gives the
  identity exactly when A has full rank. This holds exactly when `get_rank`
  reports n.
- **Rank.** The rank is the pivot count, and the pivots are in echelon
  order. The reduced copy is in row-echelon form. The rank equals the row
  count exactly when the rows are linearly independent.
- **`find_M`.** The factor is unit lower-triangular. M·Mᵀ agrees with a
  symmetric A off the diagonal, and the factor is the only one with these
  properties.
- **`transform_symplectic`.** It is a permutation of the entries with an
  inverse. It carries the symplectic condition for the interleaved form to
  the condition for the block form, and back.

## Model

| member | source | states |
|---|---|---|
| RowElimination.FindPivotRow | decompose.py:184-188 | the row found is the first row at or after the start with a 1 in column j; nothing is found exactly when that part of the column is zero |
| RowElimination.ClearBelowRows | decompose.py:194-196 | every row after the pivot row with a 1 in the pivot column gets the pivot row added; all other rows are unchanged |
| RowElimination.ClearBelowPivot | decompose.py:192-196 | with a 1 at (k, j), clearing below leaves that 1 as the only 1 of column j from row k on, and a column that was zero from row k on stays zero |
| RowElimination.ClearBelow | decompose.py:194-196 | the matrix keeps its shape, and the rows before the first row cleared, the pivot row among them, are untouched |
| RowElimination.PivotStep | decompose.py:180-196 | a pivot is found iff column j has a 1 at or below row k; if found, row k has a 1 there and everything below is 0; if not, the matrix is unchanged; rows above k and columns already zero stay so |
| RowElimination.Eliminate | decompose.py:172-197 | pivot rows count up one by one from the current row; pivot columns strictly increase and stay in range; there are at most as many pivots as rows and columns left; rows above the current row are untouched |
| RowElimination.RowReduce | decompose.py:157-199 | the reduced copy keeps the shape of A, and has independent rows exactly when A does |
| RowElimination.EliminateEchelon | decompose.py:172-197 | if the rows from k on are zero in the columns before j, the loop from (k, j) leaves them in row-echelon form at the pivots it reports |
| RowElimination.Pivots | decompose.py:157-199 | pivot rows are exactly 0, 1, …, p-1; pivot columns strictly increase and are below m; p ≤ n and p ≤ m |
| RowElimination.Rank | decompose.py:114-120 | the rank is at most the number of rows and at most the number of columns |
| RowElimination.ReducedIsEchelon | decompose.py:172-197 | in the reduced copy, each pivot is the leading 1 of its row and everything below a pivot is 0; a row is nonzero exactly when its index is below the rank |
| RowElimination.RankIdentity | decompose.py:114-120 | the n x n identity has rank n, with its pivots on the diagonal |
| RowElimination.RankZero | decompose.py:114-120 | the zero matrix has rank 0 |
| RowElimination.AddRowKernel | decompose.py:187 | adding one row into another moves every left-kernel vector by a fixed invertible change |
| RowElimination.AddRowIndependent | decompose.py:196 | a row addition between different rows keeps independent rows independent, and dependent rows dependent |
| RowElimination.EliminateIndependent | decompose.py:166-199 | elimination keeps independent rows independent |
| RowElimination.EliminateDependent | decompose.py:166-199 | elimination keeps dependent rows dependent |
| RowElimination.EchelonIndependent | decompose.py:172-199 | the reduced copy has independent rows exactly when every row holds a pivot |
| RowElimination.RankIndependent | decompose.py:114-120 | the rank equals the row count exactly when the rows of A are linearly independent over GF(2) |
| RowElimination.RightHalfMembers | decompose.py:152 | x is selected exactly when some pivot has column n + x |
| RowElimination.RightHalf | decompose.py:152 | there is at most one qubit per pivot; which qubits, and in what order, is stated by RightHalfMembers and RightHalfIncreasing |
| RowElimination.RightHalfIncreasing | decompose.py:152 | for increasing pivot columns, the selected qubits strictly increase |
| RowElimination.HadamardQubits | decompose.py:139-153 | the qubits are strictly increasing, each below n, and at most n of them; x is returned exactly when n + x is a pivot column of [c \| d] |
| ColElimination.FindRight | decompose.py:90-94 | the column found is the first column at or after the start with a 1 in row i; none is found exactly when that part of row i is zero |
| ColElimination.ClearRight | decompose.py:97-100 | the result is the recorded steps applied to the input; each step adds column i into a column from j on |
| ColElimination.ClearRightEntries | decompose.py:97-100 | every column from j on with a 1 in row i gets column i added into it; every other entry is unchanged |
| ColElimination.ClearRightLower | decompose.py:96-100 | with a 1 on the diagonal of row i, clearing to its right finishes row i and keeps the earlier rows finished |
| ColElimination.FixDiagonal | decompose.py:89-94 | after the step, the diagonal entry is 1 exactly when row i has a 1 at or after the diagonal; at most one step (j, i) is recorded, with j > i, and it is the step applied |
| ColElimination.FixDiagonalLower | decompose.py:88-94 | on a full-rank matrix whose earlier rows are finished, the fix puts a 1 on the diagonal of row i and keeps the earlier rows finished |
| ColElimination.Phase1Row | decompose.py:87-100 | the result is the recorded steps applied to the input; every step is (j, i) or (i, j) with j > i |
| ColElimination.Phase1RowStep | decompose.py:87-100 | on a full-rank matrix whose earlier rows are finished, one pass of the phase-1 loop finishes row i and keeps full rank |
| ColElimination.Phase1 | decompose.py:86-100 | the result is the recorded steps applied to the input; every step joins two different columns, both at or after the first row processed |
| ColElimination.ClearLeft | decompose.py:106-109 | the result is the recorded steps applied to the input; every step adds column i into a column to its left, in strictly decreasing column order |
| ColElimination.Phase2 | decompose.py:102-109 | the result is the recorded steps applied to the input; every step (i, j) has j < i, and i never increases along the list |
| ColElimination.ColumnEliminationSteps | decompose.py:74-111 | every step names two different columns of the n x n matrix |
| ColElimination.ApplyStepsAppend | decompose.py:84-109 | applying a concatenation of step lists is applying one list after the other |
| ColElimination.AddColKernel | decompose.py:92 | adding one column into a different column leaves the left kernel unchanged |
| ColElimination.ApplyStepsNonSingular | decompose.py:74-111 | steps between different columns keep full rank, and keep rank deficiency |
| ColElimination.StuckIsSingular | decompose.py:87-94 | if phase 1 reaches row i with no 1 at or after the diagonal, the matrix is singular |
| ColElimination.Phase1Lower | decompose.py:86-100 | on a full-rank matrix, phase 1 ends with 1s on the diagonal and 0s above it |
| ColElimination.Phase2Identity | decompose.py:102-109 | phase 2 turns such a lower-unitriangular matrix into the identity |
| ColElimination.ReachesIdentity | decompose.py:74-111 | the recorded steps, applied to A as column additions, give the identity exactly when A has full rank |
| ColElimination.ReachesIdentityIffFullRank | decompose.py:74-120 | the column steps reach the identity exactly when get_rank reports n |
| Congruence.FillColumn | decompose.py:132-134 | only column j is written, and only in the rows from the start on; each such entry is A[i][j] minus the inner product of the first j entries of rows i and j |
| Congruence.FillFrom | decompose.py:131-134 | the remaining columns are filled without touching the columns before j |
| Congruence.FillFromComplete | decompose.py:131-134 | running the remaining columns leaves every entry below the diagonal satisfying the loop's recurrence, with the identity's entries on and above the diagonal |
| Congruence.FindM | decompose.py:123-136 | the result is unit lower-triangular, and each entry below the diagonal satisfies the recurrence |
| Congruence.FindMProducts | decompose.py:126-134 | below the diagonal, the inner product of rows i and j of M equals A[i][j] |
| Congruence.FindMCongruence | decompose.py:123-136 | for symmetric A, M·Mᵀ − A is diagonal, i.e. A + L = M·Mᵀ with L diagonal |
| Congruence.FindMUnique | decompose.py:123-136 | any unit lower-triangular matrix whose row inner products match A below the diagonal is the result of find_M |
| Symplectic.Quadrant | decompose.py:30-35 | quadrant (p, q) at (j, k) is S[2k + q][2j + p], which covers a, b, c and d |
| Symplectic.StackedEntry | decompose.py:37-40 | entry (x, y) of [[a, b], [c, d]], built by hstack and vstack, is S at the interleaved indices of y and x |
| Symplectic.BlockOf | decompose.py:24-40 | the block matrix of the four quadrants is 2n x 2n, and entry (x, y) is S at the interleaved indices of y and x: S transposed, with rows and columns renamed by one permutation |
| Symplectic.ToBlock | decompose.py:13-42 | with n half the size of S, rounded down, so that an odd last row and column are dropped, the result is 2n x 2n and entry (x, y) is S at the interleaved indices of y and x |
| Symplectic.FromToBlock | decompose.py:13-42 | the block form of an even-sized S determines S: undoing the re-indexing gives S back |
| Symplectic.ColumnsToRows | decompose.py:14-19 | if S is symplectic for the direct sum of X blocks, the result is symplectic for [[0, I], [I, 0]] |
| Symplectic.RowsToColumns | decompose.py:14-19 | if the result is symplectic for [[0, I], [I, 0]], then S is symplectic for the direct sum of X blocks |
| Symplectic.ToFromBlock | decompose.py:13-42 | every block-ordered matrix is the transform of exactly this interleaved one |
| Symplectic.ToBlockSymplectic | decompose.py:14-19 | S is symplectic for the direct sum of X blocks exactly when the result is symplectic for [[0, I], [I, 0]] |
| Symplectic.WritePair | decompose.py:66-69 | the four writes for the pair (i, j) change no cell outside the two rows of qubit qs[i] |
| Symplectic.WritePairEntries | decompose.py:66-69 | the four writes for the pair (i, j) set the four quadrant cells of qubits qs[i], qs[j] to S's matching entries and change nothing else |
| Symplectic.EmbedRowEntries | decompose.py:65-69 | after the inner loop, a cell in a row of qubit qs[i] holds S's entry for the last listed position of its column qubit |
| Symplectic.EmbedRow | decompose.py:65-69 | the inner loop for position i changes no cell outside the two rows of qubit qs[i] |
| Symplectic.EmbedRows | decompose.py:64-69 | the outer loop keeps the 2n x 2n shape; what each cell holds is stated by EmbedRowsEntries |
| Symplectic.EmbedRowsEntries | decompose.py:64-69 | after the outer loop, a cell holds S's entry for the last listed positions of its row and column qubits |
| Symplectic.SymplecticToMatrix | decompose.py:45-71 | the result is 2n x 2n; a cell whose row and column qubits are both listed holds S's entry for their last listed positions, in the matching x/z halves; every other cell is the identity's |
| Symplectic.EmbedDistinct | decompose.py:61-69 | for distinct qubits, S[i + h·m][j + k·m] lands at (qs[i] + h·n, qs[j] + k·n) for each quadrant (h, k) |
| Symplectic.EmbedUntouched | decompose.py:58 | rows and columns of unlisted qubits stay those of the 2n x 2n identity |
| Gates.ChangeGates | decompose.py:344-352 | the length and order are kept; each gate keeps its kind; q1 becomes qubits[q1]; a second qubit is mapped the same way, and a missing one stays missing |
| Gates.Relabel | decompose.py:351-352 | one gate keeps its kind and its number of qubits, and every qubit it names is an entry of the list |
| Gates.ChangeGatesIdentity | decompose.py:344-352 | relabelling by the list 0, 1, …, n-1 changes nothing |
| Gates.ChangeGatesCompose | decompose.py:344-352 | relabelling by qs1 and then qs2 is relabelling once by qs1 looked up in qs2 |
| Gates.Dispatch | decompose.py:362-377 | a call is made exactly when the kind is one of c, h, p, z, x, y |
| Gates.ApplyGates | decompose.py:355-377 | the run completes exactly when every kind is known; otherwise it stops at the first unknown kind; the k-th call is the dispatch of the k-th gate |
| Gates.ApplyChangedGates | decompose.py:344-377 | applying relabelled gates makes the same calls with relabelled qubits, and fails at the same point |

## Left out

- `decompose_state` is not modelled. It drives an external tableau simulator whose gate-update rules are not part of this model.
- What the simulator calls do is not modelled. `apply_gates` is modelled only by the calls it makes.
- The numba `@jit` compilation and the import-time warm-up call are not modelled. They affect speed only.
- NumPy's `int8` storage and `%` are replaced by XOR on booleans. In `find_M`, `(A - s) % 2` is the parity of `A - s`. Parity survives both NumPy's floored `%` and any 8-bit wrap-around of `s`, so nothing is lost.
- Python's `ValueError` message is not modelled. A failed run is the flag `failed` plus the calls made before it.
- Gates.ApplyGates: calls made before the first unknown kind are not undone when the loop raises. The outcome keeps them, next to the failure flag.
- Symplectic.SymplecticToMatrix: requires each listed qubit to be in [0, n) and S to be at least 2m x 2m. NumPy would wrap a negative qubit index around the end, and raise on one that is too large. Neither case is modelled.
- Gates.ChangeGates: requires every index to be a valid Python index into `qubits`, negative ones included. An out-of-range index raises `IndexError` in the source, and that is not modelled.
- Symplectic.EmbedRows: its own contract gives only the shape. The cell contents, untouched rows included, are proved in Symplectic.EmbedRowsEntries. Stating them on the function makes every proof about symplectic_to_matrix far more expensive.
- RowElimination.RightHalf: its own contract gives only the length bound. Membership is proved in RowElimination.RightHalfMembers and order in RowElimination.RightHalfIncreasing, because a membership clause on the recursive function makes the order proof far more expensive.
- RowElimination.ClearBelow: its own contract gives only the shape and the untouched earlier rows. Which later rows change is proved in RowElimination.ClearBelowRows, for the same reason of proof cost.
- RowElimination.Rank: linked to linear independence only at full row rank (rank = n iff the rows are independent). The general statement, that the pivot count is the dimension of the row space, is not proved.
- RowElimination.HadamardQubits: does not prove the Lemma 6 promise that Hadamards on the returned qubits make the x-quadrant full rank. That claim rests on the input being a valid stabilizer tableau, which is not modelled.
- ColElimination.ColumnEliminationSteps: the docstring says the routine has only been tested on full-rank n x n input, and a singular input silently yields steps that do not reach the identity. The model keeps that behaviour and proves when the identity is reached, instead of adding a precondition.
