# lu<T,X>: a Suhl–Suhl LU factorisation of a simplex basis, in Dafny

This project models the factorisation orchestrator `lu<T,X>` of the LEAN / z3
linear-programming engine (`src/util/lp/lu.hpp`). The class keeps the
following state:

- a basis matrix `B`, factorised as row and column permutations `Q` and `R`;
- an upper factor `U`;
- a tail of elementary matrices. These are eta matrices, row-eta matrices,
  one-element-on-diagonal matrices and one folded dense block.

It builds the factorisation column by column (`create_initial_factorization`).
It solves `Bx = b` and `yB = c` by running the tail forwards or backwards. When
one basic column is replaced, it updates the factorisation in place with the
Suhl–Suhl scheme:

- replace the column of `U`;
- rotate the bump to its end;
- eliminate the bump's last row into a row-eta matrix;
- normalise the new diagonal with a one-element-on-diagonal matrix.

The model works in the exact regime, in which `numeric_traits<T>::precise()`
holds. Coefficients are Dafny `real`. The drop, pivot and density tolerances
are fields of `LpSettings`. With exact coefficients the drop and pivot tests
hold only for zero; with inexact ones they compare the value against the
tolerance. The inexact branches of the helpers are modelled as well, because
they are selected by the `precise` flag.

The central identity is the one `is_correct` checks (`lu.hpp:626-672`): the
tail applied to the basis matrix `B` gives `Q·U·R` (`Factorization.Factors`).
The model proves that construction establishes it and that a column
replacement carries it over to the basis with the column replaced.

Files:

- `common.dfy` (module `Common`): status, settings and tolerance predicates.
- `vectors.dfy` (module `Vectors`): dot products, index lists, and the
  `IndexedVector` class. This is a dense data array plus an index list of its
  non-zero positions, updated in place.
- `permutations.dfy` (module `Permutations`): permutations as forward and
  reverse maps. It holds the transpositions and products `lu` applies to `Q`
  and `R`, and the bump rotation `r_wave`.
- `tail.dfy` (module `Tail`): the tail matrices as a datatype, their action
  from the left and from the right, the tail passes, and
  `one_elem_on_diag::apply_from_left_to_T`.
- `duality.dfy` (module `TailDuality`): proves that the backward pass of
  `solve_yB` is the transpose of the forward pass of `solve_By`.
- `dense.dfy` (module `Upper`): `U` as a dense square matrix. It holds the row
  and column operations `lu` applies to `U`, the matrix that `Q`, `U` and `R`
  together represent, and the shape lemmas of the column replacement.
- `bump.dfy` (module `Bump`): the specification of the row elimination of the
  bump and of the row-eta extraction. It proves that the elimination solves
  the bump's last row.
- `elimination.dfy` (module `Elimination`): `U` multiplied from the left by a
  tail matrix, the eta matrix of Gaussian elimination on a pivot column, and
  the proof that pivoting with it finishes the column.
- `lu.dfy` (module `Factorization`): `too_dense`, the specification of the
  initial factorisation, the error-correction helpers, and class `Lu` with the
  operations of `lu<T,X>`.

In these details the model follows what the code does:

- The check of the recomputed diagonal against the caller's pivot
  (`lu.hpp:838-846`) runs only in the inexact regime. In the exact regime it
  never degenerates.
- When a replaced column's bump is empty (its start lies below its lowest row),
  `calculate_r_wave_and_update_U` sets `Degenerated`.
  `get_row_eta_matrix_and_set_row_vector` then still scans and solves before
  `replace_column` clears the work vector and returns. The model keeps that
  order.
- The dense phase of the initial factorisation starts one column after the
  column at which `too_dense` first holds. That column has already been
  pivoted by the sparse phase.
- `too_dense` multiplies `r * r` in 32-bit `unsigned` arithmetic. The sparse
  loop uses that test as written (`TooDenseAsWritten`); for fewer than 65536
  rows it agrees with the intended test (see "## Findings").

## Model

| member | source | states |
|---|---|---|
| Tail.OneElemApplyToIndexed | src/util/lp/lu.hpp:94-106 | Only position `m_i` can change. A zero entry stays as it is. Otherwise the entry is divided by `m_val`. In the inexact regime, a quotient below drop tolerance becomes zero and `m_i` leaves the index. In the exact regime the result is the matrix's left action. The index invariant of the vector is kept. |
| Permutations.RWave | src/util/lp/lu.hpp:769-773 | `r_wave` is a permutation. It sends `bump_start` to `bump_end` and each `i` in `(bump_start, bump_end]` to `i-1`, and fixes every index outside the bump. For `bump_start == bump_end` it is the identity. |
| Factorization.Lu.CalculateRWaveAndUpdateU | src/util/lp/lu.hpp:759-777 | If `bump_start > bump_end`, status becomes `Degenerated` and neither `r_wave` nor `U` changes. If they are equal, nothing changes. Otherwise `r_wave` is the rotation and `U` is rotated by it on both sides. `Q`, `R`, the tail and the counter stay the same. |
| Upper.RotateBump | src/util/lp/lu.hpp:775-776 | `U` multiplied by `r_wave` from the right and by its reverse from the left: entry `(i, c)` comes from the rotated-back row and column. |
| Factorization.FewRowsAreNeverTooDense | src/util/lp/lu.hpp:699-707 | `too_dense(j)` is false whenever fewer than 5 rows remain. |
| Factorization.TooDenseIsMonotone | src/util/lp/lu.hpp:699-707 | The intended `too_dense(j)` is monotone: with at least 5 rows left, more active elements never turn it off. |
| Factorization.TooDenseAsWrittenAgrees | src/util/lp/lu.hpp:699-707 | While `r < 65536`, the 32-bit `unsigned` product `r*r` does not wrap, so the code as written agrees with the intended test. |
| Factorization.TooDenseWrapsAt65536 | src/util/lp/lu.hpp:699-707 | With `r == 65536`, `r*r` wraps to 0. The code as written then reports "too dense" with no active elements, and the intended test does not. |
| Factorization.SparsePhase | src/util/lp/lu.hpp:725-735 | The sparse loop ends at a failing column, after a column at which `too_dense` as written (32-bit `r*r`) holds, or after all columns. The column it names lies in range. |
| Factorization.SparsePhaseStopsAtFirstFailure | src/util/lp/lu.hpp:725-735 | The loop stops at the first failing column and the first column that is too dense by the test as written. Every earlier column was pivoted successfully and was not too dense. With fewer than 65536 rows the same holds for the intended test. |
| Factorization.Lu.constructor | src/util/lp/lu.hpp:110-134 | Status is `Degenerated` exactly when the sparse phase fails, or the dense phase after its switch fails. The counter starts at 0 and the invariant holds. The tail applied to the basis matrix (the `basis` columns of `A`) gives `Q·U·R`. When every column stayed sparse and each pivot step was Gaussian elimination, `U` is unit upper triangular. |
| Factorization.Lu.SwapRows | src/util/lp/lu.hpp:515-521 | For `j != k`, `Q` is transposed from the left and rows `j` and `k` of `U` are swapped. For `j == k` nothing changes. The matrix that `Q`, `U` and `R` represent is unchanged. |
| Factorization.Lu.SwapColumns | src/util/lp/lu.hpp:523-529 | For `j != pivot_column`, `R` is transposed from the right and the two columns of `U` are swapped. Otherwise nothing changes. The represented matrix is unchanged. |
| Upper.SwapRowsKeepsRepresented | src/util/lp/lu.hpp:516-521 | Swapping rows of `U` together with a left transposition of `Q` leaves the represented matrix `B` unchanged. |
| Upper.SwapColumnsKeepsRepresented | src/util/lp/lu.hpp:524-529 | Swapping columns of `U` together with a right transposition of `R` leaves `B` unchanged. |
| Factorization.InitialStateFactors | src/util/lp/lu.hpp:117-121 | With `U` the basis matrix, `Q` and `R` identities and an empty tail, `tail·B == Q·U·R` holds. |
| Factorization.ColumnOfRepresented | src/util/lp/lu.hpp:665-668 | Column `y` of `Q·U·R` is column `R⁻¹(y)` of `U` read through `Q`. |
| Factorization.RepresentedFactors | src/util/lp/lu.hpp:618-619 | Exchanges that keep the represented matrix keep `tail·B == Q·U·R`. |
| Factorization.LeftFactorPushed | src/util/lp/lu.hpp:541-544 | A tail matrix that turns each column of `U` into the column of a new `U` keeps the identity with the new `U` once it is conjugated by `Q` and pushed to the tail. |
| Factorization.PushedFactors | src/util/lp/lu.hpp:750-753 | Multiplying `U` from the left by a tail matrix while pushing the matrix conjugated by `Q` keeps `tail·B == Q·U·R`. |
| Elimination.EliminationStep | src/util/lp/lu.hpp:541 | Pivoting with the elimination eta matrix divides the pivot row by the pivot, subtracts from each lower row its multiple of the pivot row, and keeps the rows above. |
| Elimination.EliminationClearsColumn | src/util/lp/lu.hpp:541 | After that step the pivot column is one on the diagonal and zero below it. |
| Elimination.SwapsKeepDone | src/util/lp/lu.hpp:618-619 | A pivot taken from the active submatrix is brought to `(j, j)` without disturbing the finished columns `0..j-1`. |
| Elimination.EliminationFinishesColumn | src/util/lp/lu.hpp:530-546 | Eliminating the pivot column finishes it and keeps the finished columns. |
| Elimination.UnitColumnIsDone | src/util/lp/lu.hpp:537-539 | A pivot column that already is the unit vector below the diagonal needs no eta matrix and is finished. |
| Elimination.AllDoneIsUnitUpper | src/util/lp/lu.hpp:733-737 | When all columns are finished, `U` is unit upper triangular. |
| Factorization.Lu.PivotTheRow | src/util/lp/lu.hpp:530-546 | If computing the eta matrix fails, status becomes `Degenerated` and the result is false. With no eta matrix the result is true and the tail and `U` are unchanged. With an eta matrix, the result is whether pivoting with it succeeded. On success `U` is multiplied by the eta matrix from the left, and the eta matrix, conjugated by `Q`, is appended to the tail. The identity `tail·B == Q·U·R` is kept. |
| Factorization.Lu.MovePivotToDiagonal | src/util/lp/lu.hpp:618-619 | `U` has its column `j` and `pj`, then its rows `j` and `pi`, exchanged. This keeps the represented matrix, the tail and the status. |
| Factorization.Lu.ProcessColumn | src/util/lp/lu.hpp:603-624 | `m_failure` is set exactly when there is no pivot, or pivoting the row fails. Status becomes `Degenerated` only when computing the eta matrix fails. The tail is only ever appended to, and `tail·B == Q·U·R` is kept. If columns `0..j-1` were finished and the step is Gaussian elimination, column `j` is finished too: one on the diagonal, zero below. |
| Factorization.Lu.PivotInDenseMode | src/util/lp/lu.hpp:708-720 | A row with no pivot column sets `m_failure`. Otherwise `R` is transposed when the pivot column differs from `i`, keeping the represented matrix. The status, the tail and `Q` are unchanged. |
| Factorization.Lu.CreateInitialFactorization | src/util/lp/lu.hpp:721-757 | The first failing sparse column sets `Degenerated`, and no later column is processed. If all columns stay sparse, the tail gains only eta matrices and no dense block, and with elimination steps `U` ends unit upper triangular. After a density break, a failing dense row sets `Degenerated`. Otherwise the dense block, conjugated by `Q`, is appended last and the counter is reset to 0. `tail·B == Q·U·R` is kept throughout. |
| Factorization.Lu.FactorRestInDenseMode | src/util/lp/lu.hpp:741-755 | The dense loop from `j+1` on. The first row without a pivot leaves the status `Degenerated` with the tail unchanged. Otherwise the dense block is multiplied into `U` from the left, the block conjugated by `Q` is appended, and the counter is reset. `tail·B == Q·U·R` is kept. |
| Upper.ReplaceColumnInRepresented | src/util/lp/lu.hpp:565-571 | Replacing column `R⁻¹(leaving)` of `U` by `w` replaces column `leaving` of `B` by `w` permuted by `Q`, and keeps every other column. |
| Factorization.Lu.TransformUToVByReplacingColumn | src/util/lp/lu.hpp:565-571 | Returns `R⁻¹(leaving)`. `U`'s column there becomes `w`, so `B`'s column `leaving` becomes `w` under `Q`. All other state is unchanged. |
| Upper.ReplaceColumnMakesSpike | src/util/lp/lu.hpp:870-871 | Replacing a column of a unit upper triangular `U` leaves it upper triangular except the spike column, down to `lowest_row_in_column`. |
| Upper.RotationLeavesOneBumpRow | src/util/lp/lu.hpp:769-776 | After the rotation every row except the bump's last one is unit upper triangular. The last row is zero left of the bump. |
| Upper.RotationKeepsRepresented | src/util/lp/lu.hpp:775-776 | Rotating `U` by `r_wave` while `Q` and `R` absorb it (`lu.hpp:881-882`) keeps the represented matrix `Q·U·R`. |
| Factorization.EmptyRotation | src/util/lp/lu.hpp:769-773 | For an empty bump `r_wave` is the identity and the rotation leaves `U` as it is. |
| Factorization.AbsorptionFactors | src/util/lp/lu.hpp:881-882 | `Q` and `R` absorbing `r_wave` while `U` is rotated keep `tail·B == Q·U·R`. |
| Factorization.ReplacementFactors | src/util/lp/lu.hpp:869 | When `w` read through `Q` is the entering column with the tail applied, replacing column `R⁻¹(leaving)` of `U` by `w` gives `tail·B' == Q·U·R` for `B` with column `leaving` replaced. |
| Factorization.Lu.ScanLastRowToWorkVector | src/util/lp/lu.hpp:778-791 | The work vector holds row `lowest_row_of_the_bump` of `U`, with every entry in a column left of `lowest_row_of_the_bump` negated (the bump's own columns included), and its index lists exactly its non-zeros. |
| Factorization.Lu.EliminateWithRow | src/util/lp/lu.hpp:797-829 | One pass of the elimination loop for row `j`: each non-zero `U[j][col]`, `col != j`, adds `∓v·U[j][col]` to the work vector. It adds the negative left of the bump. A sum below drop tolerance becomes zero and leaves the index. |
| Factorization.Lu.AddDeltaAt | src/util/lp/lu.hpp:814-828 | The work vector's entry at `col` becomes the cleaned sum with `delta`. Nothing else changes and the index still covers the non-zeros. |
| Factorization.Lu.PivotAndSolveTheSystem | src/util/lp/lu.hpp:794-831 | The work vector is the result of eliminating rows `replaced_column .. lowest_row-1` in order. For an empty range it is unchanged. |
| Bump.BumpRowIsEliminated | src/util/lp/lu.hpp:794-831 | With zero drop tolerance the elimination solves the bump row. Left of the bump's last row, the row plus the combination of bump rows with the computed coefficients is zero. To its right, the work vector holds the new row of `U`. |
| Bump.SolveToEliminates | src/util/lp/lu.hpp:796-830 | The loop invariant of the elimination: after rows `s .. k-1`, columns below `k` are cleared. |
| Factorization.Lu.CollectRowEta | src/util/lp/lu.hpp:854-864 | The scan over the work vector's index yields the same entries and data as the specification of the extraction. |
| Bump.RowEtaExtraction | src/util/lp/lu.hpp:854-864 | The row-eta holds exactly the work-vector entries with index below the bump's last row that are non-zero and not below drop tolerance, each once. Afterwards every work entry below that row is zero and the others are kept. |
| Bump.RowEtaHoldsCoefficients | src/util/lp/lu.hpp:854-864 | With zero drop tolerance, every non-zero coefficient left of the bump's last row goes into the row-eta. |
| Bump.RowEtaWellFormed | src/util/lp/lu.hpp:848-864 | The extracted row-eta is a well-formed tail matrix: its row and entries are in range and no entry lies on the diagonal. |
| Bump.CombineIsColSum | src/util/lp/lu.hpp:854-864 | In any order, entries holding the non-zero coefficients of rows `s..k-1` combine a column of `U` into the weighted sum of those rows. |
| Bump.RowEtaEliminatesBumpRow | src/util/lp/lu.hpp:848-886 | In exact arithmetic the extracted row-eta matrix, applied to each column of the rotated `U`, gives the column of `U` with the bump row replaced by its eliminated form. |
| Factorization.Lu.GetRowEtaMatrixAndSetRowVector | src/util/lp/lu.hpp:834-866 | If `replaced_column == lowest_row`, there is no row-eta and nothing changes. If the inexact diagonal check fails, status becomes `Degenerated` with no row-eta. Otherwise the row-eta holds exactly the solved, non-negligible coefficients left of the last row, and the work vector keeps only the entries from that row on. |
| Factorization.Lu.CalculateLwavePwaveForLastRow | src/util/lp/lu.hpp:910-919 | Appends the one-element-on-diagonal matrix for the diagonal, conjugated by `Q`, and divides the row of `U` by it. |
| Factorization.Lu.CalculateLwavePwaveForBump | src/util/lp/lu.hpp:891-908 | With a bump, the solved row replaces `U`'s last bump row and the work vector is cleared. A diagonal below pivot tolerance sets `Degenerated` with the tail unchanged. Otherwise the row is normalised and one one-element-on-diagonal matrix is appended. |
| Factorization.DiagonalDividesRow | src/util/lp/lu.hpp:910-917 | The one-element-on-diagonal matrix acts on each column of `U` as dividing row `e` by the diagonal element. |
| Factorization.Lu.PushRowEta | src/util/lp/lu.hpp:881-886 | `Q` and `R` absorb `r_wave`, and the row-eta (if any), conjugated by the new `Q`, is appended. `U` and the status are unchanged. |
| Factorization.ReplacementKeepsUnitUpper | src/util/lp/lu.hpp:868-919 | A replacement that does not degenerate keeps `U` unit upper triangular, given that the solved row is zero left of its diagonal. |
| Factorization.ReplacementKeepsFactorisation | src/util/lp/lu.hpp:868-890 | Update correctness in exact arithmetic: after the replacement, the rotation absorbed into `Q` and `R`, the row-eta and diagonal matrix pushed and the bump row normalised, `tail·B' == Q·U·R` for `B` with column `leaving` replaced by the entering column. |
| Factorization.AbsorbedAsHolds | src/util/lp/lu.hpp:881-889 | The steps after the status check, taken in the source's order, leave the state that `AbsorbedAs` describes. |
| Factorization.AbsorbedKeeps | src/util/lp/lu.hpp:881-889 | From that state, on `Ok`, `U` stays unit upper triangular and, in exact arithmetic, the factorisation identity carries over to the replaced basis. |
| Factorization.Lu.ReplaceAndSolveBump | src/util/lp/lu.hpp:869-879 | Replaces column `R⁻¹(leaving)` of `U` by `w` and finds the bump. For an empty bump (`s > e`) `U` only has its column replaced and `r_wave` stays the identity; otherwise `U` is rotated by `r_wave` and the bump row is solved. Status becomes `Degenerated` exactly when it was already, when the bump is empty, or when the inexact diagonal check fails. |
| Factorization.Lu.AbsorbBump | src/util/lp/lu.hpp:881-889 | `Q` and `R` absorb `r_wave`. The row-eta of the solved bump row (if there is a bump), conjugated by the new `Q`, joins the tail and `U` gets the eliminated bump row. Status stays `Ok` exactly when the new diagonal passes the pivot test; then the one-element matrix joins the tail and the row is normalised. `U` stays unit upper triangular, and in exact arithmetic `tail·B' == Q·U·R` for `B` with column `leaving` replaced. |
| Factorization.Lu.ReplaceColumn | src/util/lp/lu.hpp:868-890 | `m_refactor_counter` grows by exactly one. When the bump degenerates before `r_wave` is absorbed, the work vector is cleared and `Q`, `R` and the tail are unchanged, while `U` keeps the replaced column (rotated when the bump is not empty) and `r_wave` is the rotation or the identity. Otherwise `Q` and `R` have absorbed `r_wave` and the row-eta joined the tail, and the status is `Ok` exactly when the new diagonal passes the pivot test (the late degeneration keeps those changes). On `Ok`, `U` stays unit upper triangular and in exact arithmetic the tail applied to `B` with column `leaving` replaced by the entering column gives `Q·U·R`. |
| Factorization.Lu.ApplyLpListToY | src/util/lp/lu.hpp:509-514 | The result is the tail applied from the left, first matrix first. |
| Factorization.Lu.ApplyFromLeftToT | src/util/lp/lu.hpp:505 | In the exact regime, applying one tail matrix to an indexed vector computes its left action, and the index invariant is kept. |
| Factorization.Lu.ApplyLpListToW | src/util/lp/lu.hpp:502-508 | In the exact regime the indexed vector's data becomes the tail applied from the left, and its index invariant is kept. |
| Tail.TailLeftAppend | src/util/lp/lu.hpp:503-514 | Appending a matrix to the tail applies it last in the forward pass. |
| Tail.TailRightAppend | src/util/lp/lu.hpp:269-275 | Appending a matrix to the tail applies it first in the backward pass. |
| Factorization.Lu.SolveYBTail | src/util/lp/lu.hpp:269-275 | The result is the tail applied from the right, last matrix first. |
| TailDuality.Duality | src/util/lp/lu.hpp:273 | For each kind of tail matrix `M`, `apply_from_right` is the transpose of `apply_from_left`: `y·(M w) == (y M)·w`. |
| TailDuality.TailDuality | src/util/lp/lu.hpp:264-276 | The reverse-order backward pass of `solve_yB` is the transpose of the forward pass: `y·(T w) == (y T)·w` for the whole tail `T`. |
| Tail.ConjugateActsLeft | src/util/lp/lu.hpp:543 | Conjugating a tail matrix by `Q` is a change of coordinates: applied from the left to a vector read through `Q`, it gives the original matrix's result read through `Q`. |
| Tail.ConjugateActsRight | src/util/lp/lu.hpp:884 | The same change of coordinates for `apply_from_right` on a row vector. |
| Factorization.Lu.ListNonZerosOfSolution | src/util/lp/lu.hpp:177-200 | The data is `y` with values below drop tolerance zeroed (none in the exact regime). The index is extended by every non-zero position, highest first. Starting from an empty index it lists exactly the non-zeros, once each. |
| Factorization.DropSmall | src/util/lp/lu.hpp:188-199 | The exact regime keeps every value. The inexact regime zeroes exactly the values below drop tolerance. |
| Vectors.NonZeroPositionsDown | src/util/lp/lu.hpp:181-184 | Lists each non-zero position in the range exactly once, and nothing else. |
| Factorization.Lu.AddDeltaToSolution | src/util/lp/lu.hpp:297-302 | Each `y[i]` becomes `y[i] + yc[i]`. |
| Factorization.Lu.FindErrorOfYB | src/util/lp/lu.hpp:332-338 | Each `yc[i]` becomes `yc[i]` minus the dot product of `y` with column `basis[i]` of `A`: the residual of `yB = c`. |
| Factorization.ColumnDotAdd | src/util/lp/lu.hpp:332-338 | The dot product with a column of `A` is additive in the row vector. |
| Factorization.RefinementStepSolves | src/util/lp/lu.hpp:449-462 | One refinement step is correct. If `r` is the residual of `y` and `d` solves `dB = r`, then `y + d` solves `yB = c` exactly. |
| Factorization.Lu.AddDeltaAndMarkUnion | src/util/lp/lu.hpp:309-317 | Adds `m_y_copy` into `y` at every position, and marks in `m_ii` exactly the union of the two indices. |
| Factorization.Lu.AddDeltaToSolutionIndexed | src/util/lp/lu.hpp:304-330 | Each `y[i]` becomes old `y[i] + m_y_copy[i]`, or zero when that sum is within `1e-14` of zero. A position is in the new index iff it was in either index and its sum is not eps-small. Both vectors keep their invariant. |
| Factorization.Lu.SubtractRowShare | src/util/lp/lu.hpp:371-382 | One row `k` of `A`, times `y_k`, is subtracted from `m_y_copy` at the basis positions its columns head. Every touched position is marked in `m_ii`. |
| Factorization.Lu.SubtractListedRows | src/util/lp/lu.hpp:370-383 | `m_y_copy` loses the listed rows' shares. Every position that changes is marked. |
| Factorization.Lu.CleanMarkedCopy | src/util/lp/lu.hpp:384-401 | Values below drop tolerance are zeroed, and `m_y_copy`'s index is rebuilt from the marked positions. |
| Factorization.Lu.FindErrorOfYBIndexed | src/util/lp/lu.hpp:340-404 | Each `m_y_copy[h]` becomes old `m_y_copy[h]` minus what the listed rows of `y` contribute through `heading` to basis position `h`. Values below drop tolerance are cleaned, and the index covers the non-zeros without duplicates. |
| Factorization.IndexedErrorIsDenseError | src/util/lp/lu.hpp:367-383 | When `y`'s index lists its non-zeros, what the indexed loop subtracts at position `h` is exactly the dense product of `y` with column `basis[h]`, so the indexed error equals `find_error_of_yB`'s. |
| Factorization.ShareIsColumnDot | src/util/lp/lu.hpp:370-383 | The row-by-row subtraction over any list of the non-zero rows of `y` sums to the column dot product. |
| Factorization.RowShareAtBasis | src/util/lp/lu.hpp:374-381 | Through a consistent heading, one row contributes to position `h` exactly its entry in column `basis[h]`, times `y_k`. |
| Vectors.IndexedVector.Mark | src/util/lp/lu.hpp:315-316 | `if (m_ii[i] == 0) m_ii.set_value(1, i)`: the index gains `i` once and keeps its invariant. |
| Vectors.IndexedVector.Clear | src/util/lp/lu.hpp:309 | Zeroes the listed positions and empties the index. On a consistent vector the data becomes all zero. |
| Vectors.IndexedVector.Resize | src/util/lp/lu.hpp:310 | After `clear`, resizing gives a zero vector of the new size with an empty index. |
| Vectors.IndexedVector.ClearAll | src/util/lp/lu.hpp:878 | The work vector becomes all zero with an empty index. |
| Vectors.RemoveFirst | src/util/lp/lu.hpp:824-826 | Erasing the first occurrence of `col` from the index removes one element when present and keeps the rest. On a duplicate-free index `col` is then gone. |
| Permutations.TransposeFromLeft | src/util/lp/lu.hpp:518 | `Q` with the images `j` and `k` exchanged is still a permutation. |
| Permutations.TransposeFromRight | src/util/lp/lu.hpp:527 | `R` with positions `j` and `pivot_column` exchanged is still a permutation. |
| Permutations.MultiplyFromRight | src/util/lp/lu.hpp:881 | `Q·r_wave` (matrix product) is a permutation that maps `i` to `r_wave(Q(i))`, and its reverse map is the composed reverse. |
| Permutations.MultiplyReverseFromLeft | src/util/lp/lu.hpp:882 | `r_wave⁻¹·R` (matrix product) is a permutation that maps `i` to `R(r_wave⁻¹(i))`, and its reverse map is the composed reverse. |
| Upper.DivideRow | src/util/lp/lu.hpp:917 | Only the given row of `U` changes, and each of its entries is divided by the diagonal element. |

## Left out

- `solve_By` and `solve_yB` are modelled only in their tail passes and the
  index-rebuilding loop (`ListNonZerosOfSolution`). Three steps are left out:
  the `U` solves (`solve_U_y`, `solve_y_U`, `double_solve_U_y`), the
  permutation steps with `R` and `Q`, and `init_vector_y`/`init_vector_w`.
  `sparse_matrix` and `permutation_matrix` are not part of this model.
- `solve_yB_indexed`, `solve_By_for_T_indexed_only`, `solve_Bd`,
  `solve_Bd_faster`, `solve_yB_with_error_check` and its indexed variant are
  left out as drivers. Their component steps are modelled, and so is the
  correctness of one refinement step (`RefinementStepSolves`).
- The sparse elimination engine is represented by what it reports for each
  column (`ColumnStep`). That engine is `get_pivot_for_column`,
  `fill_eta_matrix`, `pivot_with_eta` and `shorten_active_matrix`. The dense
  bump solver (`square_dense_submatrix`) is represented by the pivot column
  it finds for each row and the block it folds into the tail. Their internals
  are not part of this model.
- `U` is a dense square matrix in logical coordinates. `adjust_row` and
  `adjust_column` are the identity, and `U`'s row storage and its maxima are
  not modelled.
- The action of eta, row-eta and dense-block matrices is taken as the matrix
  each one denotes. `eta_matrix.h` and `row_eta_matrix.h` are not part of
  this model.
- Factorization.Lu.ApplyFromLeftToT: for the eta, row-eta and dense-block
  kinds, the index is rebuilt from the data. The sparse index updates of those
  classes are not modelled, and in the inexact regime their values are not
  stated.
- Factorization.Lu.ApplyLpListToW: the data is stated only for the exact
  regime. The inexact drop rules of the non-diagonal tail kinds are not
  modelled.
- `indexed_vector` is not part of this model. `clear`, `resize`, `set_value`,
  `erase_from_index` and `clear_all` are modelled by their effect on data and
  index.
- Factorization.Lu.FindErrorOfYBIndexed: a row of `A` is a dense sequence whose
  zero entries are skipped, not a list of stored cells. Stored explicit zeros
  of `static_matrix` are therefore not modelled.
- Factorization.Lu.FindErrorOfYBIndexed: `m_y_copy`'s index invariant is stated
  only for a positive drop tolerance. This is the case in which the source
  asserts it.
- Debug printing and dumps, `LEAN_DEBUG`-only checks, the `#if 0` block, the
  unimplemented `solve_By(indexed_vector&)`, manual memory management, and
  the global statistics counter are left out. They have no behaviour to state.
- The sparse/dense path choice by `ratio_of_index_size_to_all_size` is left
  out. It is a performance heuristic and does not change results.
- Factorization.Lu.PivotTheRow: when `pivot_with_eta` fails, `U` is left as it
  was. What the engine leaves in `U` on that path is not modelled.
  `shorten_active_matrix` only narrows the active submatrix, which has no
  counterpart in a dense `U`.
- Factorization.Lu.constructor: `U` is unit upper triangular only under the
  hypothesis that every pivot step was Gaussian elimination
  (`PivotEliminates`, recorded in `pivotsEliminate`). The engine's search and
  fill are not part of this model. After a density break, the dense block's
  internals are not modelled, so nothing is stated about the shape of `U`.
- Factorization.Lu.constructor: the settings must let a passed pivot test
  exclude zero (exact coefficients or a positive pivot tolerance).
- Elimination.MultiplyLeft: the engine's product is taken in exact
  arithmetic. The drop tolerance inside `pivot_with_eta` is not modelled.
- Factorization.Lu.ReplaceColumn: the factorisation identity is stated in
  exact arithmetic only. With inexact coefficients, dropped values make it
  approximate.
- Floating-point rounding is left out. Only the exact regime's arithmetic is
  modelled. Tolerance tests are exact comparisons on `real`.

## Findings

| source | as written | input that shows it | evidently intended | confidence | as-written member | corrected member |
|---|---|---|---|---|---|---|
| src/util/lp/lu.hpp:699-707 | `r * r * density_threshold` multiplies `unsigned r` by itself in 32-bit arithmetic before converting to `T`, so `r * r` wraps for `r >= 65536` | `m_dim = 65536`, `j = 0`, threshold `0.5`, no active elements: `r*r` wraps to 0 and `too_dense` returns true | compare `r²·density_threshold` computed without wrap-around | not executed | Factorization.TooDenseWrapsAt65536 | Factorization.TooDenseIsMonotone |
