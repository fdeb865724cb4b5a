/** lu<T,X>: the factorisation of a basis as permutations Q and R, an
    upper factor U and a tail of elementary matrices; the initial
    factorisation driver, the Suhl-Suhl column replacement, the solves'
    tail passes and the vector helpers of the error-corrected solves. */
module Factorization {
  import opened Common
  import opened Vectors
  import opened Permutations
  import opened Tail
  import opened Upper
  import opened Bump
  import opened Elimination

  datatype Option<T> = None | Some(value: T)

  // ---------------------------------------------------------------------------
  // too_dense

  /** 2^32: `unsigned` arithmetic wraps modulo this. */
  const TwoTo32: int := 0x1_0000_0000

  /** too_dense(j) as written: `r * r` is computed in 32-bit unsigned
      arithmetic before it meets the density threshold.  The factorisation
      runs this test. */
  function TooDenseAsWritten(dim: nat, j: nat, threshold: real, active: nat): bool
    requires j < dim
  {
    var r := dim - j;
    if r < 5 then false
    else ((r * r) % TwoTo32) as real * threshold <= active as real
  }

  /** too_dense(j) as intended: the rows left, squared and scaled by the
      density threshold, are at most the active elements of U. */
  function TooDense(dim: nat, j: nat, threshold: real, active: nat): bool
    requires j < dim
  {
    var r := dim - j;
    r >= 5 && (r * r) as real * threshold <= active as real
  }

  /** With fewer than five rows left the factorisation never switches to
      the dense mode. */
  lemma FewRowsAreNeverTooDense(dim: nat, j: nat, threshold: real, active: nat)
    requires j < dim && dim - j < 5
    ensures !TooDense(dim, j, threshold, active)
  {
  }

  /** Otherwise the switch happens exactly when r*r*threshold does not
      exceed the active count, and more active elements never undo it. */
  lemma TooDenseIsMonotone(dim: nat, j: nat, threshold: real, active: nat, more: nat)
    requires j < dim && active <= more
    ensures TooDense(dim, j, threshold, active) ==> TooDense(dim, j, threshold, more)
    ensures dim - j >= 5 ==>
      (TooDense(dim, j, threshold, active) <==> ((dim - j) * (dim - j)) as real * threshold <= active as real)
  {
  }

  /** While fewer than 2^16 rows are left the product does not wrap and the
      written test is the intended one. */
  lemma TooDenseAsWrittenAgrees(dim: nat, j: nat, threshold: real, active: nat)
    requires j < dim && dim - j < 0x1_0000
    ensures TooDenseAsWritten(dim, j, threshold, active) == TooDense(dim, j, threshold, active)
  {
    var r := dim - j;
    assert r * r < TwoTo32 by {
      assert r * r <= 0xFFFF * 0xFFFF;
    }
  }

  /** With 65536 rows left r*r wraps to 0, so a U without a single active
      element counts as too dense. */
  lemma TooDenseWrapsAt65536()
    ensures TooDenseAsWritten(65536, 0, 0.5, 0)
    ensures !TooDense(65536, 0, 0.5, 0)
  {
    assert (65536 * 65536) % TwoTo32 == 0;
  }

  // ---------------------------------------------------------------------------
  // What the sparse and dense elimination engines report

  /** get_pivot_for_column(pi, pj, ..., j): no pivot (the call fails or
      reports row -1), or the pivot's row and column. */
  datatype PivotSearch = NoPivot | Pivot(pi: nat, pj: nat)

  /** fill_eta_matrix for the pivot row: it fails (status becomes
      Degenerated), or there is nothing to eliminate, or it yields the eta
      matrix with which pivot_with_eta succeeds (`pivotOk`) or not. */
  datatype EtaFill = FillFailed | NoEta | EtaFor(eta: TailMatrix, pivotOk: bool)

  /** What the engine reports for column j of the sparse phase, and the
      number of active elements of U that too_dense(j) then reads. */
  datatype ColumnStep = ColumnStep(search: PivotSearch, fill: EtaFill, active: nat)

  predicate StepFits(st: ColumnStep, n: nat) {
    && (st.search.Pivot? ==> st.search.pi < n && st.search.pj < n)
    && (st.fill.EtaFor? ==> st.fill.eta.Eta? && WellFormed(st.fill.eta, n))
  }

  /** process_column fails at this column. */
  predicate ColumnFails(st: ColumnStep) {
    st.search.NoPivot? || st.fill.FillFailed? || (st.fill.EtaFor? && !st.fill.pivotOk)
  }

  /** How the sparse loop of create_initial_factorization ends. */
  datatype SparseEnd = FailedAt(f: nat) | DenseAfter(b: nat) | AllSparse

  /** The engine's step at column `j` is Gaussian elimination on U: the
      pivot lies in the active submatrix and is non-zero once it is brought
      to (j, j), and the eta matrix is the elimination eta matrix of that
      column, or there is none because the column is already the unit
      vector below the diagonal. */
  ghost predicate PivotEliminates(u: seq<seq<real>>, n: nat, j: nat, st: ColumnStep)
    requires IsMatrix(u, n) && j < n
  {
    && st.search.Pivot? && j <= st.search.pi < n && j <= st.search.pj < n
    && var v := Upper.SwapRows(Upper.SwapColumns(u, n, j, st.search.pj), n, j, st.search.pi);
    && v[j][j] != 0.0
    && (st.fill.NoEta? ==> v[j][j] == 1.0 && forall i | j < i < n :: v[i][j] == 0.0)
    && (st.fill.EtaFor? ==> st.fill.eta == EliminationEta(v, n, j))
  }

  /** The sparse loop from column `j` on. */
  function SparsePhase(steps: seq<ColumnStep>, dim: nat, threshold: real, j: nat): (r: SparseEnd)
    requires |steps| == dim && j <= dim
    ensures r.FailedAt? ==> j <= r.f < dim
    ensures r.DenseAfter? ==> j <= r.b < dim
    decreases dim - j
  {
    if j == dim then AllSparse
    else if ColumnFails(steps[j]) then FailedAt(j)
    else if TooDenseAsWritten(dim, j, threshold, steps[j].active) then DenseAfter(j)
    else SparsePhase(steps, dim, threshold, j + 1)
  }

  /** The sparse loop stops at the first failing column, and no column
      before it failed or was too dense; while fewer than 2^16 rows are
      left the density test it runs is the intended one. */
  lemma {:induction false} SparsePhaseStopsAtFirstFailure(steps: seq<ColumnStep>, dim: nat, threshold: real, j: nat)
    requires |steps| == dim && j <= dim
    ensures var r := SparsePhase(steps, dim, threshold, j);
      && (r.FailedAt? ==> ColumnFails(steps[r.f]))
      && (r.DenseAfter? ==> !ColumnFails(steps[r.b]) && TooDenseAsWritten(dim, r.b, threshold, steps[r.b].active))
      && (forall k | j <= k < dim && (r.AllSparse? || (r.FailedAt? && k < r.f) || (r.DenseAfter? && k < r.b)) ::
            !ColumnFails(steps[k]) && !TooDenseAsWritten(dim, k, threshold, steps[k].active))
    ensures var r := SparsePhase(steps, dim, threshold, j);
      dim < 0x1_0000 ==>
        && (r.DenseAfter? ==> TooDense(dim, r.b, threshold, steps[r.b].active))
        && (forall k | j <= k < dim && (r.AllSparse? || (r.FailedAt? && k < r.f) || (r.DenseAfter? && k < r.b)) ::
              !TooDense(dim, k, threshold, steps[k].active))
    decreases dim - j
  {
    if j < dim {
      if dim < 0x1_0000 {
        TooDenseAsWrittenAgrees(dim, j, threshold, steps[j].active);
      }
      if !ColumnFails(steps[j]) && !TooDenseAsWritten(dim, j, threshold, steps[j].active) {
        SparsePhaseStopsAtFirstFailure(steps, dim, threshold, j + 1);
      }
    }
  }

  /** `after` is `before` followed by eta matrices only. */
  predicate AppendsEtas(before: seq<TailMatrix>, after: seq<TailMatrix>) {
    |before| <= |after| && after[..|before|] == before
    && forall k | |before| <= k < |after| :: after[k].Eta?
  }

  lemma AppendsEtasTrans(a: seq<TailMatrix>, b: seq<TailMatrix>, c: seq<TailMatrix>)
    requires AppendsEtas(a, b) && AppendsEtas(b, c)
    ensures AppendsEtas(a, c)
  {
    assert c[..|a|] == c[..|b|][..|a|];
  }

  /** The dense loop fails at some row after the switch. */
  predicate DenseFails(denseCols: seq<int>, from: nat) {
    exists i | from <= i < |denseCols| :: denseCols[i] == -1
  }

  // ---------------------------------------------------------------------------
  // Specification of the row eta computation

  /** The work vector once scan_last_row_to_work_vector has read row `e` of
      U and pivot_and_solve_the_system has run over rows s .. e-1. */
  function SolvedBumpRow(u: seq<seq<real>>, n: nat, s: nat, e: nat, st: LpSettings): (x: seq<real>)
    requires IsMatrix(u, n) && s < n && e < n
    ensures |x| == n
  {
    var x := ScanRow(u[e], e);
    if s <= e then SolveTo(x, u, n, s, e, e, st) else x
  }

  /** std::max(T(1), abs(p)) */
  function PivotScale(p: real): (d: real)
    ensures d >= 1.0 && d >= Abs(p)
  {
    if 1.0 < Abs(p) then Abs(p) else 1.0
  }

  /** The inexact regime's check that the new diagonal element agrees with
      the pivot the caller saw. */
  predicate DiagonalDisagrees(st: LpSettings, diag: real, p: real) {
    !st.precise && p != 0.0 && !SmallerThanPivot(st, (diag - p) / PivotScale(p))
  }

  /** U after calculate_Lwave_Pwave_for_bump has set the bump row (only
      when there is a bump) and before the row is normalised. */
  function BumpRowSet(u: seq<seq<real>>, n: nat, s: nat, e: nat, row: seq<real>): (v: seq<seq<real>>)
    requires IsMatrix(u, n) && e < n && |row| == n
    ensures IsMatrix(v, n)
  {
    if s < e then SetRow(u, n, e, row) else u
  }

  /** replace_column degenerates before it touches Q, R or the tail: the
      status was Degenerated already, or the bump is empty (its start lies
      below its lowest row), or, in the inexact regime, the solved diagonal
      element disagrees with the pivot `p`. */
  ghost predicate BumpDegenerates(u: seq<seq<real>>, r: Perm, status: Status, n: nat, w: seq<real>, leaving: nat,
                                  st: LpSettings, p: real)
    requires IsMatrix(u, n) && IsPermutation(r, n) && |w| == n && leaving < n
  {
    var s := r.rev[leaving];
    var v := Upper.ReplaceColumn(u, n, s, w);
    var e := LowestRowInColumn(v, n, s);
    status == Degenerated || s > e
    || (s < e && DiagonalDisagrees(st, SolvedBumpRow(RotateBump(v, n, s, e), n, s, e, st)[e], p))
  }

  /** A column replacement that does not degenerate keeps U unit upper
      triangular: the spike is rotated to the end of the bump, the bump
      row is replaced by its eliminated form, and the row is normalised. */
  lemma ReplacementKeepsUnitUpper(u0: seq<seq<real>>, n: nat, s: nat, w: seq<real>, e: nat, row: seq<real>)
    requires IsMatrix(u0, n) && UnitUpper(u0, n) && s < n && |w| == n && |row| == n
    requires e == LowestRowInColumn(Upper.ReplaceColumn(u0, n, s, w), n, s) && s <= e
    requires s < e ==> forall c | 0 <= c < e :: row[c] == 0.0
    requires var v := Upper.ReplaceColumn(u0, n, s, w);
      BumpRowSet(if s < e then RotateBump(v, n, s, e) else v, n, s, e, row)[e][e] != 0.0
    ensures var v := Upper.ReplaceColumn(u0, n, s, w);
      var b := BumpRowSet(if s < e then RotateBump(v, n, s, e) else v, n, s, e, row);
      UnitUpper(DivideRow(b, n, e, b[e][e]), n)
  {
    var v := Upper.ReplaceColumn(u0, n, s, w);
    ReplaceColumnMakesSpike(u0, n, s, w);
    if s < e {
      RotationLeavesOneBumpRow(v, n, s, e);
      FinishBumpRow(RotateBump(v, n, s, e), n, e, row);
    } else {
      FinishWithoutBump(v, n, s);
    }
  }

  // ---------------------------------------------------------------------------
  // The factorisation identity

  /** The identity is_correct checks: the tail applied to each column of
      the basis matrix `b` gives the same column of Q U R. */
  ghost predicate Factors(tail: seq<TailMatrix>, q: Perm, u: seq<seq<real>>, r: Perm, n: nat, b: seq<seq<real>>) {
    && IsMatrix(b, n) && IsMatrix(u, n) && IsPermutation(q, n) && IsPermutation(r, n) && AllWellFormed(tail, n)
    && forall y | 0 <= y < n :: TailLeft(tail, Column(b, n, y)) == Column(Represented(u, q, r, n), n, y)
  }

  /** Column `y` of Q U R is column R.rev[y] of U read through Q. */
  lemma ColumnOfRepresented(u: seq<seq<real>>, q: Perm, r: Perm, n: nat, y: nat)
    requires IsMatrix(u, n) && IsPermutation(q, n) && IsPermutation(r, n) && y < n
    ensures r.rev[y] < n
    ensures Column(Represented(u, q, r, n), n, y) == Permute(Column(u, n, r.rev[y]), q, n)
  {
  }

  /** The lu constructor's starting point: with U the basis matrix itself,
      Q and R identities and an empty tail, the identity holds. */
  lemma InitialStateFactors(b: seq<seq<real>>, n: nat)
    requires IsMatrix(b, n)
    ensures Factors([], Identity(n), b, Identity(n), n, b)
  {
    forall y | 0 <= y < n
      ensures Column(b, n, y) == Column(Represented(b, Identity(n), Identity(n), n), n, y)
    {
    }
  }

  /** The basis matrix B: its column `k` is column basis[k] of A, A being
      held by rows. */
  function BasisMatrix(a: seq<seq<real>>, basis: seq<nat>): (b: seq<seq<real>>)
    requires |basis| == |a| && forall i | 0 <= i < |a| :: forall k | 0 <= k < |basis| :: basis[k] < |a[i]|
    ensures IsMatrix(b, |a|)
    ensures forall i, k | 0 <= i < |a| && 0 <= k < |a| :: b[i][k] == a[i][basis[k]]
  {
    seq(|a|, i requires 0 <= i < |a| => seq(|a|, k requires 0 <= k < |a| => a[i][basis[k]]))
  }

  /** Exchanges that keep the matrix Q U R stands for keep the identity. */
  lemma RepresentedFactors(tail: seq<TailMatrix>, q: Perm, u: seq<seq<real>>, r: Perm, n: nat, b: seq<seq<real>>,
                           q2: Perm, u2: seq<seq<real>>, r2: Perm)
    requires Factors(tail, q, u, r, n, b) && IsMatrix(u2, n) && IsPermutation(q2, n) && IsPermutation(r2, n)
    requires Represented(u2, q2, r2, n) == Represented(u, q, r, n)
    ensures Factors(tail, q2, u2, r2, n, b)
  {
  }

  /** transform_U_to_V_by_replacing_column: when `w` read through Q is the
      entering column with the tail applied, replacing column R.rev[leaving]
      of U by `w` factors the basis whose column `leaving` is the entering
      column. */
  lemma ReplacementFactors(tail: seq<TailMatrix>, q: Perm, u: seq<seq<real>>, r: Perm, n: nat, b: seq<seq<real>>,
                           leaving: nat, col: seq<real>, w: seq<real>)
    requires Factors(tail, q, u, r, n, b) && leaving < n && |col| == n && |w| == n
    requires Permute(w, q, n) == TailLeft(tail, col)
    ensures Factors(tail, q, Upper.ReplaceColumn(u, n, r.rev[leaving], w), r, n, Upper.ReplaceColumn(b, n, leaving, col))
  {
    var v := Upper.ReplaceColumn(u, n, r.rev[leaving], w);
    var b2 := Upper.ReplaceColumn(b, n, leaving, col);
    ReplaceColumnInRepresented(u, q, r, n, leaving, w);
    forall y | 0 <= y < n
      ensures TailLeft(tail, Column(b2, n, y)) == Column(Represented(v, q, r, n), n, y)
    {
      if y == leaving {
        assert Column(b2, n, y) == col;
        assert Column(Represented(v, q, r, n), n, y) == Permute(w, q, n);
      } else {
        assert Column(b2, n, y) == Column(b, n, y);
        assert Column(Represented(v, q, r, n), n, y) == Column(Represented(u, q, r, n), n, y);
      }
    }
  }

  /** The rotation of an empty bump changes nothing. */
  lemma EmptyRotation(v: seq<seq<real>>, n: nat, s: nat)
    requires IsMatrix(v, n) && s < n
    ensures RWave(n, s, s) == Identity(n) && RotateBump(v, n, s, s) == v
  {
    assert RWave(n, s, s).rev == Identity(n).rev;
    forall i | 0 <= i < n ensures RotateBump(v, n, s, s)[i] == v[i] {
    }
  }

  /** U rotated when the bump is not empty. */
  function Rotated(v: seq<seq<real>>, n: nat, s: nat, e: nat): (m: seq<seq<real>>)
    requires IsMatrix(v, n) && s <= e < n
    ensures IsMatrix(m, n)
  {
    if s < e then RotateBump(v, n, s, e) else v
  }

  /** r_wave as calculate_r_wave_and_update_U leaves it. */
  function Wave(n: nat, s: nat, e: nat): (w: Perm)
    requires s <= e < n
    ensures IsPermutation(w, n)
  {
    if s < e then RWave(n, s, e) else Identity(n)
  }

  /** U once calculate_Lwave_Pwave_for_bump has written the eliminated bump
      row (only when there is a bump), before the row is normalised; `v` is
      U with the replaced column. */
  function BumpMatrix(v: seq<seq<real>>, n: nat, s: nat, e: nat, st: LpSettings): (m: seq<seq<real>>)
    requires IsMatrix(v, n) && s <= e < n
    ensures IsMatrix(m, n)
  {
    var urot := Rotated(v, n, s, e);
    BumpRowSet(urot, n, s, e, EliminatedRow(SolvedBumpRow(urot, n, s, e, st), e))
  }

  /** Q and R absorbing r_wave while U is rotated keep the identity. */
  lemma AbsorptionFactors(tail: seq<TailMatrix>, q: Perm, v: seq<seq<real>>, r: Perm, n: nat, b: seq<seq<real>>,
                          s: nat, e: nat)
    requires Factors(tail, q, v, r, n, b) && s <= e < n
    ensures Factors(tail, MultiplyFromRight(q, Wave(n, s, e), n), Rotated(v, n, s, e),
                    MultiplyReverseFromLeft(r, Wave(n, s, e), n), n, b)
  {
    RotationKeepsRepresented(v, q, r, n, s, e);
    if s == e {
      EmptyRotation(v, n, s);
    }
  }

  /** A tail matrix `t` that turns every column of U into the same column
      of `u2` keeps the identity with `u2` once it is conjugated by Q and
      pushed to the tail. */
  lemma LeftFactorPushed(tail: seq<TailMatrix>, q: Perm, u: seq<seq<real>>, r: Perm, n: nat, b: seq<seq<real>>,
                         t: TailMatrix, u2: seq<seq<real>>)
    requires Factors(tail, q, u, r, n, b) && WellFormed(t, n) && IsMatrix(u2, n)
    requires forall c | 0 <= c < n :: ApplyLeft(t, Column(u, n, c)) == Column(u2, n, c)
    ensures Factors(tail + [Conjugate(t, q, n)], q, u2, r, n, b)
  {
    var ct := Conjugate(t, q, n);
    assert AllWellFormed(tail + [ct], n);
    forall y | 0 <= y < n
      ensures TailLeft(tail + [ct], Column(b, n, y)) == Column(Represented(u2, q, r, n), n, y)
    {
      var c := r.rev[y];
      TailLeftAppend(tail, ct, Column(b, n, y));
      ColumnOfRepresented(u, q, r, n, y);
      ColumnOfRepresented(u2, q, r, n, y);
      ConjugateActsLeft(t, q, n, Column(u, n, c));
    }
  }

  /** pivot_the_row and the end of the dense phase: multiplying U from the
      left by a tail matrix while the matrix, conjugated by Q, joins the
      tail keeps the identity. */
  lemma PushedFactors(tail: seq<TailMatrix>, q: Perm, u: seq<seq<real>>, r: Perm, n: nat, b: seq<seq<real>>,
                      t: TailMatrix)
    requires Factors(tail, q, u, r, n, b) && WellFormed(t, n)
    ensures Factors(tail + [Conjugate(t, q, n)], q, MultiplyLeft(t, u, n), r, n, b)
  {
    LeftFactorPushed(tail, q, u, r, n, b, t, MultiplyLeft(t, u, n));
  }

  /** The one-element diagonal matrix of calculate_Lwave_Pwave_for_last_row
      acts on U's columns as dividing row `e`. */
  lemma DiagonalDividesRow(u: seq<seq<real>>, n: nat, e: nat, d: real)
    requires IsMatrix(u, n) && e < n && d != 0.0
    ensures forall c | 0 <= c < n ::
      ApplyLeft(OneElemOnDiag(e, d), Column(u, n, c)) == Column(DivideRow(u, n, e, d), n, c)
  {
  }

  /** The state replace_column leaves when the bump did not degenerate
      before r_wave was absorbed: `v` is U with the replaced column, the
      bump runs from `s` to `e`, and `q0`, `r0`, `tail0` are the state
      before the call.  Q and R have absorbed r_wave; the row eta matrix of
      the solved bump row, conjugated by the new Q, joined the tail when
      there is a bump; U holds the eliminated bump row; then either the
      diagonal element passes the pivot tolerance, the one-element matrix
      joins the tail and the bump row is normalised, or the status is
      Degenerated and nothing more happens. */
  ghost predicate AbsorbedAs(q0: Perm, r0: Perm, tail0: seq<TailMatrix>, v: seq<seq<real>>, n: nat, s: nat, e: nat,
                             st: LpSettings, q: Perm, r: Perm, wave: Perm, u: seq<seq<real>>,
                             tail: seq<TailMatrix>, status: Status)
    requires IsMatrix(v, n) && IsPermutation(q0, n) && IsPermutation(r0, n) && s <= e < n
  {
    && wave == Wave(n, s, e)
    && q == MultiplyFromRight(q0, wave, n) && r == MultiplyReverseFromLeft(r0, wave, n)
    && var ub := BumpMatrix(v, n, s, e, st);
    && (status == Ok <==> !SmallerThanPivot(st, ub[e][e]))
    && (status == Ok ==> ub[e][e] != 0.0 && u == DivideRow(ub, n, e, ub[e][e]))
    && (status != Ok ==> u == ub)
    && var diag := if status == Ok then [Conjugate(OneElemOnDiag(e, ub[e][e]), q, n)] else [];
    && (s == e ==> tail == tail0 + diag)
    && (s < e ==> exists es ::
          RowEtaEntries(es, SolvedBumpRow(Rotated(v, n, s, e), n, s, e, st), e, st)
          && tail == tail0 + [Conjugate(RowEta(e, es), q, n)] + diag)
  }

  /** The steps of replace_column after the status check, taken together:
      `tail1` is the tail once the row eta matrix (if any) joined it, `bv`
      is U once the bump row was set. */
  lemma AbsorbedAsHolds(q0: Perm, r0: Perm, tail0: seq<TailMatrix>, v: seq<seq<real>>, n: nat, s: nat, e: nat,
                        st: LpSettings, rowEta: Option<TailMatrix>, row: seq<real>, tail1: seq<TailMatrix>,
                        bv: seq<seq<real>>, q: Perm, r: Perm, wave: Perm, u: seq<seq<real>>,
                        tail: seq<TailMatrix>, status: Status)
    requires IsMatrix(v, n) && IsPermutation(q0, n) && IsPermutation(r0, n) && s <= e < n && |row| == n
    requires wave == Wave(n, s, e)
    requires q == MultiplyFromRight(q0, wave, n) && r == MultiplyReverseFromLeft(r0, wave, n)
    requires s == e ==> rowEta.None?
    requires s < e ==>
      && rowEta.Some? && rowEta.value.RowEta? && rowEta.value.row == e
      && RowEtaEntries(rowEta.value.entries, SolvedBumpRow(Rotated(v, n, s, e), n, s, e, st), e, st)
      && row == EliminatedRow(SolvedBumpRow(Rotated(v, n, s, e), n, s, e, st), e)
    requires tail1 == tail0 + if rowEta.Some? then [Conjugate(rowEta.value, q, n)] else []
    requires bv == BumpRowSet(Rotated(v, n, s, e), n, s, e, row)
    requires SmallerThanPivot(st, bv[e][e]) ==> status == Degenerated && u == bv && tail == tail1
    requires !SmallerThanPivot(st, bv[e][e]) ==>
      && bv[e][e] != 0.0 && status == Ok && u == DivideRow(bv, n, e, bv[e][e])
      && tail == tail1 + [Conjugate(OneElemOnDiag(e, bv[e][e]), q, n)]
    ensures AbsorbedAs(q0, r0, tail0, v, n, s, e, st, q, r, wave, u, tail, status)
  {
    assert bv == BumpMatrix(v, n, s, e, st);
    if s < e {
      assert rowEta.value == RowEta(e, rowEta.value.entries);
    }
  }

  /** What the state replace_column leaves keeps when the update succeeds:
      U stays unit upper triangular, and with exact coefficients the
      factorisation identity carries over to the basis with column
      `leaving` replaced (ReplacementKeepsUnitUpper and
      ReplacementKeepsFactorisation read off that state). */
  lemma AbsorbedKeeps(tail0: seq<TailMatrix>, q0: Perm, u0: seq<seq<real>>, r0: Perm, n: nat, b: seq<seq<real>>,
                      leaving: nat, col: seq<real>, w: seq<real>, st: LpSettings,
                      q: Perm, r: Perm, wave: Perm, u: seq<seq<real>>, tail: seq<TailMatrix>, status: Status)
    requires IsMatrix(u0, n) && IsPermutation(q0, n) && IsPermutation(r0, n) && AllWellFormed(tail0, n)
    requires leaving < n && |w| == n && IsMatrix(u, n)
    requires var s := r0.rev[leaving];
      var v := Upper.ReplaceColumn(u0, n, s, w);
      var e := LowestRowInColumn(v, n, s);
      s <= e && AbsorbedAs(q0, r0, tail0, v, n, s, e, st, q, r, wave, u, tail, status)
    ensures status == Ok && UnitUpper(u0, n) ==> UnitUpper(u, n)
    ensures status == Ok && UnitUpper(u0, n) && st.precise && Factors(tail0, q0, u0, r0, n, b)
            && |col| == n && Permute(w, q0, n) == TailLeft(tail0, col) ==>
      Factors(tail, q, u, r, n, Upper.ReplaceColumn(b, n, leaving, col))
  {
    var s := r0.rev[leaving];
    var v := Upper.ReplaceColumn(u0, n, s, w);
    var e := LowestRowInColumn(v, n, s);
    var ub := BumpMatrix(v, n, s, e, st);
    if status == Ok && UnitUpper(u0, n) {
      ReplacementKeepsUnitUpper(u0, n, s, w, e, EliminatedRow(SolvedBumpRow(Rotated(v, n, s, e), n, s, e, st), e));
      if st.precise && Factors(tail0, q0, u0, r0, n, b) && |col| == n && Permute(w, q0, n) == TailLeft(tail0, col) {
        var diag := [Conjugate(OneElemOnDiag(e, ub[e][e]), q, n)];
        var es: seq<Entry> := [];
        if s < e {
          es :| RowEtaEntries(es, SolvedBumpRow(Rotated(v, n, s, e), n, s, e, st), e, st)
            && tail == tail0 + [Conjugate(RowEta(e, es), q, n)] + diag;
        }
        assert tail == tail0 + (if s < e then [Conjugate(RowEta(e, es), q, n)] else []) + diag;
        ReplacementKeepsFactorisation(tail0, q0, u0, r0, n, b, leaving, col, w, st, es);
      }
    }
  }

  /** Update correctness of replace_column in exact arithmetic: if the
      factorisation held for `b`, and `w` read through Q is the entering
      column `col` with the tail applied, then after the replacement, the
      rotation absorbed into Q and R, the row eta matrix and the diagonal
      matrix pushed to the tail and the bump row normalised, the identity
      holds for `b` with column `leaving` replaced by `col`. */
  lemma ReplacementKeepsFactorisation(tail: seq<TailMatrix>, q: Perm, u: seq<seq<real>>, r: Perm, n: nat,
                                      b: seq<seq<real>>, leaving: nat, col: seq<real>, w: seq<real>,
                                      st: LpSettings, es: seq<Entry>)
    requires Factors(tail, q, u, r, n, b) && UnitUpper(u, n) && st.precise
    requires leaving < n && |col| == n && |w| == n && Permute(w, q, n) == TailLeft(tail, col)
    requires var s := r.rev[leaving];
      var v := Upper.ReplaceColumn(u, n, s, w);
      var e := LowestRowInColumn(v, n, s);
      && s <= e
      && (s < e ==> RowEtaEntries(es, SolvedBumpRow(Rotated(v, n, s, e), n, s, e, st), e, st))
      && BumpMatrix(v, n, s, e, st)[e][e] != 0.0
    ensures var s := r.rev[leaving];
      var v := Upper.ReplaceColumn(u, n, s, w);
      var e := LowestRowInColumn(v, n, s);
      var q2 := MultiplyFromRight(q, Wave(n, s, e), n);
      var ub := BumpMatrix(v, n, s, e, st);
      Factors(tail + (if s < e then [Conjugate(RowEta(e, es), q2, n)] else [])
                   + [Conjugate(OneElemOnDiag(e, ub[e][e]), q2, n)],
              q2, DivideRow(ub, n, e, ub[e][e]), MultiplyReverseFromLeft(r, Wave(n, s, e), n), n,
              Upper.ReplaceColumn(b, n, leaving, col))
  {
    var s := r.rev[leaving];
    var v := Upper.ReplaceColumn(u, n, s, w);
    var e := LowestRowInColumn(v, n, s);
    var q2, r2 := MultiplyFromRight(q, Wave(n, s, e), n), MultiplyReverseFromLeft(r, Wave(n, s, e), n);
    var b2 := Upper.ReplaceColumn(b, n, leaving, col);
    var urot := Rotated(v, n, s, e);
    var ub := BumpMatrix(v, n, s, e, st);
    ReplacementFactors(tail, q, u, r, n, b, leaving, col, w);
    AbsorptionFactors(tail, q, v, r, n, b2, s, e);
    var etas: seq<TailMatrix> := if s < e then [Conjugate(RowEta(e, es), q2, n)] else [];
    if s < e {
      ReplaceColumnMakesSpike(u, n, s, w);
      RotationLeavesOneBumpRow(v, n, s, e);
      RowEtaEliminatesBumpRow(urot, n, s, e, st, es);
      LeftFactorPushed(tail, q2, urot, r2, n, b2, RowEta(e, es), ub);
    } else {
      assert tail + etas == tail && ub == urot;
    }
    DiagonalDividesRow(ub, n, e, ub[e][e]);
    LeftFactorPushed(tail + etas, q2, ub, r2, n, b2, OneElemOnDiag(e, ub[e][e]), DivideRow(ub, n, e, ub[e][e]));
  }

  /** The dense solution once values below the drop tolerance are zeroed;
      in the exact regime nothing is dropped. */
  function DropSmall(st: LpSettings, y: seq<real>): (r: seq<real>)
    ensures |r| == |y|
    ensures forall i | 0 <= i < |y| :: r[i] == (if st.precise then y[i] else Clean(st, y[i]))
  {
    if st.precise then y else seq(|y|, i requires 0 <= i < |y| => Clean(st, y[i]))
  }

  /** Every row of the dense matrix has a `j`-th entry. */
  predicate HasColumn(a: seq<seq<real>>, j: nat) {
    forall k | 0 <= k < |a| :: j < |a[k]|
  }

  /** dot_product_with_column on m_A held by rows: the sum of
      `y[k] * a[k][j]` over the first `n` rows. */
  function ColumnDot(a: seq<seq<real>>, y: seq<real>, j: nat, n: nat): real
    requires n <= |a| && n <= |y| && HasColumn(a, j)
  {
    if n == 0 then 0.0 else ColumnDot(a, y, j, n - 1) + y[n - 1] * a[n - 1][j]
  }

  lemma Distribute(x: real, y: real, c: real)
    ensures (x + y) * c == x * c + y * c
  {
  }

  lemma ColumnDotStep(a: seq<seq<real>>, y: seq<real>, j: nat, m: nat)
    requires 0 < m <= |a| && m <= |y| && HasColumn(a, j)
    ensures ColumnDot(a, y, j, m) == ColumnDot(a, y, j, m - 1) + y[m - 1] * a[m - 1][j]
  {
  }

  lemma ZeroTimes(c: real)
    ensures 0.0 * c == 0.0
  {
  }

  /** The column product is additive in the vector. */
  lemma {:induction false} ColumnDotAdd(a: seq<seq<real>>, y: seq<real>, d: seq<real>, z: seq<real>, j: nat, n: nat)
    requires n <= |a| && n <= |y| && n <= |d| && n <= |z| && HasColumn(a, j)
    requires forall k | 0 <= k < n :: z[k] == y[k] + d[k]
    ensures ColumnDot(a, z, j, n) == ColumnDot(a, y, j, n) + ColumnDot(a, d, j, n)
  {
    if n > 0 {
      ColumnDotAdd(a, y, d, z, j, n - 1);
      Distribute(y[n - 1], d[n - 1], a[n - 1][j]);
    }
  }

  /** One round of iterative refinement in exact arithmetic: when `r` is the
      error of `y` as a solution of y B = c (find_error_of_yB) and `d`
      solves d B = r, the corrected `z = y + d` (add_delta_to_solution)
      solves y B = c, B being the basic columns of A. */
  lemma RefinementStepSolves(a: seq<seq<real>>, basis: seq<nat>, n: nat, c: seq<real>, y: seq<real>,
                             r: seq<real>, d: seq<real>, z: seq<real>)
    requires |a| == n && |basis| == n && |c| == n && |y| == n && |r| == n && |d| == n && |z| == n
    requires forall i | 0 <= i < n :: HasColumn(a, basis[i])
    requires forall i | 0 <= i < n :: r[i] == c[i] - ColumnDot(a, y, basis[i], n)
    requires forall i | 0 <= i < n :: ColumnDot(a, d, basis[i], n) == r[i]
    requires forall k | 0 <= k < n :: z[k] == y[k] + d[k]
    ensures forall i | 0 <= i < n :: ColumnDot(a, z, basis[i], n) == c[i]
  {
    forall i | 0 <= i < n
      ensures ColumnDot(a, z, basis[i], n) == c[i]
    {
      ColumnDotAdd(a, y, d, z, basis[i], n);
    }
  }

  /** The tolerance add_delta_to_solution_indexed uses to zero a sum. */
  const SolutionEps: real := 0.00000000000001

  /** A sum kept unless it lies within SolutionEps of zero. */
  function DropEps(precise: bool, v: real): real {
    if EpsSmall(precise, v, SolutionEps) then 0.0 else v
  }

  /** No row of A is longer than the heading. */
  predicate RowsFit(a: seq<seq<real>>, heading: seq<int>) {
    forall k | 0 <= k < |a| :: |a[k]| <= |heading|
  }

  /** m_basis and its heading: `heading[j]` is the basis position of column
      `j` and is negative for a column outside the basis. */
  predicate HeadingOf(basis: seq<nat>, heading: seq<int>, n: nat) {
    && |basis| == n
    && (forall i | 0 <= i < n :: basis[i] < |heading| && heading[basis[i]] == i)
    && (forall j | 0 <= j < |heading| && 0 <= heading[j] :: heading[j] < n && basis[heading[j]] == j)
  }

  /** What the first `m` stored entries of one row of A, times `yk`, take
      from basis position `h`: entries whose column is headed by `h`. */
  function RowShare(row: seq<real>, yk: real, heading: seq<int>, h: nat, m: nat): real
    requires m <= |row| <= |heading|
  {
    if m == 0 then 0.0
    else RowShare(row, yk, heading, h, m - 1) + (if heading[m - 1] == h && row[m - 1] != 0.0 then row[m - 1] * yk else 0.0)
  }

  /** Every listed row is a row of A. */
  predicate ListsRows(s: seq<nat>, n: nat) {
    forall q | 0 <= q < |s| :: s[q] < n
  }

  /** What the rows listed in `s` take from basis position `h`, in list
      order. */
  function Share(a: seq<seq<real>>, y: seq<real>, s: seq<nat>, heading: seq<int>, h: nat): real
    requires |y| == |a| && RowsFit(a, heading) && ListsRows(s, |a|)
  {
    if s == [] then 0.0
    else RowShare(a[s[0]], y[s[0]], heading, h, |a[s[0]]|) + Share(a, y, s[1..], heading, h)
  }

  lemma {:induction false} ShareAppend(a: seq<seq<real>>, y: seq<real>, s: seq<nat>, k: nat, heading: seq<int>, h: nat)
    requires |y| == |a| && RowsFit(a, heading) && ListsRows(s, |a|) && k < |a|
    ensures ListsRows(s + [k], |a|)
    ensures Share(a, y, s + [k], heading, h) == Share(a, y, s, heading, h) + RowShare(a[k], y[k], heading, h, |a[k]|)
  {
    if s != [] {
      assert (s + [k])[1..] == s[1..] + [k];
      ShareAppend(a, y, s[1..], k, heading, h);
    }
  }

  lemma {:induction false} ShareRemove(a: seq<seq<real>>, y: seq<real>, s: seq<nat>, x: nat, heading: seq<int>, h: nat)
    requires |y| == |a| && RowsFit(a, heading) && ListsRows(s, |a|) && x < |a|
    ensures ListsRows(RemoveFirst(s, x), |a|)
    ensures Share(a, y, s, heading, h)
         == Share(a, y, RemoveFirst(s, x), heading, h) + (if x in s then RowShare(a[x], y[x], heading, h, |a[x]|) else 0.0)
  {
    if s != [] && s[0] != x {
      ShareRemove(a, y, s[1..], x, heading, h);
      var t := RemoveFirst(s[1..], x);
      assert RemoveFirst(s, x) == [s[0]] + t;
      assert ([s[0]] + t)[1..] == t;
    }
  }

  /** Through the heading, a row gives to basis position `h` exactly its
      entry in the basic column of `h`. */
  lemma {:induction false} RowShareAtBasis(row: seq<real>, yk: real, heading: seq<int>, basis: seq<nat>, n: nat, h: nat, m: nat)
    requires m <= |row| <= |heading| && HeadingOf(basis, heading, n) && h < n
    ensures RowShare(row, yk, heading, h, m) == if basis[h] < m then yk * row[basis[h]] else 0.0
  {
    if m > 0 {
      RowShareAtBasis(row, yk, heading, basis, n, h, m - 1);
      assert heading[m - 1] == h <==> m - 1 == basis[h];
    }
  }

  /** The list `s` names, each once, every row below `m` whose coordinate
      in `y` is non-zero, and no other row. */
  predicate ListsNonZeroRows(y: seq<real>, s: seq<nat>, m: nat)
    requires m <= |y|
  {
    && NoDup(s) && ListsRows(s, m) && (s == [] || s[0] < m)
    && forall k | 0 <= k < m && y[k] != 0.0 :: k in s
  }

  lemma DropLastRow(y: seq<real>, s: seq<nat>, m: nat)
    requires 0 < m <= |y| && ListsNonZeroRows(y, s, m)
    ensures ListsNonZeroRows(y, RemoveFirst(s, m - 1), m - 1)
    ensures m - 1 !in s ==> y[m - 1] == 0.0
  {
    var rest := RemoveFirst(s, m - 1);
    forall q | 0 <= q < |rest|
      ensures rest[q] < m - 1
    {
      assert rest[q] in rest;
    }
    forall k | 0 <= k < m - 1 && y[k] != 0.0
      ensures k in rest
    {
      assert k in s;
    }
  }

  /** A, `y`, the heading and the basis as find_error_of_yB_indexed and
      find_error_of_yB see them. */
  predicate ErrorSetting(a: seq<seq<real>>, y: seq<real>, heading: seq<int>, basis: seq<nat>, n: nat) {
    && |a| == n && |y| == n && RowsFit(a, heading) && HeadingOf(basis, heading, n)
    && forall i | 0 <= i < n :: HasColumn(a, basis[i])
  }

  /** What the last row below `m` gives to basis position `h`, when listed;
      an unlisted row has a zero coordinate. */
  lemma LastRowShare(a: seq<seq<real>>, y: seq<real>, heading: seq<int>, basis: seq<nat>, n: nat, h: nat, m: nat, listed: bool)
    requires ErrorSetting(a, y, heading, basis, n) && 0 < m <= n && h < n
    requires !listed ==> y[m - 1] == 0.0
    ensures basis[h] < |a[m - 1]|
    ensures (if listed then RowShare(a[m - 1], y[m - 1], heading, h, |a[m - 1]|) else 0.0) == y[m - 1] * a[m - 1][basis[h]]
  {
    assert HasColumn(a, basis[h]);
    RowShareAtBasis(a[m - 1], y[m - 1], heading, basis, n, h, |a[m - 1]|);
    if !listed {
      ZeroTimes(a[m - 1][basis[h]]);
    }
  }

  /** With the index listing each non-zero row once, the rows' shares add up
      to the column product of find_error_of_yB. */
  lemma {:induction false} ShareIsColumnDot(a: seq<seq<real>>, y: seq<real>, s: seq<nat>, heading: seq<int>,
                                            basis: seq<nat>, n: nat, h: nat, m: nat)
    requires ErrorSetting(a, y, heading, basis, n) && m <= n && h < n && ListsNonZeroRows(y, s, m)
    ensures ListsRows(s, n) && HasColumn(a, basis[h])
    ensures Share(a, y, s, heading, h) == ColumnDot(a, y, basis[h], m)
    decreases m
  {
    assert HasColumn(a, basis[h]);
    if m == 0 {
      if s != [] {
        assert false;
      }
    } else {
      var rest := RemoveFirst(s, m - 1);
      DropLastRow(y, s, m);
      ShareRemove(a, y, s, m - 1, heading, h);
      ShareIsColumnDot(a, y, rest, heading, basis, n, h, m - 1);
      LastRowShare(a, y, heading, basis, n, h, m, m - 1 in s);
      ColumnDotStep(a, y, basis[h], m);
    }
  }

  /** find_error_of_yB_indexed agrees with find_error_of_yB: when the index
      of `y` matches its data and the heading is the basis's, what the
      listed rows take from basis position `h` is the product of `y` with
      the basic column of `h`. */
  lemma IndexedErrorIsDenseError(a: seq<seq<real>>, y: seq<real>, index: seq<nat>, heading: seq<int>,
                                 basis: seq<nat>, n: nat, h: nat)
    requires ErrorSetting(a, y, heading, basis, n) && h < n && IndexMatches(y, index)
    ensures ListsRows(index, n) && HasColumn(a, basis[h])
    ensures Share(a, y, index, heading, h) == ColumnDot(a, y, basis[h], n)
  {
    ShareIsColumnDot(a, y, index, heading, basis, n, h, n);
  }

  class Lu {
    /** m_dim */
    const dim: nat
    /** m_A, by rows */
    const a: seq<seq<real>>
    const settings: LpSettings
    var status: Status
    var failure: bool
    var refactorCounter: nat
    var q: Perm
    var r: Perm
    var rWave: Perm
    var u: seq<seq<real>>
    var tail: seq<TailMatrix>
    /** Every column the sparse phase has pivoted so far was eliminated by
        Gaussian elimination (PivotEliminates). */
    ghost var pivotsEliminate: bool
    /** m_row_eta_work_vector */
    const work: IndexedVector
    /** m_y_copy */
    const yCopy: IndexedVector
    /** m_ii */
    const ii: IndexedVector

    /** The invariant between calls: Q, R and r_wave are permutations, U is
        square, every tail matrix is well-formed, the work vector is clean,
        and the pivot tolerance is positive. */
    ghost predicate Valid()
      reads this, work
    {
      && IsPermutation(q, dim) && IsPermutation(r, dim) && IsPermutation(rWave, dim)
      && IsMatrix(u, dim) && AllWellFormed(tail, dim)
      && work.data == seq(dim, _ => 0.0) && work.index == []
      && work != yCopy && work != ii && yCopy != ii
      && PivotTestExcludesZero(settings) && |a| == dim
    }

    /** lu(A, basis, settings): U holds the basic columns of A, Q and R are
        identities, the tail is empty; then create_initial_factorization
        runs with the engine's reports.  Afterwards the tail applied to B
        gives Q U R, and when every column stayed sparse and was eliminated
        by Gaussian elimination, U is unit upper triangular. */
    constructor (a: seq<seq<real>>, basis: seq<nat>, settings: LpSettings,
                 steps: seq<ColumnStep>, denseCols: seq<int>, dense: TailMatrix)
      requires |basis| == |a| && PivotTestExcludesZero(settings)
      requires forall i | 0 <= i < |a| :: forall k | 0 <= k < |basis| :: basis[k] < |a[i]|
      requires |steps| == |a| && forall k | 0 <= k < |a| :: StepFits(steps[k], |a|)
      requires |denseCols| == |a| && forall k | 0 <= k < |a| :: -1 <= denseCols[k] < |a|
      requires dense.DenseBlock? && WellFormed(dense, |a|)
      ensures Valid() && dim == |a| && refactorCounter == 0
      ensures var f := SparsePhase(steps, dim, settings.densityThreshold, 0);
        status == Degenerated <==> f.FailedAt? || (f.DenseAfter? && DenseFails(denseCols, f.b + 1))
      ensures Factors(tail, q, u, r, dim, BasisMatrix(a, basis))
      ensures SparsePhase(steps, dim, settings.densityThreshold, 0).AllSparse? && pivotsEliminate ==> UnitUpper(u, dim)
    {
      dim := |a|;
      this.a := a;
      this.settings := settings;
      status := Ok;
      failure := false;
      refactorCounter := 0;
      q, r, rWave := Identity(|a|), Identity(|a|), Identity(|a|);
      u := BasisMatrix(a, basis);
      tail := [];
      pivotsEliminate := true;
      work := new IndexedVector(|a|);
      yCopy := new IndexedVector(0);
      ii := new IndexedVector(0);
      new;
      InitialStateFactors(u, dim);
      CreateInitialFactorization(steps, denseCols, dense, u);
    }

    // -------------------------------------------------------------------------
    // Row and column exchanges

    /** swap_rows(j, k): Q is transposed from the left with the rows of U. */
    method SwapRows(j: nat, k: nat)
      requires Valid() && j < dim && k < dim
      modifies this
      ensures Valid()
      ensures j != k ==> q == TransposeFromLeft(old(q), dim, j, k) && u == Upper.SwapRows(old(u), dim, j, k)
      ensures j == k ==> q == old(q) && u == old(u)
      ensures Represented(u, q, r, dim) == Represented(old(u), old(q), old(r), dim)
      ensures r == old(r) && rWave == old(rWave) && tail == old(tail) && pivotsEliminate == old(pivotsEliminate)
      ensures status == old(status) && failure == old(failure) && refactorCounter == old(refactorCounter)
    {
      if j != k {
        SwapRowsKeepsRepresented(u, q, r, dim, j, k);
        q := TransposeFromLeft(q, dim, j, k);
        u := Upper.SwapRows(u, dim, j, k);
      }
    }

    /** swap_columns(j, k): R is transposed from the right with the columns
        of U. */
    method SwapColumns(j: nat, k: nat)
      requires Valid() && j < dim && k < dim
      modifies this
      ensures Valid()
      ensures j != k ==> r == TransposeFromRight(old(r), dim, j, k) && u == Upper.SwapColumns(old(u), dim, j, k)
      ensures j == k ==> r == old(r) && u == old(u)
      ensures Represented(u, q, r, dim) == Represented(old(u), old(q), old(r), dim)
      ensures q == old(q) && rWave == old(rWave) && tail == old(tail) && pivotsEliminate == old(pivotsEliminate)
      ensures status == old(status) && failure == old(failure) && refactorCounter == old(refactorCounter)
    {
      if j != k {
        SwapColumnsKeepsRepresented(u, q, r, dim, j, k);
        r := TransposeFromRight(r, dim, j, k);
        u := Upper.SwapColumns(u, dim, j, k);
      }
    }

    // -------------------------------------------------------------------------
    // The initial factorisation

    /** pivot_the_row(row): when the engine pivots with the eta matrix, U
        is multiplied by it from the left and the eta matrix, conjugated by
        Q, is appended to the tail; the tail applied to B still gives Q U R. */
    method PivotTheRow(fill: EtaFill, ghost b: seq<seq<real>>) returns (ok: bool)
      requires Valid() && (fill.EtaFor? ==> fill.eta.Eta? && WellFormed(fill.eta, dim))
      modifies this
      ensures Valid()
      ensures fill.FillFailed? ==> status == Degenerated && !ok && tail == old(tail)
      ensures !fill.FillFailed? && old(status) != Ok ==> status == old(status) && !ok && tail == old(tail)
      ensures !fill.FillFailed? && old(status) == Ok ==> status == Ok
      ensures !fill.FillFailed? && old(status) == Ok && fill.NoEta? ==> ok && tail == old(tail)
      ensures !fill.FillFailed? && old(status) == Ok && fill.EtaFor? ==>
        ok == fill.pivotOk
        && tail == old(tail) + (if fill.pivotOk then [Conjugate(fill.eta, q, dim)] else [])
      ensures AppendsEtas(old(tail), tail)
      ensures !fill.FillFailed? && old(status) == Ok && fill.EtaFor? && fill.pivotOk ==>
        u == MultiplyLeft(fill.eta, old(u), dim)
      ensures !(!fill.FillFailed? && old(status) == Ok && fill.EtaFor? && fill.pivotOk) ==> u == old(u)
      ensures Factors(old(tail), q, old(u), r, dim, b) ==> Factors(tail, q, u, r, dim, b)
      ensures q == old(q) && r == old(r) && rWave == old(rWave) && pivotsEliminate == old(pivotsEliminate)
      ensures failure == old(failure) && refactorCounter == old(refactorCounter)
    {
      if fill.FillFailed? {
        status := Degenerated;
      }
      if status != Ok {
        return false;
      }
      if fill.NoEta? {
        return true;
      }
      if !fill.pivotOk {
        return false;
      }
      if Factors(tail, q, u, r, dim, b) {
        PushedFactors(tail, q, u, r, dim, b, fill.eta);
      }
      var t := Conjugate(fill.eta, q, dim);
      assert AllWellFormed(tail + [t], dim);
      assert (tail + [t])[..|tail|] == tail;
      u := MultiplyLeft(fill.eta, u, dim);
      tail := tail + [t];
      return true;
    }

    /** The two exchanges of process_column that bring the pivot at
        (pi, pj) of the active submatrix to (j, j); the matrix represented
        by Q, U and R does not change. */
    method MovePivotToDiagonal(j: nat, pi: nat, pj: nat)
      requires Valid() && j < dim && pi < dim && pj < dim
      modifies this
      ensures Valid()
      ensures Represented(u, q, r, dim) == Represented(old(u), old(q), old(r), dim)
      ensures u == Upper.SwapRows(Upper.SwapColumns(old(u), dim, j, pj), dim, j, pi)
      ensures rWave == old(rWave) && tail == old(tail) && pivotsEliminate == old(pivotsEliminate)
      ensures status == old(status) && failure == old(failure) && refactorCounter == old(refactorCounter)
    {
      SwapColumns(j, pj);
      SwapRows(j, pi);
    }

    /** process_column(j): find the pivot, bring it to (j, j), pivot.  The
        tail applied to B still gives Q U R, and a column eliminated by
        Gaussian elimination is finished in U. */
    method ProcessColumn(j: nat, step: ColumnStep, ghost b: seq<seq<real>>)
      requires Valid() && j < dim && StepFits(step, dim) && status == Ok
      modifies this
      ensures Valid()
      ensures failure == (old(failure) || ColumnFails(step))
      ensures status == (if step.search.Pivot? && step.fill.FillFailed? then Degenerated else Ok)
      ensures AppendsEtas(old(tail), tail)
      ensures refactorCounter == old(refactorCounter) && pivotsEliminate == old(pivotsEliminate)
      ensures old(Factors(tail, q, u, r, dim, b)) ==> Factors(tail, q, u, r, dim, b)
      ensures !ColumnFails(step) && old(PivotEliminates(u, dim, j, step)) && old(DoneColumns(u, dim, j)) ==>
        DoneColumns(u, dim, j + 1)
    {
      if step.search.NoPivot? {
        failure := true;
        return;
      }
      ghost var u0, q0, r0, tail0 := u, q, r, tail;
      var pi, pj := step.search.pi, step.search.pj;
      MovePivotToDiagonal(j, pi, pj);
      ghost var v := u;
      if Factors(tail0, q0, u0, r0, dim, b) {
        RepresentedFactors(tail, q0, u0, r0, dim, b, q, u, r);
      }
      var ok := PivotTheRow(step.fill, b);
      if !ok {
        failure := true;
      }
      if !ColumnFails(step) && PivotEliminates(u0, dim, j, step) && DoneColumns(u0, dim, j) {
        SwapsKeepDone(u0, dim, j, pi, pj);
        if step.fill.EtaFor? {
          EliminationFinishesColumn(v, dim, j);
        } else {
          UnitColumnIsDone(v, dim, j);
        }
      }
    }

    /** pivot_in_dense_mode(i): the dense submatrix's pivot column for row
        `i` is `col`, -1 when there is none. */
    method PivotInDenseMode(i: nat, col: int)
      requires Valid() && i < dim && -1 <= col < dim
      modifies this
      ensures Valid()
      ensures failure == (old(failure) || col == -1)
      ensures col != -1 && i != col ==> r == TransposeFromRight(old(r), dim, i, col)
      ensures col == -1 || i == col ==> r == old(r)
      ensures Represented(u, q, r, dim) == Represented(old(u), old(q), old(r), dim)
      ensures status == old(status) && tail == old(tail) && q == old(q)
      ensures refactorCounter == old(refactorCounter) && pivotsEliminate == old(pivotsEliminate)
    {
      if col == -1 {
        failure := true;
        return;
      }
      if i != col {
        SwapColumns(i, col);
      }
    }

    /** create_initial_factorization: the sparse loop over the columns,
        which stops at the first failure or when U becomes too dense, then
        the dense loop over the remaining rows, whose submatrix goes to the
        tail. */
    method CreateInitialFactorization(steps: seq<ColumnStep>, denseCols: seq<int>, dense: TailMatrix,
                                      ghost b: seq<seq<real>>)
      requires Valid() && status == Ok && !failure
      requires |steps| == dim && forall k | 0 <= k < dim :: StepFits(steps[k], dim)
      requires |denseCols| == dim && forall k | 0 <= k < dim :: -1 <= denseCols[k] < dim
      requires dense.DenseBlock? && WellFormed(dense, dim)
      modifies this
      ensures Valid()
      ensures SparsePhase(steps, dim, settings.densityThreshold, 0).FailedAt? ==>
        status == Degenerated && refactorCounter == old(refactorCounter)
      ensures SparsePhase(steps, dim, settings.densityThreshold, 0).AllSparse? ==>
        status == Ok && refactorCounter == old(refactorCounter) && AppendsEtas(old(tail), tail)
      ensures var f := SparsePhase(steps, dim, settings.densityThreshold, 0);
        f.DenseAfter? && DenseFails(denseCols, f.b + 1) ==>
          status == Degenerated && refactorCounter == old(refactorCounter)
      ensures var f := SparsePhase(steps, dim, settings.densityThreshold, 0);
        f.DenseAfter? && !DenseFails(denseCols, f.b + 1) ==>
          status == Ok && refactorCounter == 0 && |tail| > 0
          && exists mid :: AppendsEtas(old(tail), mid) && tail == mid + [Conjugate(dense, q, dim)]
      ensures old(Factors(tail, q, u, r, dim, b)) ==> Factors(tail, q, u, r, dim, b)
      ensures SparsePhase(steps, dim, settings.densityThreshold, 0).AllSparse? && pivotsEliminate ==> UnitUpper(u, dim)
    {
      SparsePhaseStopsAtFirstFailure(steps, dim, settings.densityThreshold, 0);
      ghost var factored := Factors(tail, q, u, r, dim, b);
      var j := 0;
      while j < dim
        invariant 0 <= j <= dim && Valid() && status == Ok && !failure
        invariant SparsePhase(steps, dim, settings.densityThreshold, j)
               == SparsePhase(steps, dim, settings.densityThreshold, 0)
        invariant refactorCounter == old(refactorCounter)
        invariant AppendsEtas(old(tail), tail)
        invariant factored ==> Factors(tail, q, u, r, dim, b)
        invariant pivotsEliminate ==> DoneColumns(u, dim, j)
      {
        ghost var before := tail;
        ghost var eliminates := PivotEliminates(u, dim, j, steps[j]);
        ProcessColumn(j, steps[j], b);
        pivotsEliminate := pivotsEliminate && eliminates;
        AppendsEtasTrans(old(tail), before, tail);
        if failure {
          status := Degenerated;
          return;
        }
        if TooDenseAsWritten(dim, j, settings.densityThreshold, steps[j].active) {
          break;
        }
        j := j + 1;
      }
      if j == dim {
        if pivotsEliminate {
          AllDoneIsUnitUpper(u, dim);
        }
        return;
      }
      assert SparsePhase(steps, dim, settings.densityThreshold, 0) == DenseAfter(j);
      FactorRestInDenseMode(j, denseCols, dense, b);
    }

    /** The dense part of create_initial_factorization once column `b` made
        U too dense: every later row pivots in dense mode, the dense
        submatrix's factor is multiplied into U and, conjugated by Q, closes
        the tail; the tail applied to B still gives Q U R. */
    method FactorRestInDenseMode(b: nat, denseCols: seq<int>, dense: TailMatrix, ghost bm: seq<seq<real>>)
      requires Valid() && status == Ok && !failure && b < dim
      requires |denseCols| == dim && forall k | 0 <= k < dim :: -1 <= denseCols[k] < dim
      requires dense.DenseBlock? && WellFormed(dense, dim)
      modifies this
      ensures Valid()
      ensures DenseFails(denseCols, b + 1) ==>
        status == Degenerated && failure && tail == old(tail) && refactorCounter == old(refactorCounter)
      ensures !DenseFails(denseCols, b + 1) ==>
        status == Ok && refactorCounter == 0 && tail == old(tail) + [Conjugate(dense, q, dim)]
      ensures old(Factors(tail, q, u, r, dim, bm)) ==> Factors(tail, q, u, r, dim, bm)
      ensures pivotsEliminate == old(pivotsEliminate)
    {
      ghost var factored := Factors(tail, q, u, r, dim, bm);
      var j := b + 1;
      while j < dim
        invariant b + 1 <= j <= dim && Valid() && status == Ok && !failure
        invariant forall i | b + 1 <= i < j :: denseCols[i] != -1
        invariant refactorCounter == old(refactorCounter) && tail == old(tail)
        invariant factored ==> Factors(tail, q, u, r, dim, bm)
        invariant pivotsEliminate == old(pivotsEliminate)
      {
        ghost var q0, u0, r0 := q, u, r;
        PivotInDenseMode(j, denseCols[j]);
        if factored {
          RepresentedFactors(tail, q0, u0, r0, dim, bm, q, u, r);
        }
        if failure {
          status := Degenerated;
          return;
        }
        j := j + 1;
      }
      if factored {
        PushedFactors(tail, q, u, r, dim, bm, dense);
      }
      var t := Conjugate(dense, q, dim);
      assert AllWellFormed(tail + [t], dim);
      u := MultiplyLeft(dense, u, dim);
      tail := tail + [t];
      refactorCounter := 0;
    }

    // -------------------------------------------------------------------------
    // Column replacement (Suhl-Suhl)

    /** calculate_r_wave_and_update_U: r_wave sends column s to the end of
        the bump and shifts s+1 .. e one place left; U is permuted by it on
        both sides. */
    method CalculateRWaveAndUpdateU(s: nat, e: nat)
      requires IsMatrix(u, dim) && s < dim && e < dim && rWave == Identity(dim)
      modifies this
      ensures s > e ==> status == Degenerated && rWave == old(rWave) && u == old(u)
      ensures s == e ==> status == old(status) && rWave == old(rWave) && u == old(u)
      ensures s < e ==> status == old(status) && rWave == RWave(dim, s, e) && u == RotateBump(old(u), dim, s, e)
      ensures IsPermutation(rWave, dim) && IsMatrix(u, dim)
      ensures q == old(q) && r == old(r) && tail == old(tail)
      ensures failure == old(failure) && refactorCounter == old(refactorCounter)
    {
      if s > e {
        status := Degenerated;
        return;
      }
      if s == e {
        return;
      }
      var fwd := rWave.fwd[s := e];
      var rev := rWave.rev[e := s];
      var i := s + 1;
      while i <= e
        invariant s + 1 <= i <= e + 1
        invariant |fwd| == dim && |rev| == dim
        invariant forall k | 0 <= k < dim ::
          fwd[k] == (if k == s then e else if s < k < i then k - 1 else k)
        invariant forall k | 0 <= k < dim ::
          rev[k] == (if k == e then s else if s <= k < i - 1 then k + 1 else k)
      {
        fwd := fwd[i := i - 1];
        rev := rev[i - 1 := i];
        i := i + 1;
      }
      assert fwd == RWave(dim, s, e).fwd;
      assert rev == RWave(dim, s, e).rev;
      rWave := Perm(fwd, rev);
      u := RotateBump(u, dim, s, e);
    }

    /** scan_last_row_to_work_vector(e): the clean work vector receives
        row `e` of U, negated left of column `e`. */
    method ScanLastRowToWorkVector(e: nat)
      requires IsMatrix(u, dim) && e < dim
      requires work.data == seq(dim, _ => 0.0) && work.index == []
      modifies work
      ensures work.data == ScanRow(u[e], e)
      ensures work.IsOK()
    {
      var row := u[e];
      var c := 0;
      while c < dim
        invariant 0 <= c <= dim && |work.data| == dim
        invariant forall k | 0 <= k < dim :: work.data[k] == (if k < c then ScanRow(row, e)[k] else 0.0)
        invariant work.IsOK()
        invariant forall k | 0 <= k < |work.index| :: work.index[k] < c
      {
        if row[c] != 0.0 {
          if c < e {
            work.SetValue(-row[c], c);
          } else {
            work.SetValue(row[c], c);
          }
        }
        c := c + 1;
      }
      assert work.data == ScanRow(row, e);
    }

    /** One pass of the outer loop of pivot_and_solve_the_system: row `j`
        of U, scaled by the work vector's value at `j`, is subtracted left
        of `e` and added from `e` on; sums below the drop tolerance are
        zeroed and unlisted. */
    method EliminateWithRow(j: nat, e: nat)
      requires IsMatrix(u, dim) && j < dim && |work.data| == dim && Covers(work.data, work.index)
      modifies work
      ensures work.data == Eliminate(old(work.data), u[j], j, e, settings)
      ensures Covers(work.data, work.index)
      ensures DropTestExcludesZero(settings) && old(work.IsOK()) ==> work.IsOK()
    {
      var v := work.data[j];
      if v == 0.0 {
        return;
      }
      var row := u[j];
      ghost var x := work.data;
      ghost var ok := work.IsOK();
      var c := 0;
      while c < dim
        invariant 0 <= c <= dim && |work.data| == dim
        invariant forall k | 0 <= k < dim ::
          work.data[k] == (if k < c then Eliminate(x, row, j, e, settings)[k] else x[k])
        invariant Covers(work.data, work.index)
        invariant DropTestExcludesZero(settings) && ok ==> work.IsOK()
      {
        if c != j && row[c] != 0.0 {
          var delta := if c < e then (-v) * row[c] else v * row[c];
          AddDeltaAt(c, delta);
        }
        c := c + 1;
      }
      assert work.data == Eliminate(x, row, j, e, settings);
    }

    /** The update of one work vector position in
        pivot_and_solve_the_system: a zero position receives `delta` unless
        it is below the drop tolerance; a non-zero one is incremented, and
        a sum below the drop tolerance is zeroed and unlisted. */
    method AddDeltaAt(c: nat, delta: real)
      requires c < |work.data| && Covers(work.data, work.index)
      modifies work
      ensures work.data == old(work.data)[c := Clean(settings, old(work.data)[c] + delta)]
      ensures Covers(work.data, work.index)
      ensures DropTestExcludesZero(settings) && old(work.IsOK()) ==> work.IsOK()
    {
      if work.data[c] == 0.0 {
        if !SmallerThanDrop(settings, delta) {
          work.SetValue(delta, c);
        }
      } else {
        var t := work.data[c] + delta;
        work.data := work.data[c := t];
        if SmallerThanDrop(settings, t) {
          ghost var listed := work.index;
          work.data := work.data[c := 0.0];
          work.EraseFromIndex(c);
          assert forall k | 0 <= k < |work.index| :: work.index[k] in listed;
        }
      }
    }

    /** pivot_and_solve_the_system(s, e): rows s .. e-1 of U eliminate the
        work vector left of `e`. */
    method PivotAndSolveTheSystem(s: nat, e: nat)
      requires IsMatrix(u, dim) && s < dim && e < dim
      requires |work.data| == dim && Covers(work.data, work.index)
      modifies work
      ensures s <= e ==> work.data == SolveTo(old(work.data), u, dim, s, e, e, settings)
      ensures s > e ==> work.data == old(work.data)
      ensures Covers(work.data, work.index)
      ensures DropTestExcludesZero(settings) && old(work.IsOK()) ==> work.IsOK()
    {
      ghost var x := work.data;
      ghost var ok := work.IsOK();
      var j := s;
      while j < e
        invariant s <= e ==> s <= j <= e
        invariant s > e ==> j == s && work.data == x
        invariant |work.data| == dim && Covers(work.data, work.index)
        invariant s <= j ==> work.data == SolveTo(x, u, dim, s, e, j, settings)
        invariant DropTestExcludesZero(settings) && ok ==> work.IsOK()
      {
        EliminateWithRow(j, e);
        j := j + 1;
      }
    }

    /** The final loop of get_row_eta_matrix_and_set_row_vector: every
        listed non-zero position left of `e` is zeroed, and kept as an entry
        of the row eta matrix unless it is below the drop tolerance. */
    method CollectRowEta(e: nat) returns (entries: seq<Entry>)
      requires forall i | 0 <= i < |work.index| :: work.index[i] < |work.data|
      modifies work
      ensures work.index == old(work.index)
      ensures EtaScan(entries, work.data) == CollectTo(old(work.data), work.index, e, settings, |work.index|)
    {
      ghost var x := work.data;
      var index := work.index;
      entries := [];
      var k := 0;
      while k < |index|
        invariant 0 <= k <= |index| && work.index == index
        invariant EtaScan(entries, work.data) == CollectTo(x, index, e, settings, k)
      {
        var j := index[k];
        if j < e {
          var v := work.data[j];
          if v != 0.0 {
            if !SmallerThanDrop(settings, v) {
              entries := entries + [Entry(j, v)];
            }
            work.data := work.data[j := 0.0];
          }
        }
        k := k + 1;
      }
    }

    /** get_row_eta_matrix_and_set_row_vector(s, e, p): no row eta when the
        bump is a single column; otherwise the bump row is solved in the
        work vector, and its part left of `e` leaves it as the row eta
        matrix (values below the drop tolerance are discarded). */
    method GetRowEtaMatrixAndSetRowVector(s: nat, e: nat, p: real) returns (eta: Option<TailMatrix>)
      requires IsMatrix(u, dim) && s < dim && e < dim
      requires work.data == seq(dim, _ => 0.0) && work.index == []
      modifies this, work
      ensures u == old(u) && q == old(q) && r == old(r) && rWave == old(rWave) && tail == old(tail)
      ensures |work.data| == dim && Covers(work.data, work.index)
      ensures s == e ==> eta == None && status == old(status) && work.data == old(work.data) && work.index == old(work.index)
      ensures var x := SolvedBumpRow(u, dim, s, e, settings);
        s != e && DiagonalDisagrees(settings, x[e], p) ==>
          eta == None && status == Degenerated && work.data == x
      ensures var x := SolvedBumpRow(u, dim, s, e, settings);
        s != e && !DiagonalDisagrees(settings, x[e], p) ==>
          && status == old(status) && eta.Some? && eta.value.RowEta? && eta.value.row == e
          && WellFormed(eta.value, dim)
          && work.data == EliminatedRow(x, e)
          && eta.value == RowEta(e, eta.value.entries) && RowEtaEntries(eta.value.entries, x, e, settings)
      ensures failure == old(failure) && refactorCounter == old(refactorCounter)
    {
      if s == e {
        return None;
      }
      ScanLastRowToWorkVector(e);
      PivotAndSolveTheSystem(s, e);
      ghost var x := work.data;
      assert x == SolvedBumpRow(u, dim, s, e, settings);
      if !settings.precise && p != 0.0 {
        var denom := PivotScale(p);
        if !SmallerThanPivot(settings, (work.data[e] - p) / denom) {
          status := Degenerated;
          return None;
        }
      }
      var entries := CollectRowEta(e);
      RowEtaExtraction(x, work.index, e, settings);
      RowEtaWellFormed(x, work.index, e, settings);
      assert work.data == EliminatedRow(x, e);
      eta := Some(RowEta(e, entries));
    }

    /** calculate_Lwave_Pwave_for_last_row(e, diag): the one-element
        diagonal matrix of `diag` at `e`, conjugated by Q, joins the tail
        and row `e` of U is divided by `diag`. */
    method CalculateLwavePwaveForLastRow(e: nat, diag: real)
      requires IsMatrix(u, dim) && IsPermutation(q, dim) && AllWellFormed(tail, dim)
      requires e < dim && diag != 0.0
      modifies this
      ensures q == old(q) && r == old(r) && rWave == old(rWave) && status == old(status)
      ensures tail == old(tail) + [Conjugate(OneElemOnDiag(e, diag), q, dim)] && AllWellFormed(tail, dim)
      ensures u == DivideRow(old(u), dim, e, diag)
      ensures failure == old(failure) && refactorCounter == old(refactorCounter)
    {
      var l := Conjugate(OneElemOnDiag(e, diag), q, dim);
      assert AllWellFormed(tail + [l], dim);
      tail := tail + [l];
      u := DivideRow(u, dim, e, diag);
    }

    /** calculate_Lwave_Pwave_for_bump(s, e): with a bump, row `e` of U
        becomes the work vector, which is cleaned; the new diagonal element
        must pass the pivot tolerance before row `e` is normalised. */
    method CalculateLwavePwaveForBump(s: nat, e: nat)
      requires IsMatrix(u, dim) && IsPermutation(q, dim) && AllWellFormed(tail, dim) && s < dim && e < dim
      requires |work.data| == dim && Covers(work.data, work.index) && PivotTestExcludesZero(settings)
      modifies this, work
      ensures q == old(q) && r == old(r) && rWave == old(rWave)
      ensures s < e ==> work.data == seq(dim, _ => 0.0) && work.index == []
      ensures s >= e ==> work.data == old(work.data) && work.index == old(work.index)
      ensures var v := BumpRowSet(old(u), dim, s, e, old(work.data));
        SmallerThanPivot(settings, v[e][e]) ==> status == Degenerated && u == v && tail == old(tail)
      ensures var v := BumpRowSet(old(u), dim, s, e, old(work.data));
        !SmallerThanPivot(settings, v[e][e]) ==>
          && v[e][e] != 0.0 && status == old(status) && u == DivideRow(v, dim, e, v[e][e])
          && tail == old(tail) + [Conjugate(OneElemOnDiag(e, v[e][e]), q, dim)]
      ensures IsMatrix(u, dim) && AllWellFormed(tail, dim)
      ensures failure == old(failure) && refactorCounter == old(refactorCounter)
    {
      var diag: real;
      if s < e {
        diag := work.data[e];
        // the listed positions go to row e of U and are zeroed; Covers makes
        // that the whole vector
        u := SetRow(u, dim, e, work.data);
        work.ClearAll();
      } else {
        diag := u[e][e];
      }
      if SmallerThanPivot(settings, diag) {
        status := Degenerated;
        return;
      }
      CalculateLwavePwaveForLastRow(e, diag);
    }

    /** transform_U_to_V_by_replacing_column(w, leaving): the column of U
        that holds basis column `leaving` receives `w`. */
    method TransformUToVByReplacingColumn(w: seq<real>, leaving: nat) returns (s: nat)
      requires IsMatrix(u, dim) && IsPermutation(q, dim) && IsPermutation(r, dim) && |w| == dim && leaving < dim
      modifies this
      ensures q == old(q) && r == old(r)
      ensures s == r.rev[leaving] && s < dim && u == Upper.ReplaceColumn(old(u), dim, s, w)
      ensures forall x, y | 0 <= x < dim && 0 <= y < dim ::
        Represented(u, q, r, dim)[x][y]
          == if y == leaving then w[q.fwd[x]] else Represented(old(u), q, r, dim)[x][y]
      ensures q == old(q) && r == old(r) && rWave == old(rWave) && tail == old(tail) && status == old(status)
      ensures failure == old(failure) && refactorCounter == old(refactorCounter)
    {
      s := r.rev[leaving];
      ReplaceColumnInRepresented(u, q, r, dim, leaving, w);
      u := Upper.ReplaceColumn(u, dim, s, w);
    }

    /** The part of replace_column up to the status check: column
        R.rev[leaving] of U receives `w`, the bump runs from it to the
        lowest non-zero row `e` of that column, r_wave rotates it, and the
        bump row is solved into the work vector and the row eta matrix. */
    method ReplaceAndSolveBump(pivotElem: real, w: seq<real>, leaving: nat)
      returns (s: nat, e: nat, rowEta: Option<TailMatrix>)
      requires Valid() && |w| == dim && leaving < dim
      modifies this, work
      ensures q == old(q) && r == old(r) && tail == old(tail)
      ensures failure == old(failure) && refactorCounter == old(refactorCounter)
      ensures s == r.rev[leaving] && s < dim
      ensures e == LowestRowInColumn(Upper.ReplaceColumn(old(u), dim, s, w), dim, s)
      ensures IsPermutation(rWave, dim) && IsMatrix(u, dim)
      ensures |work.data| == dim && Covers(work.data, work.index)
      ensures s <= e ==> rWave == Wave(dim, s, e) && u == Rotated(Upper.ReplaceColumn(old(u), dim, s, w), dim, s, e)
      ensures s > e ==> rWave == Identity(dim) && u == Upper.ReplaceColumn(old(u), dim, s, w)
      ensures status == Degenerated <==> BumpDegenerates(old(u), old(r), old(status), dim, w, leaving, settings, pivotElem)
      ensures status == Ok ==> s <= e && (rowEta.Some? <==> s < e)
      ensures status == Ok && rowEta.Some? ==>
        && WellFormed(rowEta.value, dim) && rowEta.value.RowEta? && rowEta.value.row == e
        && RowEtaEntries(rowEta.value.entries, SolvedBumpRow(u, dim, s, e, settings), e, settings)
        && work.data == EliminatedRow(SolvedBumpRow(u, dim, s, e, settings), e)
      ensures s == e ==> work.data == seq(dim, _ => 0.0) && work.index == []
    {
      s := TransformUToVByReplacingColumn(w, leaving);
      e := LowestRowInColumn(u, dim, s);
      rWave := Identity(dim);
      CalculateRWaveAndUpdateU(s, e);
      rowEta := GetRowEtaMatrixAndSetRowVector(s, e, pivotElem);
    }

    /** Q and R absorb r_wave, and the row eta matrix, conjugated by the new
        Q, joins the tail. */
    method PushRowEta(rowEta: Option<TailMatrix>)
      requires IsPermutation(q, dim) && IsPermutation(r, dim) && IsPermutation(rWave, dim)
      requires AllWellFormed(tail, dim) && (rowEta.Some? ==> WellFormed(rowEta.value, dim))
      modifies this
      ensures u == old(u) && rWave == old(rWave) && status == old(status)
      ensures q == MultiplyFromRight(old(q), rWave, dim) && r == MultiplyReverseFromLeft(old(r), rWave, dim)
      ensures tail == old(tail) + if rowEta.Some? then [Conjugate(rowEta.value, q, dim)] else []
      ensures AllWellFormed(tail, dim)
      ensures failure == old(failure) && refactorCounter == old(refactorCounter)
    {
      q := MultiplyFromRight(q, rWave, dim);
      r := MultiplyReverseFromLeft(r, rWave, dim);
      if rowEta.Some? {
        var t := Conjugate(rowEta.value, q, dim);
        assert AllWellFormed(tail + [t], dim);
        tail := tail + [t];
      }
    }

    /** The part of replace_column after the bump is known and has not
        degenerated: Q and R absorb r_wave, the row eta matrix (conjugated
        by the new Q) joins the tail, and the bump row is finished. */
    method AbsorbBump(s: nat, e: nat, rowEta: Option<TailMatrix>, ghost u0: seq<seq<real>>, ghost w: seq<real>,
                      ghost leaving: nat, ghost b: seq<seq<real>>, ghost col: seq<real>)
      requires IsMatrix(u, dim) && IsPermutation(q, dim) && IsPermutation(r, dim) && IsPermutation(rWave, dim)
      requires AllWellFormed(tail, dim) && s < dim && e < dim && (rowEta.Some? ==> WellFormed(rowEta.value, dim))
      requires |work.data| == dim && Covers(work.data, work.index) && PivotTestExcludesZero(settings)
      requires status == Ok
      requires IsMatrix(u0, dim) && |w| == dim && leaving < dim && s == r.rev[leaving]
      requires e == LowestRowInColumn(Upper.ReplaceColumn(u0, dim, s, w), dim, s)
      requires var v := Upper.ReplaceColumn(u0, dim, s, w);
        s <= e && rWave == Wave(dim, s, e) && u == Rotated(v, dim, s, e)
      requires s == e ==> rowEta.None?
      requires s < e ==>
        && rowEta.Some? && rowEta.value.RowEta? && rowEta.value.row == e
        && RowEtaEntries(rowEta.value.entries, SolvedBumpRow(u, dim, s, e, settings), e, settings)
        && work.data == EliminatedRow(SolvedBumpRow(u, dim, s, e, settings), e)
      modifies this, work
      ensures rWave == old(rWave) && failure == old(failure) && refactorCounter == old(refactorCounter)
      ensures s < e ==> work.data == seq(dim, _ => 0.0) && work.index == []
      ensures s >= e ==> work.data == old(work.data) && work.index == old(work.index)
      ensures IsMatrix(u, dim) && AllWellFormed(tail, dim) && IsPermutation(q, dim) && IsPermutation(r, dim)
      ensures AbsorbedAs(old(q), old(r), old(tail), Upper.ReplaceColumn(u0, dim, s, w), dim, s, e, settings,
                         q, r, rWave, u, tail, status)
      ensures UnitUpper(u0, dim) && status == Ok ==> UnitUpper(u, dim)
      ensures settings.precise && status == Ok && UnitUpper(u0, dim) && Factors(old(tail), old(q), u0, old(r), dim, b)
              && |col| == dim && Permute(w, old(q), dim) == TailLeft(old(tail), col) ==>
        Factors(tail, q, u, r, dim, Upper.ReplaceColumn(b, dim, leaving, col))
    {
      ghost var v := Upper.ReplaceColumn(u0, dim, s, w);
      ghost var q0, r0, tail0, row := q, r, tail, work.data;
      PushRowEta(rowEta);
      ghost var tail1, bv := tail, BumpRowSet(u, dim, s, e, work.data);
      CalculateLwavePwaveForBump(s, e);
      AbsorbedAsHolds(q0, r0, tail0, v, dim, s, e, settings, rowEta, row, tail1, bv, q, r, rWave, u, tail, status);
      AbsorbedKeeps(tail0, q0, u0, r0, dim, b, leaving, col, w, settings, q, r, rWave, u, tail, status);
    }

    /** replace_column(p, w, leaving): the Suhl-Suhl update of the
        factorisation when basis column `leaving` is replaced by `w`.  The
        ghost `b` and `col` are the basis matrix the factorisation stands
        for and the entering column whose transformed form `w` is. */
    method ReplaceColumn(pivotElem: real, w: seq<real>, leaving: nat, ghost b: seq<seq<real>>, ghost col: seq<real>)
      requires Valid() && |w| == dim && leaving < dim
      modifies this, work
      ensures Valid()
      ensures refactorCounter == old(refactorCounter) + 1
      ensures status == Ok ==> old(status) == Ok
      ensures old(status) == Ok && old(UnitUpper(u, dim)) && status == Ok ==> UnitUpper(u, dim)
      ensures old(BumpDegenerates(u, r, status, dim, w, leaving, settings, pivotElem)) ==>
        status == Degenerated && q == old(q) && r == old(r) && tail == old(tail)
        && work.data == seq(dim, _ => 0.0) && work.index == []
      ensures var s := old(r.rev[leaving]);
        var v := Upper.ReplaceColumn(old(u), dim, s, w);
        var e := LowestRowInColumn(v, dim, s);
        old(BumpDegenerates(u, r, status, dim, w, leaving, settings, pivotElem)) ==>
          && u == (if s <= e then Rotated(v, dim, s, e) else v)
          && rWave == (if s <= e then Wave(dim, s, e) else Identity(dim))
      ensures var s := old(r.rev[leaving]);
        var v := Upper.ReplaceColumn(old(u), dim, s, w);
        var e := LowestRowInColumn(v, dim, s);
        !old(BumpDegenerates(u, r, status, dim, w, leaving, settings, pivotElem)) ==>
          s <= e && AbsorbedAs(old(q), old(r), old(tail), v, dim, s, e, settings, q, r, rWave, u, tail, status)
      ensures settings.precise && status == Ok && old(UnitUpper(u, dim)) && old(Factors(tail, q, u, r, dim, b))
              && |col| == dim && Permute(w, old(q), dim) == old(TailLeft(tail, col)) ==>
        Factors(tail, q, u, r, dim, Upper.ReplaceColumn(b, dim, leaving, col))
    {
      ghost var u0 := u;
      refactorCounter := refactorCounter + 1;
      var s, e, rowEta := ReplaceAndSolveBump(pivotElem, w, leaving);
      if status == Degenerated {
        work.ClearAll();
        return;
      }
      AbsorbBump(s, e, rowEta, u0, w, leaving, b, col);
    }

    // -------------------------------------------------------------------------
    // Solves: the passes over the tail

    /** apply_lp_list_to_y: every tail matrix applied from the left, oldest
        first. */
    method ApplyLpListToY(y: seq<real>) returns (z: seq<real>)
      requires AllWellFormed(tail, |y|)
      ensures z == TailLeft(tail, y)
    {
      var ts := tail;
      z := y;
      var i := 0;
      while i < |ts|
        invariant 0 <= i <= |ts| && AllWellFormed(ts[..i], |y|)
        invariant z == TailLeft(ts[..i], y)
      {
        assert ts[..i + 1] == ts[..i] + [ts[i]];
        TailLeftAppend(ts[..i], ts[i], y);
        z := ApplyLeft(ts[i], z);
        i := i + 1;
      }
      assert ts[..|ts|] == ts;
    }

    /** apply_from_left_to_T of one tail matrix on an indexed vector: the
        one-element diagonal matrix as in its own method; the other kinds
        apply exactly and rebuild the index from the data. */
    method ApplyFromLeftToT(t: TailMatrix, w: IndexedVector)
      requires WellFormed(t, |w.data|)
      modifies w
      ensures |w.data| == old(|w.data|)
      ensures settings.precise ==> w.data == ApplyLeft(t, old(w.data))
      ensures old(w.IsOK()) ==> w.IsOK()
    {
      match t
      case OneElemOnDiag(i, v) =>
        OneElemApplyToIndexed(i, v, w, settings);
      case _ =>
        w.data := ApplyLeft(t, w.data);
        w.index := NonZeroPositionsDown(w.data, 0, |w.data|);
    }

    /** apply_lp_list_to_w: the tail applied to an indexed vector from the
        left, oldest first. */
    method ApplyLpListToW(w: IndexedVector)
      requires AllWellFormed(tail, |w.data|)
      modifies w
      ensures |w.data| == old(|w.data|)
      ensures settings.precise ==> w.data == TailLeft(tail, old(w.data))
      ensures old(w.IsOK()) ==> w.IsOK()
    {
      ghost var d := w.data;
      ghost var ok := w.IsOK();
      var i := 0;
      while i < |tail|
        invariant 0 <= i <= |tail| && |w.data| == |d| && AllWellFormed(tail[..i], |d|)
        invariant settings.precise ==> w.data == TailLeft(tail[..i], d)
        invariant ok ==> w.IsOK()
      {
        assert tail[..i + 1] == tail[..i] + [tail[i]];
        TailLeftAppend(tail[..i], tail[i], d);
        ApplyFromLeftToT(tail[i], w);
        i := i + 1;
      }
      assert tail[..|tail|] == tail;
    }

    /** The tail loop of solve_yB: every tail matrix applied from the right,
        newest first. */
    method SolveYBTail(y: seq<real>) returns (z: seq<real>)
      requires AllWellFormed(tail, |y|)
      ensures z == TailRight(tail, y)
    {
      var ts := tail;
      z := y;
      var k := |ts|;
      while k > 0
        invariant 0 <= k <= |ts| && AllWellFormed(ts[k..], |y|)
        invariant z == TailRight(ts[k..], y)
      {
        k := k - 1;
        assert ts[k..][1..] == ts[k + 1..];
        z := ApplyRight(ts[k], z);
      }
    }

    /** The end of solve_By_when_y_is_ready_for_T, once U has been solved
        and R applied: in the exact regime the non-zero positions are listed
        from the last down; otherwise values below the drop tolerance are
        zeroed first. */
    method ListNonZerosOfSolution(y: seq<real>, index: seq<nat>) returns (y': seq<real>, index': seq<nat>)
      requires |y| == dim
      ensures y' == DropSmall(settings, y)
      ensures index' == index + NonZeroPositionsDown(y', 0, dim)
      ensures index == [] ==> IndexMatches(y', index')
    {
      ghost var target := DropSmall(settings, y);
      y' := y;
      index' := index;
      var j := dim;
      while j > 0
        invariant 0 <= j <= dim && |y'| == dim
        invariant forall i | 0 <= i < dim :: y'[i] == if i < j then y[i] else target[i]
        invariant index' == index + NonZeroPositionsDown(target, j, dim)
      {
        j := j - 1;
        var v := y'[j];
        if settings.precise {
          if v != 0.0 {
            index' := index' + [j];
          }
        } else if v != 0.0 {
          if SmallerThanDrop(settings, v) {
            y' := y'[j := 0.0];
          } else {
            index' := index' + [j];
          }
        }
      }
      assert y' == target;
    }

    // -------------------------------------------------------------------------
    // Solves: iterative refinement

    /** add_delta_to_solution: the correction added coordinate by
        coordinate, from the last down. */
    method AddDeltaToSolution(yc: seq<real>, y: seq<real>) returns (z: seq<real>)
      requires |y| <= |yc|
      ensures |z| == |y| && forall k | 0 <= k < |y| :: z[k] == y[k] + yc[k]
    {
      z := y;
      var i := |y|;
      while i > 0
        invariant 0 <= i <= |y| && |z| == |y|
        invariant forall k | 0 <= k < |y| :: z[k] == if k < i then y[k] else y[k] + yc[k]
      {
        i := i - 1;
        z := z[i := z[i] + yc[i]];
      }
    }

    /** find_error_of_yB: from every coordinate of `yc` the product of `y`
        with the matching basic column of A is subtracted, from the last
        down. */
    method FindErrorOfYB(yc: seq<real>, y: seq<real>, basis: seq<nat>) returns (err: seq<real>)
      requires Valid()
      requires |yc| == dim && |y| == dim && |basis| == dim
      requires forall i | 0 <= i < dim :: HasColumn(a, basis[i])
      ensures |err| == dim
      ensures forall i | 0 <= i < dim :: err[i] == yc[i] - ColumnDot(a, y, basis[i], dim)
    {
      err := yc;
      var i := dim;
      while i > 0
        invariant 0 <= i <= dim && |err| == dim
        invariant forall k | 0 <= k < dim :: err[k] == if k < i then yc[k] else yc[k] - ColumnDot(a, y, basis[k], dim)
      {
        i := i - 1;
        err := err[i := err[i] - ColumnDot(a, y, basis[i], dim)];
      }
    }

    /** The first half of add_delta_to_solution_indexed: m_ii marks the
        positions `y` lists, then the correction in m_y_copy is added to `y`
        at the positions it lists, m_ii marking them too. */
    method AddDeltaAndMarkUnion(y: IndexedVector)
      requires y != yCopy && y != ii && yCopy != ii
      requires y.IsOK() && yCopy.IsOK() && ii.IsOK() && |yCopy.data| == |y.data|
      modifies y, ii
      ensures y.index == old(y.index) && |y.data| == old(|y.data|)
      ensures forall p | 0 <= p < |y.data| :: y.data[p] == old(y.data[p]) + yCopy.data[p]
      ensures ii.IsOK() && |ii.data| == |y.data|
      ensures forall p | 0 <= p < |y.data| :: p in ii.index <==> p in old(y.index) || p in yCopy.index
    {
      var n := |y.data|;
      ii.Clear();
      ii.Resize(n);
      var listed := y.index;
      var k := 0;
      while k < |listed|
        invariant 0 <= k <= |listed| && |ii.data| == n && ii.IsOK()
        invariant forall p | 0 <= p < n :: p in ii.index <==> p in listed[..k]
        modifies ii
      {
        assert listed[k] !in listed[..k];
        ii.SetValue(1.0, listed[k]);
        assert listed[..k + 1] == listed[..k] + [listed[k]];
        k := k + 1;
      }
      assert listed[..k] == listed;
      ghost var y0 := y.data;
      var delta := yCopy.index;
      k := 0;
      while k < |delta|
        invariant 0 <= k <= |delta| && |ii.data| == n && |y.data| == n && ii.IsOK() && y.index == listed
        invariant forall p | 0 <= p < n :: p in ii.index <==> p in listed || p in delta[..k]
        invariant forall p | 0 <= p < n :: y.data[p] == y0[p] + if p in delta[..k] then yCopy.data[p] else 0.0
      {
        var i := delta[k];
        assert i !in delta[..k];
        y.data := y.data[i := y.data[i] + yCopy.data[i]];
        ii.Mark(i);
        assert delta[..k + 1] == delta[..k] + [i];
        k := k + 1;
      }
      assert delta[..k] == delta;
    }

    /** add_delta_to_solution_indexed: the correction held in m_y_copy is
        added to `y`, m_ii collecting the union of both indices; the index
        of `y` is rebuilt from that union, sums within SolutionEps of zero
        being zeroed and left out. */
    method AddDeltaToSolutionIndexed(y: IndexedVector)
      requires y != yCopy && y != ii && yCopy != ii
      requires y.IsOK() && yCopy.IsOK() && ii.IsOK() && |yCopy.data| == |y.data|
      modifies y, ii
      ensures |y.data| == old(|y.data|) && y.IsOK() && ii.IsOK()
      ensures forall i | 0 <= i < |y.data| :: y.data[i] == DropEps(settings.precise, old(y.data[i]) + yCopy.data[i])
      ensures forall i | 0 <= i < |y.data| ::
        i in y.index <==> (i in old(y.index) || i in yCopy.index) && !EpsSmall(settings.precise, old(y.data[i]) + yCopy.data[i], SolutionEps)
    {
      ghost var y0 := y.data;
      ghost var i0 := y.index;
      var n := |y.data|;
      AddDeltaAndMarkUnion(y);
      ghost var sum := y.data;
      y.index := [];
      var members := ii.index;
      var k := 0;
      while k < |members|
        invariant 0 <= k <= |members| && |y.data| == n
        invariant forall p | 0 <= p < n :: y.data[p] == if p in members[..k] then DropEps(settings.precise, sum[p]) else sum[p]
        invariant NoDup(y.index) && forall q | 0 <= q < |y.index| :: y.index[q] < n
        invariant forall p | 0 <= p < n :: p in y.index <==> p in members[..k] && !EpsSmall(settings.precise, sum[p], SolutionEps)
        modifies y
      {
        var i := members[k];
        assert i !in members[..k];
        var v := y.data[i];
        if !EpsSmall(settings.precise, v, SolutionEps) {
          y.index := y.index + [i];
        } else if v != 0.0 {
          y.data := y.data[i := 0.0];
        }
        assert members[..k + 1] == members[..k] + [i];
        k := k + 1;
      }
      assert members[..k] == members;
    }

    /** The inner loop of find_error_of_yB_indexed for row `k` of A: each
        stored entry whose column is basic is taken, times `yk`, from
        m_y_copy at its basis position, which m_ii marks. */
    method SubtractRowShare(k: nat, yk: real, heading: seq<int>)
      requires Valid() && k < dim && RowsFit(a, heading) && forall j | 0 <= j < |heading| :: heading[j] < dim
      requires |yCopy.data| == dim && |ii.data| == dim && ii.IsOK()
      modifies yCopy, ii
      ensures yCopy.index == old(yCopy.index) && |yCopy.data| == dim && |ii.data| == dim && ii.IsOK()
      ensures forall h | 0 <= h < dim :: yCopy.data[h] == old(yCopy.data[h]) - RowShare(a[k], yk, heading, h, |a[k]|)
      ensures forall h | 0 <= h < dim && h in old(ii.index) :: h in ii.index
      ensures forall h | 0 <= h < dim && h !in ii.index :: RowShare(a[k], yk, heading, h, |a[k]|) == 0.0
    {
      var row := a[k];
      var j := 0;
      while j < |row|
        invariant 0 <= j <= |row|
        invariant yCopy.index == old(yCopy.index) && |yCopy.data| == dim && |ii.data| == dim && ii.IsOK()
        invariant forall h | 0 <= h < dim :: yCopy.data[h] == old(yCopy.data[h]) - RowShare(row, yk, heading, h, j)
        invariant forall h | 0 <= h < dim && h in old(ii.index) :: h in ii.index
        invariant forall h | 0 <= h < dim && h !in ii.index :: RowShare(row, yk, heading, h, j) == 0.0
      {
        var hj := heading[j];
        if 0 <= hj && row[j] != 0.0 {
          ii.Mark(hj);
          yCopy.data := yCopy.data[hj := yCopy.data[hj] - row[j] * yk];
        }
        j := j + 1;
      }
    }

    /** The first loop of find_error_of_yB_indexed: m_ii is cleared, then
        every row of A listed in `y` is taken from m_y_copy. */
    method SubtractListedRows(y: IndexedVector, heading: seq<int>)
      requires Valid() && y != yCopy && y != ii
      requires |y.data| == dim && ListsRows(y.index, dim)
      requires RowsFit(a, heading) && forall j | 0 <= j < |heading| :: heading[j] < dim
      requires |yCopy.data| == dim && ii.IsOK()
      modifies yCopy, ii
      ensures yCopy.index == old(yCopy.index) && |yCopy.data| == dim && |ii.data| == dim && ii.IsOK()
      ensures forall h | 0 <= h < dim :: yCopy.data[h] == old(yCopy.data[h]) - Share(a, y.data, y.index, heading, h)
      ensures forall h | 0 <= h < dim && h !in ii.index :: Share(a, y.data, y.index, heading, h) == 0.0
    {
      ii.Clear();
      ii.Resize(|y.data|);
      var rows := y.index;
      var t := 0;
      while t < |rows|
        invariant 0 <= t <= |rows| && ListsRows(rows[..t], dim)
        invariant yCopy.index == old(yCopy.index) && |yCopy.data| == dim && |ii.data| == dim && ii.IsOK()
        invariant forall h | 0 <= h < dim :: yCopy.data[h] == old(yCopy.data[h]) - Share(a, y.data, rows[..t], heading, h)
        invariant forall h | 0 <= h < dim && h !in ii.index :: Share(a, y.data, rows[..t], heading, h) == 0.0
      {
        var k := rows[t];
        SubtractRowShare(k, y.data[k], heading);
        assert rows[..t + 1] == rows[..t] + [k];
        forall h | 0 <= h < dim
          ensures Share(a, y.data, rows[..t + 1], heading, h)
               == Share(a, y.data, rows[..t], heading, h) + RowShare(a[k], y.data[k], heading, h, |a[k]|)
        {
          ShareAppend(a, y.data, rows[..t], k, heading, h);
        }
        t := t + 1;
      }
      assert rows[..t] == rows;
    }

    /** find_error_of_yB_indexed: the rows of A listed in `y`, times their
        coordinates, are taken from m_y_copy at the basis positions their
        columns head; m_ii collects those positions and the index of
        m_y_copy; that index is then rebuilt from m_ii, values below the
        drop tolerance of `st` being zeroed and left out. */
    method FindErrorOfYBIndexed(y: IndexedVector, heading: seq<int>, st: LpSettings)
      requires Valid() && y != yCopy && y != ii
      requires |y.data| == dim && ListsRows(y.index, dim)
      requires RowsFit(a, heading) && forall j | 0 <= j < |heading| :: heading[j] < dim
      requires yCopy.IsOK() && |yCopy.data| == dim && ii.IsOK()
      modifies yCopy, ii
      ensures |yCopy.data| == dim && ii.IsOK()
      ensures forall h | 0 <= h < dim ::
        yCopy.data[h] == Clean(st, old(yCopy.data[h]) - Share(a, y.data, y.index, heading, h))
      ensures Covers(yCopy.data, yCopy.index) && NoDup(yCopy.index)
      ensures DropTestExcludesZero(st) ==> yCopy.IsOK()
    {
      ghost var c0 := yCopy.data;
      SubtractListedRows(y, heading);
      var listed := yCopy.index;
      var t := 0;
      while t < |listed|
        invariant 0 <= t <= |listed| && |ii.data| == dim && ii.IsOK()
        invariant forall h | 0 <= h < dim && h !in ii.index :: Share(a, y.data, y.index, heading, h) == 0.0
        invariant forall q | 0 <= q < t :: listed[q] in ii.index
        modifies ii
      {
        ii.Mark(listed[t]);
        t := t + 1;
      }
      CleanMarkedCopy(st);
    }

    /** The last loop of find_error_of_yB_indexed: the index of m_y_copy is
        rebuilt from the positions m_ii marks, values below the drop
        tolerance being zeroed and left out; unmarked positions hold zero. */
    method CleanMarkedCopy(st: LpSettings)
      requires yCopy != ii && |yCopy.data| == dim && |ii.data| == dim && ii.IsOK()
      requires forall h | 0 <= h < dim && h !in ii.index :: yCopy.data[h] == 0.0
      modifies yCopy
      ensures |yCopy.data| == dim
      ensures forall h | 0 <= h < dim :: yCopy.data[h] == Clean(st, old(yCopy.data[h]))
      ensures Covers(yCopy.data, yCopy.index) && NoDup(yCopy.index)
      ensures DropTestExcludesZero(st) ==> yCopy.IsOK()
    {
      ghost var v0 := yCopy.data;
      yCopy.index := [];
      var members := ii.index;
      var t := 0;
      while t < |members|
        invariant 0 <= t <= |members| && |yCopy.data| == dim
        invariant forall h | 0 <= h < dim :: yCopy.data[h] == if h in members[..t] then Clean(st, v0[h]) else v0[h]
        invariant NoDup(yCopy.index) && forall q | 0 <= q < |yCopy.index| :: yCopy.index[q] < dim
        invariant forall h | 0 <= h < dim :: h in yCopy.index <==> h in members[..t] && !SmallerThanDrop(st, v0[h])
      {
        var i := members[t];
        assert i !in members[..t];
        var v := yCopy.data[i];
        if SmallerThanDrop(st, v) {
          yCopy.data := yCopy.data[i := 0.0];
        } else {
          yCopy.SetValue(v, i);
        }
        assert members[..t + 1] == members[..t] + [i];
        t := t + 1;
      }
      assert members[..t] == members;
    }
  }
}
