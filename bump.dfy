/** The Suhl-Suhl update of the bump row, as values: what
    scan_last_row_to_work_vector, pivot_and_solve_the_system and
    get_row_eta_matrix_and_set_row_vector compute in the work vector, and
    why the row written back into U is the bump row eliminated by the
    row-eta matrix. */
module Bump {
  import opened Common
  import opened Vectors
  import opened Tail
  import opened Upper

  /** The work vector after scanning the bump row `row` into a clean work
      vector: entries left of `e` negated, the others as they are. */
  function ScanRow(row: seq<real>, e: nat): (x: seq<real>)
    ensures |x| == |row|
  {
    seq(|row|, c requires 0 <= c < |row| => if c < e then -row[c] else row[c])
  }

  /** A value that falls below the drop tolerance is replaced by zero. */
  function Clean(st: LpSettings, t: real): real {
    if SmallerThanDrop(st, t) then 0.0 else t
  }

  /** What pivoting on row `j` adds at column `c`: it solves for the
      multipliers left of `e` and updates the row to the right of it. */
  function Delta(v: real, a: real, c: nat, e: nat): real {
    if c < e then (-v) * a else v * a
  }

  /** One pass of the outer loop of pivot_and_solve_the_system with row `j`
      of U as `urow`: nothing happens when the work vector is zero at `j`;
      otherwise every other column where `urow` is non-zero receives its
      delta, and a sum that falls below the drop tolerance is dropped. */
  function Eliminate(x: seq<real>, urow: seq<real>, j: nat, e: nat, st: LpSettings): (r: seq<real>)
    requires |urow| == |x| && j < |x|
    ensures |r| == |x|
  {
    if x[j] == 0.0 then x
    else
      seq(|x|, c requires 0 <= c < |x| =>
        if c == j || urow[c] == 0.0 then x[c] else Clean(st, x[c] + Delta(x[j], urow[c], c, e)))
  }

  /** The work vector after the outer loop has processed rows s .. k-1. */
  function SolveTo(x: seq<real>, u: seq<seq<real>>, n: nat, s: nat, e: nat, k: nat, st: LpSettings): (r: seq<real>)
    requires |x| == n && IsMatrix(u, n) && s <= k <= n
    ensures |r| == n
    decreases k
  {
    if k == s then x else Eliminate(SolveTo(x, u, n, s, e, k - 1, st), u[k - 1], k - 1, e, st)
  }

  // ---------------------------------------------------------------------------
  // Extracting the row-eta matrix

  /** The row-eta entries gathered so far and the work vector as it stands. */
  datatype EtaScan = EtaScan(entries: seq<Entry>, data: seq<real>)

  /** One pass of the final loop of get_row_eta_matrix_and_set_row_vector
      over the listed position `j`. */
  function CollectStep(acc: EtaScan, j: nat, e: nat, st: LpSettings): (r: EtaScan)
    requires j < |acc.data|
    ensures |r.data| == |acc.data|
  {
    if j < e && acc.data[j] != 0.0 then
      EtaScan(if SmallerThanDrop(st, acc.data[j]) then acc.entries else acc.entries + [Entry(j, acc.data[j])],
              acc.data[j := 0.0])
    else acc
  }

  /** The loop after its first `k` listed positions. */
  function CollectTo(data: seq<real>, index: seq<nat>, e: nat, st: LpSettings, k: nat): (r: EtaScan)
    requires k <= |index| && forall i | 0 <= i < |index| :: index[i] < |data|
    ensures |r.data| == |data|
  {
    if k == 0 then EtaScan([], data) else CollectStep(CollectTo(data, index, e, st, k - 1), index[k - 1], e, st)
  }

  /** What the collecting loop has done after visiting the positions `seen`:
      a position left of `e` that was visited is zero and has an entry iff
      its value was non-zero and not dropped; everything else is as it was
      and has no entry. */
  ghost predicate Collected(acc: EtaScan, data: seq<real>, seen: seq<nat>, e: nat, st: LpSettings) {
    && |acc.data| == |data|
    && (forall i | 0 <= i < |data| ::
          acc.data[i] == (if i < e && i in seen then 0.0 else data[i]))
    && (forall t | t in acc.entries ::
          t.index < e && t.index < |data| && t.index in seen && t.value == data[t.index]
          && t.value != 0.0 && !SmallerThanDrop(st, t.value))
    && (forall i | 0 <= i < |data| && i < e && i in seen && data[i] != 0.0 && !SmallerThanDrop(st, data[i]) ::
          Entry(i, data[i]) in acc.entries)
    && (forall a, b | 0 <= a < b < |acc.entries| :: acc.entries[a].index != acc.entries[b].index)
  }

  lemma {:induction false} CollectToIsCollected(data: seq<real>, index: seq<nat>, e: nat, st: LpSettings, k: nat)
    requires k <= |index| && forall i | 0 <= i < |index| :: index[i] < |data|
    ensures Collected(CollectTo(data, index, e, st, k), data, index[..k], e, st)
  {
    if k > 0 {
      CollectToIsCollected(data, index, e, st, k - 1);
      var acc := CollectTo(data, index, e, st, k - 1);
      var j := index[k - 1];
      var seen := index[..k - 1];
      assert index[..k] == seen + [j];
      var r := CollectStep(acc, j, e, st);
      if j < e && acc.data[j] != 0.0 {
        assert j !in seen;
        forall t | t in acc.entries ensures t.index != j {
        }
      }
    }
  }

  /** get_row_eta_matrix_and_set_row_vector, given a work vector whose
      non-zeros are all listed: the row-eta matrix receives exactly the
      entries left of `e` that are non-zero and not below the drop
      tolerance, each once, and the work vector is zero left of `e` and
      untouched from `e` on. */
  lemma RowEtaExtraction(data: seq<real>, index: seq<nat>, e: nat, st: LpSettings)
    requires Covers(data, index)
    ensures var r := CollectTo(data, index, e, st, |index|);
      && (forall i | 0 <= i < |data| :: r.data[i] == (if i < e then 0.0 else data[i]))
      && (forall i: nat, v: real :: Entry(i, v) in r.entries <==>
            (i < e && i < |data| && v == data[i] && v != 0.0 && !SmallerThanDrop(st, v)))
      && (forall a, b | 0 <= a < b < |r.entries| :: r.entries[a].index != r.entries[b].index)
  {
    CollectToIsCollected(data, index, e, st, |index|);
    assert index[..|index|] == index;
    var r := CollectTo(data, index, e, st, |index|);
    forall i: nat, v: real | i < e && i < |data| && v == data[i] && v != 0.0 && !SmallerThanDrop(st, v)
      ensures Entry(i, v) in r.entries
    {
      assert i in index;
    }
  }

  /** The extracted entries form a well-formed row-eta matrix for row `e`. */
  lemma RowEtaWellFormed(data: seq<real>, index: seq<nat>, e: nat, st: LpSettings)
    requires Covers(data, index) && e < |data|
    ensures WellFormed(RowEta(e, CollectTo(data, index, e, st, |index|).entries), |data|)
  {
    CollectToIsCollected(data, index, e, st, |index|);
    assert index[..|index|] == index;
  }

  // ---------------------------------------------------------------------------
  // The elimination the work vector carries out

  /** The sum of `x[j] * u[j][c]` over the rows j in [s, k). */
  function ColSum(x: seq<real>, u: seq<seq<real>>, n: nat, s: nat, k: nat, c: nat): real
    requires |x| == n && IsMatrix(u, n) && s <= k <= n && c < n
    decreases k
  {
    if k == s then 0.0 else ColSum(x, u, n, s, k - 1, c) + x[k - 1] * u[k - 1][c]
  }

  lemma ColSumUnfold(x: seq<real>, u: seq<seq<real>>, n: nat, s: nat, k: nat, c: nat, xk: real, a: real)
    requires |x| == n && IsMatrix(u, n) && s <= k < n && c < n && xk == x[k] && a == u[k][c]
    ensures ColSum(x, u, n, s, k + 1, c) == ColSum(x, u, n, s, k, c) + xk * a
  {
    var p := x[k] * u[k][c];
    assert p == xk * a;
  }

  /** Only the coefficients of rows s .. k-1 matter. */
  lemma {:induction false} ColSumFrame(x: seq<real>, y: seq<real>, u: seq<seq<real>>, n: nat, s: nat, k: nat, c: nat)
    requires |x| == n && |y| == n && IsMatrix(u, n) && s <= k <= n && c < n
    requires forall j | s <= j < k :: x[j] == y[j]
    ensures ColSum(x, u, n, s, k, c) == ColSum(y, u, n, s, k, c)
    decreases k
  {
    if k > s {
      ColSumFrame(x, y, u, n, s, k - 1, c);
      ColSumUnfold(x, u, n, s, k - 1, c, x[k - 1], u[k - 1][c]);
      ColSumUnfold(y, u, n, s, k - 1, c, x[k - 1], u[k - 1][c]);
    }
  }

  /** After rows s .. k-1 are processed, the work vector holds, from column
      `k` on, the bump row `r` plus the combination of those rows with the
      coefficients stored in the work vector (negated left of `e`), and that
      combination has already cleared the columns s .. k-1. */
  ghost predicate Eliminated(x: seq<real>, r: seq<real>, u: seq<seq<real>>, n: nat, s: nat, e: nat, k: nat)
    requires |x| == n && |r| == n && IsMatrix(u, n) && s <= k <= e < n
  {
    && (forall c | k <= c < n :: (if c < e then -x[c] else x[c]) == r[c] + ColSum(x, u, n, s, k, c))
    && (forall c | s <= c < k :: r[c] + ColSum(x, u, n, s, k, c) == 0.0)
  }

  lemma EliminatedAtStart(r: seq<real>, u: seq<seq<real>>, n: nat, s: nat, e: nat)
    requires |r| == n && IsMatrix(u, n) && s <= e < n
    ensures Eliminated(ScanRow(r, e), r, u, n, s, e, s)
  {
  }

  lemma LowArith(xc: real, xc2: real, v: real, a: real, rc: real, cs: real, cs2: real)
    requires xc2 == xc + (-v) * a && -xc == rc + cs && cs2 == cs + v * a
    ensures -xc2 == rc + cs2
  {
  }

  lemma HighArith(xc: real, xc2: real, v: real, a: real, rc: real, cs: real, cs2: real)
    requires xc2 == xc + v * a && xc == rc + cs && cs2 == cs + v * a
    ensures xc2 == rc + cs2
  {
  }

  lemma UntouchedArith(v: real, a: real, cs: real, cs2: real)
    requires (v == 0.0 || a == 0.0) && cs2 == cs + v * a
    ensures cs2 == cs
  {
  }

  lemma PivotArith(v: real, rc: real, cs: real, cs2: real)
    requires -v == rc + cs && cs2 == cs + v * 1.0
    ensures rc + cs2 == 0.0
  {
  }

  /** Processing row `k`, which is unit upper triangular, keeps the
      invariant one column further. */
  lemma EliminatedStep(x: seq<real>, r: seq<real>, u: seq<seq<real>>, n: nat, s: nat, e: nat, k: nat, st: LpSettings)
    requires |x| == n && |r| == n && IsMatrix(u, n) && s <= k < e < n
    requires st.precise && UnitUpperRow(u, n, k)
    requires Eliminated(x, r, u, n, s, e, k)
    ensures Eliminated(Eliminate(x, u[k], k, e, st), r, u, n, s, e, k + 1)
  {
    var y := Eliminate(x, u[k], k, e, st);
    StepSums(x, y, u, n, s, e, k, st);
    StepRight(x, y, r, u, n, s, e, k, st);
    StepCleared(x, y, r, u, n, s, e, k, st);
  }

  /** Row `k` joins the combination with the coefficient the work vector
      holds at `k`, which the step leaves alone, as it does every column
      left of `k`. */
  lemma StepSums(x: seq<real>, y: seq<real>, u: seq<seq<real>>, n: nat, s: nat, e: nat, k: nat, st: LpSettings)
    requires |x| == n && IsMatrix(u, n) && s <= k < e < n && UnitUpperRow(u, n, k)
    requires y == Eliminate(x, u[k], k, e, st)
    ensures forall c | 0 <= c < n ::
      ColSum(y, u, n, s, k + 1, c) == ColSum(x, u, n, s, k, c) + x[k] * u[k][c]
  {
    assert y[k] == x[k];
    assert forall j | s <= j < k :: y[j] == x[j];
    forall c | 0 <= c < n
      ensures ColSum(y, u, n, s, k + 1, c) == ColSum(x, u, n, s, k, c) + x[k] * u[k][c]
    {
      ColSumFrame(x, y, u, n, s, k, c);
      ColSumUnfold(y, u, n, s, k, c, x[k], u[k][c]);
    }
  }

  lemma StepRight(x: seq<real>, y: seq<real>, r: seq<real>, u: seq<seq<real>>, n: nat, s: nat, e: nat, k: nat, st: LpSettings)
    requires |x| == n && |r| == n && IsMatrix(u, n) && s <= k < e < n
    requires st.precise
    requires Eliminated(x, r, u, n, s, e, k) && y == Eliminate(x, u[k], k, e, st)
    requires forall c | 0 <= c < n ::
      ColSum(y, u, n, s, k + 1, c) == ColSum(x, u, n, s, k, c) + x[k] * u[k][c]
    ensures forall c | k + 1 <= c < n ::
      (if c < e then -y[c] else y[c]) == r[c] + ColSum(y, u, n, s, k + 1, c)
  {
    var v := x[k];
    forall c | k + 1 <= c < n
      ensures (if c < e then -y[c] else y[c]) == r[c] + ColSum(y, u, n, s, k + 1, c)
    {
      var a := u[k][c];
      var cs, cs2 := ColSum(x, u, n, s, k, c), ColSum(y, u, n, s, k + 1, c);
      if v == 0.0 || a == 0.0 {
        assert y[c] == x[c];
        UntouchedArith(v, a, cs, cs2);
      } else {
        ExactDropsOnlyZero(st, x[c] + Delta(v, a, c, e));
        if c < e {
          LowArith(x[c], y[c], v, a, r[c], cs, cs2);
        } else {
          HighArith(x[c], y[c], v, a, r[c], cs, cs2);
        }
      }
    }
  }

  lemma StepCleared(x: seq<real>, y: seq<real>, r: seq<real>, u: seq<seq<real>>, n: nat, s: nat, e: nat, k: nat, st: LpSettings)
    requires |x| == n && |y| == n && |r| == n && IsMatrix(u, n) && s <= k < e < n
    requires UnitUpperRow(u, n, k) && Eliminated(x, r, u, n, s, e, k)
    requires forall c | 0 <= c < n ::
      ColSum(y, u, n, s, k + 1, c) == ColSum(x, u, n, s, k, c) + x[k] * u[k][c]
    ensures forall c | s <= c < k + 1 :: r[c] + ColSum(y, u, n, s, k + 1, c) == 0.0
  {
    var v := x[k];
    forall c | s <= c < k + 1 ensures r[c] + ColSum(y, u, n, s, k + 1, c) == 0.0 {
      var cs, cs2 := ColSum(x, u, n, s, k, c), ColSum(y, u, n, s, k + 1, c);
      if c == k {
        PivotArith(v, r[c], cs, cs2);
      } else {
        UntouchedArith(v, u[k][c], cs, cs2);
      }
    }
  }

  lemma {:induction false} SolveToEliminates(r: seq<real>, u: seq<seq<real>>, n: nat, s: nat, e: nat, k: nat, st: LpSettings)
    requires |r| == n && IsMatrix(u, n) && s <= k <= e < n && st.precise
    requires forall j | s <= j < e :: UnitUpperRow(u, n, j)
    ensures Eliminated(SolveTo(ScanRow(r, e), u, n, s, e, k, st), r, u, n, s, e, k)
    decreases k
  {
    if k == s {
      EliminatedAtStart(r, u, n, s, e);
    } else {
      SolveToEliminates(r, u, n, s, e, k - 1, st);
      EliminatedStep(SolveTo(ScanRow(r, e), u, n, s, e, k - 1, st), r, u, n, s, e, k - 1, st);
    }
  }

  /** Rows below `s` contribute nothing left of their own diagonal. */
  lemma {:induction false} ColSumLeftOfBump(x: seq<real>, u: seq<seq<real>>, n: nat, s: nat, k: nat, c: nat)
    requires |x| == n && IsMatrix(u, n) && s <= k <= n && c < s
    requires forall j | s <= j < k :: UnitUpperRow(u, n, j)
    ensures ColSum(x, u, n, s, k, c) == 0.0
    decreases k
  {
    if k > s {
      ColSumLeftOfBump(x, u, n, s, k - 1, c);
      assert UnitUpperRow(u, n, k - 1);
      ColSumUnfold(x, u, n, s, k - 1, c, x[k - 1], u[k - 1][c]);
      UntouchedArith(x[k - 1], u[k - 1][c], ColSum(x, u, n, s, k - 1, c), ColSum(x, u, n, s, k, c));
    }
  }

  /** The Suhl-Suhl update of the bump row with exact arithmetic.  Let `r`
      be the bump row of the rotated U (zero left of `s`), `x` the work
      vector after pivot_and_solve_the_system, and `y` the work vector after
      its entries left of `e` went into the row-eta matrix.  Then the row
      that calculate_Lwave_Pwave_for_bump writes into U, `y`, is `r` plus
      the rows s .. e-1 of U weighted by the row-eta coefficients `x[j]`:
      the row-eta matrix times U has `y` as its row `e`, zero left of the
      new diagonal. */
  lemma BumpRowIsEliminated(r: seq<real>, u: seq<seq<real>>, n: nat, s: nat, e: nat, st: LpSettings)
    requires |r| == n && IsMatrix(u, n) && s <= e < n && st.precise
    requires forall j | s <= j < e :: UnitUpperRow(u, n, j)
    requires forall c | 0 <= c < s :: r[c] == 0.0
    ensures var x := SolveTo(ScanRow(r, e), u, n, s, e, e, st);
      forall c | 0 <= c < n ::
        (if c < e then 0.0 else x[c]) == r[c] + ColSum(x, u, n, s, e, c)
  {
    var x := SolveTo(ScanRow(r, e), u, n, s, e, e, st);
    SolveToEliminates(r, u, n, s, e, e, st);
    forall c | 0 <= c < s ensures r[c] + ColSum(x, u, n, s, e, c) == 0.0 {
      ColSumLeftOfBump(x, u, n, s, e, c);
    }
  }

  /** With exact arithmetic the row-eta coefficient of each row j in
      [s, e) is the work vector's value there. */
  lemma RowEtaHoldsCoefficients(data: seq<real>, index: seq<nat>, e: nat, st: LpSettings)
    requires Covers(data, index) && st.precise
    ensures forall i | 0 <= i < |data| && i < e && data[i] != 0.0 ::
      Entry(i, data[i]) in CollectTo(data, index, e, st, |index|).entries
  {
    RowEtaExtraction(data, index, e, st);
    forall i | 0 <= i < |data| && i < e && data[i] != 0.0
      ensures Entry(i, data[i]) in CollectTo(data, index, e, st, |index|).entries
    {
      ExactDropsOnlyZero(st, data[i]);
    }
  }
  // ---------------------------------------------------------------------------
  // The row-eta matrix as an operation on the columns of U

  /** Rows of the bump leave the work vector alone left of the bump. */
  lemma {:induction false} SolveToKeepsLeft(x: seq<real>, u: seq<seq<real>>, n: nat, s: nat, e: nat, k: nat, st: LpSettings)
    requires |x| == n && IsMatrix(u, n) && s <= k <= n
    requires forall j | s <= j < k :: UnitUpperRow(u, n, j)
    ensures forall c | 0 <= c < s :: SolveTo(x, u, n, s, e, k, st)[c] == x[c]
    decreases k
  {
    if k > s {
      SolveToKeepsLeft(x, u, n, s, e, k - 1, st);
      assert UnitUpperRow(u, n, k - 1);
    }
  }

  lemma {:induction false} CombineConcat(w: seq<real>, a: seq<Entry>, b: seq<Entry>)
    requires EntriesIn(a, |w|) && EntriesIn(b, |w|)
    ensures EntriesIn(a + b, |w|)
    ensures Combine(w, a + b) == Combine(w, a) + Combine(w, b)
    decreases |a|
  {
    if |a| > 0 {
      assert (a + b)[0] == a[0] && (a + b)[1..] == a[1..] + b;
      assert a[0] in a;
      CombineConcat(w, a[1..], b);
      CombineUnfold(w, a, a[0].index, a[0].value);
      CombineUnfold(w, a + b, a[0].index, a[0].value);
    } else {
      assert a + b == b;
    }
  }

  /** The entries of a row-eta matrix for the coefficients `x` on the rows
      [s, k): each non-zero coefficient once, in any order. */
  ghost predicate CoefficientEntries(es: seq<Entry>, x: seq<real>, s: nat, k: nat) {
    && (forall t | t in es :: s <= t.index < k && t.index < |x| && t.value == x[t.index])
    && (forall a, b | 0 <= a < b < |es| :: es[a].index != es[b].index)
    && (forall j | s <= j < k && j < |x| && x[j] != 0.0 :: Entry(j, x[j]) in es)
  }

  lemma ElementIn(es: seq<Entry>, p: nat)
    requires p < |es|
    ensures es[p] in es
  {
  }

  lemma EntriesInSlice(es: seq<Entry>, n: nat, i: nat, j: nat)
    requires EntriesIn(es, n) && i <= j <= |es|
    ensures EntriesIn(es[i..j], n)
  {
    forall t | t in es[i..j] ensures t.index < n {
      var p :| i <= p < j && es[p] == t;
      assert es[p] in es;
    }
  }

  /** Taking entry `m` out of the list takes its term out of the sum. */
  lemma CombineRemove(w: seq<real>, es: seq<Entry>, m: nat, k: nat, v: real)
    requires EntriesIn(es, |w|) && m < |es| && es[m] == Entry(k, v)
    ensures k < |w| && EntriesIn(es[..m] + es[m + 1..], |w|)
    ensures Combine(w, es) == Combine(w, es[..m] + es[m + 1..]) + w[k] * v
  {
    var a, mb, b := es[..m], es[m..], es[m + 1..];
    assert EntriesIn(a, |w|) && EntriesIn(mb, |w|) && EntriesIn(b, |w|) by {
      EntriesInSlice(es, |w|, 0, m);
      EntriesInSlice(es, |w|, m, |es|);
      EntriesInSlice(es, |w|, m + 1, |es|);
    }
    assert k < |w| by {
      ElementIn(es, m);
    }
    assert Combine(w, es) == Combine(w, a) + Combine(w, mb) by {
      assert es == a + mb;
      CombineConcat(w, a, mb);
    }
    assert Combine(w, mb) == w[k] * v + Combine(w, b) by {
      assert mb[1..] == b && HeadIs(mb, k, v);
      CombineUnfold(w, mb, k, v);
    }
    CombineConcat(w, a, b);
    var t := w[k] * v;
    SumArith(Combine(w, es), Combine(w, a), Combine(w, mb), Combine(w, b), Combine(w, a + b), t);
    assert Combine(w, es) == Combine(w, a + b) + t;
  }

  lemma SumArith(all: real, ca: real, cmb: real, cb: real, cab: real, t: real)
    requires all == ca + cmb && cmb == t + cb && cab == ca + cb
    ensures all == cab + t
  {
  }

  lemma CommuteStep(total: real, rest: real, cs: real, cs2: real, a: real, b: real)
    requires total == rest + a * b && rest == cs && cs2 == cs + b * a
    ensures total == cs2
  {
  }

  lemma StepArith(total: real, rest: real, p: real, cs: real, cs2: real, p2: real)
    requires total == rest + p && rest == cs && cs2 == cs + p2 && p == p2
    ensures total == cs2
  {
  }

  lemma ProductArith(a: real, b: real, a2: real, b2: real)
    requires a == a2 && b == b2
    ensures a * b == b2 * a2
  {
  }

  /** The entry of the top row taken out, the rest are the entries for
      one row fewer. */
  lemma RemoveTopEntry(es: seq<Entry>, x: seq<real>, s: nat, k: nat, m: nat)
    requires CoefficientEntries(es, x, s, k) && m < |es| && es[m].index == k - 1
    ensures CoefficientEntries(es[..m] + es[m + 1..], x, s, k - 1)
  {
    var rest := es[..m] + es[m + 1..];
    assert forall p | 0 <= p < |rest| :: rest[p] == es[if p < m then p else p + 1];
    forall t | t in rest ensures s <= t.index < k - 1 && t.index < |x| && t.value == x[t.index] {
      var p :| 0 <= p < |rest| && rest[p] == t;
      var i := if p < m then p else p + 1;
      assert es[i] in es;
    }
    forall j | s <= j < k - 1 && j < |x| && x[j] != 0.0 ensures Entry(j, x[j]) in rest {
      var p :| 0 <= p < |es| && es[p] == Entry(j, x[j]);
      if p < m {
        assert rest[p] == es[p];
      } else {
        assert p != m && rest[p - 1] == es[p];
      }
    }
  }

  /** Without an entry for the top row its coefficient is zero. */
  lemma NoTopEntry(es: seq<Entry>, x: seq<real>, s: nat, k: nat)
    requires CoefficientEntries(es, x, s, k) && s < k <= |x|
    requires forall m | 0 <= m < |es| :: es[m].index != k - 1
    ensures x[k - 1] == 0.0 && CoefficientEntries(es, x, s, k - 1)
  {
    forall p | 0 <= p < |es| ensures es[p] != Entry(k - 1, x[k - 1]) {
    }
    forall t | t in es ensures t.index < k - 1 {
      var p :| 0 <= p < |es| && es[p] == t;
    }
  }

  /** One step of the induction below: the entry of the top row adds that
      row's term to the sum of the rows under it. */
  lemma TopEntryStep(x: seq<real>, u: seq<seq<real>>, n: nat, s: nat, k: nat, c: nat, es: seq<Entry>, m: nat)
    requires |x| == n && IsMatrix(u, n) && s < k <= n && c < n
    requires CoefficientEntries(es, x, s, k) && m < |es| && es[m].index == k - 1
    requires EntriesIn(es[..m] + es[m + 1..], n)
    requires Combine(Column(u, n, c), es[..m] + es[m + 1..]) == ColSum(x, u, n, s, k - 1, c)
    ensures EntriesIn(es, n)
    ensures Combine(Column(u, n, c), es) == ColSum(x, u, n, s, k, c)
  {
    var col := Column(u, n, c);
    var rest := es[..m] + es[m + 1..];
    var xk, uk := x[k - 1], col[k - 1];
    assert es[m] == Entry(k - 1, xk) by {
      ElementIn(es, m);
    }
    CombineRemove(col, es, m, k - 1, xk);
    ColSumUnfold(x, u, n, s, k - 1, c, xk, uk);
    CommuteStep(Combine(col, es), Combine(col, rest), ColSum(x, u, n, s, k - 1, c), ColSum(x, u, n, s, k, c), uk, xk);
  }

  /** Whatever their order, such entries combine column `c` of U into the
      weighted sum of its rows s .. k-1. */
  lemma {:induction false} CombineIsColSum(x: seq<real>, u: seq<seq<real>>, n: nat, s: nat, k: nat, c: nat, es: seq<Entry>)
    requires |x| == n && IsMatrix(u, n) && s <= k <= n && c < n
    requires CoefficientEntries(es, x, s, k)
    ensures EntriesIn(es, n)
    ensures Combine(Column(u, n, c), es) == ColSum(x, u, n, s, k, c)
    decreases k
  {
    assert EntriesIn(es, n);
    var col := Column(u, n, c);
    if k == s {
      if |es| > 0 {
        ElementIn(es, 0);
        assert false;
      }
    } else if m :| 0 <= m < |es| && es[m].index == k - 1 {
      RemoveTopEntry(es, x, s, k, m);
      CombineIsColSum(x, u, n, s, k - 1, c, es[..m] + es[m + 1..]);
      TopEntryStep(x, u, n, s, k, c, es, m);
    } else {
      NoTopEntry(es, x, s, k);
      CombineIsColSum(x, u, n, s, k - 1, c, es);
      ColSumUnfold(x, u, n, s, k - 1, c, x[k - 1], u[k - 1][c]);
    }
  }

  /** The bump row as calculate_Lwave_Pwave_for_bump writes it into U:
      zero left of `e`, the solved work vector from `e` on. */
  function EliminatedRow(x: seq<real>, e: nat): (row: seq<real>)
    ensures |row| == |x|
    ensures forall c | 0 <= c < |x| :: row[c] == (if c < e then 0.0 else x[c])
  {
    seq(|x|, c requires 0 <= c < |x| => if c < e then 0.0 else x[c])
  }

  /** The entries of the row-eta matrix extracted from the solved bump row
      `x`: exactly the non-zero values left of `e` that survive the drop
      tolerance, one entry per position. */
  ghost predicate RowEtaEntries(es: seq<Entry>, x: seq<real>, e: nat, st: LpSettings) {
    && (forall i: nat, v: real :: Entry(i, v) in es <==>
          (i < e && i < |x| && v == x[i] && v != 0.0 && !SmallerThanDrop(st, v)))
    && (forall a, b | 0 <= a < b < |es| :: es[a].index != es[b].index)
  }

  /** With exact arithmetic, the row-eta matrix extracted from the solved
      bump row turns every column of the rotated U into the same column of
      U with row `e` replaced by the eliminated bump row: the row-eta matrix
      times U is U with its bump row eliminated. */
  lemma RowEtaEliminatesBumpRow(u: seq<seq<real>>, n: nat, s: nat, e: nat, st: LpSettings, es: seq<Entry>)
    requires IsMatrix(u, n) && s < e < n && st.precise
    requires forall j | s <= j < e :: UnitUpperRow(u, n, j)
    requires forall c | 0 <= c < s :: u[e][c] == 0.0
    requires RowEtaEntries(es, SolveTo(ScanRow(u[e], e), u, n, s, e, e, st), e, st)
    ensures WellFormed(RowEta(e, es), n)
    ensures var x := SolveTo(ScanRow(u[e], e), u, n, s, e, e, st);
      forall c | 0 <= c < n ::
        ApplyLeft(RowEta(e, es), Column(u, n, c)) == Column(SetRow(u, n, e, EliminatedRow(x, e)), n, c)
  {
    var x := SolveTo(ScanRow(u[e], e), u, n, s, e, e, st);
    SolveToKeepsLeft(ScanRow(u[e], e), u, n, s, e, e, st);
    assert CoefficientEntries(es, x, s, e) by {
      forall t | t in es ensures s <= t.index < e && t.index < n && t.value == x[t.index] {
        assert Entry(t.index, t.value) == t;
        ExactDropsOnlyZero(st, t.value);
      }
      forall j | s <= j < e && x[j] != 0.0 ensures Entry(j, x[j]) in es {
        ExactDropsOnlyZero(st, x[j]);
      }
    }
    assert EntriesIn(es, n) && EntriesAvoid(es, e) by {
      forall t | t in es ensures t.index < n && t.index != e {
      }
    }
    BumpRowIsEliminated(u[e], u, n, s, e, st);
    var row := EliminatedRow(x, e);
    forall c | 0 <= c < n
      ensures ApplyLeft(RowEta(e, es), Column(u, n, c)) == Column(SetRow(u, n, e, row), n, c)
    {
      CombineIsColSum(x, u, n, s, e, c, es);
    }
  }
}
