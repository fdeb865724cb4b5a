/** What the initial factorisation does to U when it pivots: the pivot row
    and column are exchanged onto the diagonal, and a tail matrix is
    multiplied into U from the left.  With the eta matrix of Gaussian
    elimination on the pivot column, that product divides the pivot row by
    the pivot and clears the column below it, so that U becomes unit upper
    triangular one column at a time. */
module Elimination {
  import opened Common
  import opened Vectors
  import opened Tail
  import opened Upper

  /** t·U: every column of U with the tail matrix `t` applied from the left
      (what pivot_with_eta and update_parent_matrix leave in U). */
  function MultiplyLeft(t: TailMatrix, u: seq<seq<real>>, n: nat): (m: seq<seq<real>>)
    requires IsMatrix(u, n) && WellFormed(t, n)
    ensures IsMatrix(m, n)
    ensures forall c | 0 <= c < n :: Column(m, n, c) == ApplyLeft(t, Column(u, n, c))
  {
    var cols := seq(n, c requires 0 <= c < n => ApplyLeft(t, Column(u, n, c)));
    var m := seq(n, i requires 0 <= i < n => seq(n, c requires 0 <= c < n => cols[c][i]));
    assert forall c | 0 <= c < n :: Column(m, n, c) == cols[c];
    m
  }

  // ---------------------------------------------------------------------------
  // The elimination eta matrix of a pivot column

  /** The multipliers of pivot column `j` for the rows lo .. n-1: the entry
      -u[i][j]/u[j][j] for every row i below `j` that holds a non-zero. */
  function EliminationEntries(u: seq<seq<real>>, n: nat, j: nat, lo: nat): (es: seq<Entry>)
    requires IsMatrix(u, n) && j < n && lo <= n && u[j][j] != 0.0
    ensures EntriesIn(es, n) && EntriesAvoid(es, j)
    ensures forall t | t in es :: lo <= t.index
    decreases n - lo
  {
    if lo == n then []
    else
      var rest := EliminationEntries(u, n, j, lo + 1);
      if j < lo && u[lo][j] != 0.0 then [Entry(lo, -u[lo][j] / u[j][j])] + rest else rest
  }

  /** The eta matrix of Gaussian elimination on column `j`, whose pivot is
      u[j][j]: the matrix fill_eta_matrix is to hand to pivot_with_eta. */
  function EliminationEta(u: seq<seq<real>>, n: nat, j: nat): (t: TailMatrix)
    requires IsMatrix(u, n) && j < n && u[j][j] != 0.0
    ensures WellFormed(t, n) && t.Eta? && t.column == j
  {
    Eta(j, u[j][j], EliminationEntries(u, n, j, 0))
  }

  /** Applying the multipliers to a vector adds `c` times the multiplier of
      every listed row to that row, and leaves the other rows alone. */
  lemma {:induction false} AddScaledElimination(w: seq<real>, u: seq<seq<real>>, n: nat, j: nat, lo: nat, c: real, i: nat)
    requires IsMatrix(u, n) && j < n && lo <= n && u[j][j] != 0.0 && |w| == n && i < n
    ensures AddScaled(w, EliminationEntries(u, n, j, lo), c)[i]
         == if lo <= i && j < i && u[i][j] != 0.0 then w[i] + c * (-u[i][j] / u[j][j]) else w[i]
    decreases n - lo
  {
    if lo < n {
      var rest := EliminationEntries(u, n, j, lo + 1);
      if j < lo && u[lo][j] != 0.0 {
        var v := -u[lo][j] / u[j][j];
        var es := [Entry(lo, v)] + rest;
        assert es[1..] == rest;
        AddScaledUnfold(w, es, c, lo, v);
        AddScaledElimination(w[lo := w[lo] + c * v], u, n, j, lo + 1, c, i);
      } else {
        AddScaledElimination(w, u, n, j, lo + 1, c, i);
      }
    }
  }

  lemma ClearArith(a: real, d: real)
    requires d != 0.0
    ensures a + d * (-a / d) == 0.0
  {
  }

  lemma ZeroMultiplier(a: real, d: real)
    requires a == 0.0 && d != 0.0
    ensures -a / d == 0.0
  {
  }

  lemma AddZeroProduct(x: real, y: real, z: real)
    requires z == 0.0
    ensures x == x + y * z
  {
  }

  /** pivot_with_eta with the elimination eta matrix is one step of Gaussian
      elimination: the pivot row is divided by the pivot, every row below
      it loses its multiple of the pivot row, and the rows above stay. */
  lemma EliminationStep(u: seq<seq<real>>, n: nat, j: nat, i: nat, c: nat)
    requires IsMatrix(u, n) && j < n && u[j][j] != 0.0 && i < n && c < n
    ensures var m := MultiplyLeft(EliminationEta(u, n, j), u, n);
      m[i][c] == if i == j then u[j][c] / u[j][j]
                 else if j < i then u[i][c] + u[j][c] * (-u[i][j] / u[j][j])
                 else u[i][c]
  {
    var t := EliminationEta(u, n, j);
    var m := MultiplyLeft(t, u, n);
    var col := Column(u, n, c);
    var d, ujc := u[j][j], u[j][c];
    assert Column(m, n, c) == ApplyLeft(t, col);
    assert m[i][c] == Column(m, n, c)[i];
    if i != j {
      AddScaledElimination(col, u, n, j, 0, ujc, i);
      if j < i && u[i][j] == 0.0 {
        ZeroMultiplier(u[i][j], d);
        AddZeroProduct(u[i][c], ujc, -u[i][j] / d);
      }
    }
  }

  /** The step turns the pivot column into the unit vector below the
      diagonal. */
  lemma EliminationClearsColumn(u: seq<seq<real>>, n: nat, j: nat, i: nat)
    requires IsMatrix(u, n) && j < n && u[j][j] != 0.0 && j <= i < n
    ensures MultiplyLeft(EliminationEta(u, n, j), u, n)[i][j] == if i == j then 1.0 else 0.0
  {
    EliminationStep(u, n, j, i, j);
    if i > j {
      ClearArith(u[i][j], u[j][j]);
    }
  }

  // ---------------------------------------------------------------------------
  // The shape the sparse phase builds

  /** Columns 0 .. j-1 of U are finished: one on the diagonal, zero below. */
  predicate DoneColumns(u: seq<seq<real>>, n: nat, j: nat)
    requires IsMatrix(u, n) && j <= n
  {
    forall c, i | 0 <= c < j && c <= i < n :: u[i][c] == if i == c then 1.0 else 0.0
  }

  /** Once every column is finished, U is unit upper triangular. */
  lemma AllDoneIsUnitUpper(u: seq<seq<real>>, n: nat)
    requires IsMatrix(u, n) && DoneColumns(u, n, n)
    ensures UnitUpper(u, n)
  {
    forall i | 0 <= i < n ensures UnitUpperRow(u, n, i) {
      assert u[i][i] == 1.0;
    }
  }

  /** Nothing is finished before the first column. */
  lemma NoneDone(u: seq<seq<real>>, n: nat)
    requires IsMatrix(u, n)
    ensures DoneColumns(u, n, 0)
  {
  }

  /** A pivot taken inside the active submatrix, rows and columns j .. n-1,
      is brought to (j, j) without disturbing the finished columns. */
  lemma SwapsKeepDone(u: seq<seq<real>>, n: nat, j: nat, pi: nat, pj: nat)
    requires IsMatrix(u, n) && j <= pi < n && j <= pj < n && DoneColumns(u, n, j)
    ensures DoneColumns(Upper.SwapRows(Upper.SwapColumns(u, n, j, pj), n, j, pi), n, j)
  {
    var v := Upper.SwapColumns(u, n, j, pj);
    assert DoneColumns(v, n, j);
  }

  /** Eliminating the pivot column with its elimination eta matrix finishes
      it and leaves the finished columns as they were. */
  lemma EliminationFinishesColumn(u: seq<seq<real>>, n: nat, j: nat)
    requires IsMatrix(u, n) && j < n && u[j][j] != 0.0 && DoneColumns(u, n, j)
    ensures DoneColumns(MultiplyLeft(EliminationEta(u, n, j), u, n), n, j + 1)
  {
    var m := MultiplyLeft(EliminationEta(u, n, j), u, n);
    forall c, i | 0 <= c < j + 1 && c <= i < n
      ensures m[i][c] == if i == c then 1.0 else 0.0
    {
      if c == j {
        EliminationClearsColumn(u, n, j, i);
      } else {
        EliminationStep(u, n, j, i, c);
        assert u[j][c] == 0.0;
        if i == j {
          assert m[j][c] == 0.0 / u[j][j];
        } else if j < i {
          ZeroTimesAny(u[j][c], -u[i][j] / u[j][j]);
        }
      }
    }
  }

  lemma ZeroTimesAny(a: real, b: real)
    requires a == 0.0
    ensures a * b == 0.0
  {
  }

  /** A pivot column that is already the unit vector below the diagonal
      needs no eta matrix, and is finished as it stands. */
  lemma UnitColumnIsDone(u: seq<seq<real>>, n: nat, j: nat)
    requires IsMatrix(u, n) && j < n && DoneColumns(u, n, j)
    requires u[j][j] == 1.0 && forall i | j < i < n :: u[i][j] == 0.0
    ensures DoneColumns(u, n, j + 1)
  {
  }
}
