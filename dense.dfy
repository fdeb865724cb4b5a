/** The upper factor U (sparse_matrix) as a dense square matrix in its
    logical coordinates, with the operations the factorisation asks of it
    and the shapes a column replacement moves it through. */
module Upper {
  import opened Permutations

  predicate IsMatrix(u: seq<seq<real>>, n: nat) {
    |u| == n && forall i | 0 <= i < n :: |u[i]| == n
  }

  /** Row `i` is zero left of the diagonal and one on it. */
  predicate UnitUpperRow(u: seq<seq<real>>, n: nat, i: nat)
    requires IsMatrix(u, n) && i < n
  {
    u[i][i] == 1.0 && forall c | 0 <= c < i :: u[i][c] == 0.0
  }

  /** U is unit upper triangular: the shape a usable factorisation keeps. */
  predicate UnitUpper(u: seq<seq<real>>, n: nat)
    requires IsMatrix(u, n)
  {
    forall i | 0 <= i < n :: UnitUpperRow(u, n, i)
  }

  /** The shape right after column `s` was replaced by a spike whose lowest
      non-zero sits in row `e`: unit upper triangular away from column `s`,
      and column `s` is zero below row `e`. */
  predicate SpikeShape(u: seq<seq<real>>, n: nat, s: nat, e: nat)
    requires IsMatrix(u, n) && s < n && e < n
  {
    && (forall i | 0 <= i < n && i != s :: u[i][i] == 1.0)
    && (forall i, c | 0 <= c < i < n && c != s :: u[i][c] == 0.0)
    && (forall i | e < i < n :: u[i][s] == 0.0)
  }

  // ---------------------------------------------------------------------------
  // Operations

  /** swap_rows(j, k) */
  function SwapRows(u: seq<seq<real>>, n: nat, j: nat, k: nat): (r: seq<seq<real>>)
    requires IsMatrix(u, n) && j < n && k < n
    ensures IsMatrix(r, n)
    ensures r[j] == u[k] && r[k] == u[j]
    ensures forall i | 0 <= i < n && i != j && i != k :: r[i] == u[i]
    ensures j == k ==> r == u
  {
    u[j := u[k]][k := u[j]]
  }

  /** swap_columns(j, k) */
  function SwapColumns(u: seq<seq<real>>, n: nat, j: nat, k: nat): (r: seq<seq<real>>)
    requires IsMatrix(u, n) && j < n && k < n
    ensures IsMatrix(r, n)
    ensures forall i | 0 <= i < n :: r[i][j] == u[i][k] && r[i][k] == u[i][j]
    ensures forall i, c | 0 <= i < n && 0 <= c < n && c != j && c != k :: r[i][c] == u[i][c]
    ensures j == k ==> r == u
  {
    var r := seq(n, i requires 0 <= i < n => u[i][j := u[i][k]][k := u[i][j]]);
    assert j == k ==> forall i | 0 <= i < n :: r[i] == u[i];
    r
  }

  /** replace_column(c, w): column `c` becomes `w`. */
  function ReplaceColumn(u: seq<seq<real>>, n: nat, c: nat, w: seq<real>): (r: seq<seq<real>>)
    requires IsMatrix(u, n) && c < n && |w| == n
    ensures IsMatrix(r, n)
    ensures forall i | 0 <= i < n :: r[i][c] == w[i]
    ensures forall i, k | 0 <= i < n && 0 <= k < n && k != c :: r[i][k] == u[i][k]
  {
    seq(n, i requires 0 <= i < n => u[i][c := w[i]])
  }

  /** lowest_row_in_column(c): the last row holding a non-zero of column
      `c`, or 0 when the column is empty. */
  function LowestRowInColumn(u: seq<seq<real>>, n: nat, c: nat): (r: nat)
    requires IsMatrix(u, n) && c < n
    ensures r < n
    ensures r == 0 || u[r][c] != 0.0
    ensures forall i | r < i < n :: u[i][c] == 0.0
  {
    LowestBelow(u, n, c, n)
  }

  function LowestBelow(u: seq<seq<real>>, n: nat, c: nat, hi: nat): (r: nat)
    requires IsMatrix(u, n) && c < n && 0 < n && hi <= n
    ensures r < n && (r == 0 || (r < hi && u[r][c] != 0.0))
    ensures forall i | r < i < hi :: u[i][c] == 0.0
  {
    if hi == 0 then 0
    else if u[hi - 1][c] != 0.0 then hi - 1
    else LowestBelow(u, n, c, hi - 1)
  }

  /** multiply_from_right(r_wave) followed by
      multiply_from_left_with_reverse(r_wave): rows and columns of the bump
      [s, e] are rotated, so that row and column `s` move to position `e`
      and the ones after them move up by one. */
  function RotateBump(u: seq<seq<real>>, n: nat, s: nat, e: nat): (r: seq<seq<real>>)
    requires IsMatrix(u, n) && s <= e < n
    ensures IsMatrix(r, n)
    ensures forall i, c | 0 <= i < n && 0 <= c < n ::
      r[i][c] == u[RWaveRevAt(s, e, i)][RWaveRevAt(s, e, c)]
  {
    seq(n, i requires 0 <= i < n =>
      seq(n, c requires 0 <= c < n => u[RWaveRevAt(s, e, i)][RWaveRevAt(s, e, c)]))
  }

  /** Column `c` of `u`. */
  function Column(u: seq<seq<real>>, n: nat, c: nat): (v: seq<real>)
    requires IsMatrix(u, n) && c < n
    ensures |v| == n && forall i | 0 <= i < n :: v[i] == u[i][c]
  {
    seq(n, i requires 0 <= i < n => u[i][c])
  }

  /** set_row_from_work_vector: row `i` becomes `row`. */
  function SetRow(u: seq<seq<real>>, n: nat, i: nat, row: seq<real>): (r: seq<seq<real>>)
    requires IsMatrix(u, n) && i < n && |row| == n
    ensures IsMatrix(r, n) && r == u[i := row]
  {
    u[i := row]
  }

  /** divide_row_by_constant(i, d) */
  function DivideRow(u: seq<seq<real>>, n: nat, i: nat, d: real): (r: seq<seq<real>>)
    requires IsMatrix(u, n) && i < n && d != 0.0
    ensures IsMatrix(r, n)
    ensures forall c | 0 <= c < n :: r[i][c] == u[i][c] / d
    ensures forall k | 0 <= k < n && k != i :: r[k] == u[k]
  {
    u[i := seq(n, c requires 0 <= c < n => u[i][c] / d)]
  }

  // ---------------------------------------------------------------------------
  // Shapes

  /** Replacing one column of a unit upper triangular matrix leaves the
      spike shape, with the spike ending at the column's lowest non-zero. */
  lemma ReplaceColumnMakesSpike(u: seq<seq<real>>, n: nat, s: nat, w: seq<real>)
    requires IsMatrix(u, n) && UnitUpper(u, n) && s < n && |w| == n
    ensures SpikeShape(ReplaceColumn(u, n, s, w), n, s,
                       LowestRowInColumn(ReplaceColumn(u, n, s, w), n, s))
  {
    var v := ReplaceColumn(u, n, s, w);
    forall i | 0 <= i < n && i != s ensures v[i][i] == 1.0 {
      assert UnitUpperRow(u, n, i);
    }
    forall i, c | 0 <= c < i < n && c != s ensures v[i][c] == 0.0 {
      assert UnitUpperRow(u, n, i);
    }
  }

  /** The bump rotation turns the spike shape into a matrix that is unit
      upper triangular in every row but `e`, whose entries left of `s` are
      zero: only row `e` between columns `s` and `e` is left to eliminate. */
  lemma RotationLeavesOneBumpRow(u: seq<seq<real>>, n: nat, s: nat, e: nat)
    requires IsMatrix(u, n) && s < e < n && SpikeShape(u, n, s, e)
    ensures forall i | 0 <= i < n && i != e :: UnitUpperRow(RotateBump(u, n, s, e), n, i)
    ensures forall c | 0 <= c < s :: RotateBump(u, n, s, e)[e][c] == 0.0
  {
    var r := RotateBump(u, n, s, e);
    forall i | 0 <= i < n && i != e ensures UnitUpperRow(r, n, i) {
      var si := RWaveRevAt(s, e, i);
      assert si != s;
      forall c | 0 <= c < i ensures r[i][c] == 0.0 {
        var sc := RWaveRevAt(s, e, c);
        if c == e {
          assert sc == s && e < si;
        } else {
          assert sc < si && sc != s;
        }
      }
    }
    forall c | 0 <= c < s ensures r[e][c] == 0.0 {
      assert RWaveRevAt(s, e, c) == c;
    }
  }

  /** Overwriting the bump row with a row that is zero left of `e` and
      non-zero at `e`, then dividing it by that diagonal, restores a unit
      upper triangular U. */
  lemma FinishBumpRow(u: seq<seq<real>>, n: nat, e: nat, row: seq<real>)
    requires IsMatrix(u, n) && e < n && |row| == n && row[e] != 0.0
    requires forall i | 0 <= i < n && i != e :: UnitUpperRow(u, n, i)
    requires forall c | 0 <= c < e :: row[c] == 0.0
    ensures UnitUpper(DivideRow(SetRow(u, n, e, row), n, e, row[e]), n)
  {
    var r := DivideRow(SetRow(u, n, e, row), n, e, row[e]);
    forall i | 0 <= i < n ensures UnitUpperRow(r, n, i) {
      if i == e {
        DivSelf(row[e]);
        forall c | 0 <= c < e ensures r[e][c] == 0.0 {
          ZeroDiv(row[c], row[e]);
        }
      } else {
        assert r[i] == u[i];
        assert UnitUpperRow(u, n, i);
      }
    }
  }

  /** When the spike ends on its own diagonal (no bump), dividing that row
      by its diagonal restores a unit upper triangular U. */
  lemma FinishWithoutBump(u: seq<seq<real>>, n: nat, s: nat)
    requires IsMatrix(u, n) && s < n && SpikeShape(u, n, s, s) && u[s][s] != 0.0
    ensures UnitUpper(DivideRow(u, n, s, u[s][s]), n)
  {
    var r := DivideRow(u, n, s, u[s][s]);
    forall i | 0 <= i < n ensures UnitUpperRow(r, n, i) {
      if i == s {
        DivSelf(u[s][s]);
        forall c | 0 <= c < s ensures r[s][c] == 0.0 {
          ZeroDiv(u[s][c], u[s][s]);
        }
      } else {
        assert r[i] == u[i];
        forall c | 0 <= c < i ensures u[i][c] == 0.0 {
          if c == s {
            assert s < i;
          }
        }
      }
    }
  }

  lemma DivSelf(x: real)
    requires x != 0.0
    ensures x / x == 1.0
  {
  }

  lemma ZeroDiv(x: real, d: real)
    requires x == 0.0 && d != 0.0
    ensures x / d == 0.0
  {
  }

  // ---------------------------------------------------------------------------
  // The matrix the pair (Q, U) and R stand for

  /** Entry (x, y) of the matrix represented by U under the row
      permutation `q` and the column permutation `r`. */
  function Represented(u: seq<seq<real>>, q: Perm, r: Perm, n: nat): (m: seq<seq<real>>)
    requires IsMatrix(u, n) && IsPermutation(q, n) && IsPermutation(r, n)
    ensures IsMatrix(m, n)
    ensures forall x, y | 0 <= x < n && 0 <= y < n :: m[x][y] == u[q.fwd[x]][r.rev[y]]
  {
    seq(n, x requires 0 <= x < n => seq(n, y requires 0 <= y < n => u[q.fwd[x]][r.rev[y]]))
  }

  /** swap_rows(j, k) transposes Q from the left together with the rows of
      U: the represented matrix does not change. */
  lemma SwapRowsKeepsRepresented(u: seq<seq<real>>, q: Perm, r: Perm, n: nat, j: nat, k: nat)
    requires IsMatrix(u, n) && IsPermutation(q, n) && IsPermutation(r, n) && j < n && k < n
    ensures Represented(SwapRows(u, n, j, k), TransposeFromLeft(q, n, j, k), r, n)
         == Represented(u, q, r, n)
  {
    var a := Represented(SwapRows(u, n, j, k), TransposeFromLeft(q, n, j, k), r, n);
    var b := Represented(u, q, r, n);
    forall x | 0 <= x < n ensures a[x] == b[x] {
      assert forall y | 0 <= y < n :: a[x][y] == b[x][y];
    }
  }

  /** swap_columns(j, k) transposes R from the right together with the
      columns of U: the represented matrix does not change. */
  lemma SwapColumnsKeepsRepresented(u: seq<seq<real>>, q: Perm, r: Perm, n: nat, j: nat, k: nat)
    requires IsMatrix(u, n) && IsPermutation(q, n) && IsPermutation(r, n) && j < n && k < n
    ensures Represented(SwapColumns(u, n, j, k), q, TransposeFromRight(r, n, j, k), n)
         == Represented(u, q, r, n)
  {
    var r2 := TransposeFromRight(r, n, j, k);
    var a := Represented(SwapColumns(u, n, j, k), q, r2, n);
    var b := Represented(u, q, r, n);
    forall x | 0 <= x < n ensures a[x] == b[x] {
      forall y | 0 <= y < n ensures a[x][y] == b[x][y] {
        var c := r.rev[y];
        assert r.fwd[c] == y;
        if c == j {
          assert r2.fwd[k] == y;
        } else if c == k {
          assert r2.fwd[j] == y;
        } else {
          assert r2.fwd[c] == y;
        }
      }
    }
  }

  /** The bump rotation keeps the represented matrix once Q and R absorb
      r_wave: multiply_from_right and multiply_from_left_with_reverse on U
      are undone by multiply_by_permutation_from_right on Q and
      multiply_by_permutation_reverse_from_left on R. */
  lemma RotationKeepsRepresented(v: seq<seq<real>>, q: Perm, r: Perm, n: nat, s: nat, e: nat)
    requires IsMatrix(v, n) && IsPermutation(q, n) && IsPermutation(r, n) && s <= e < n
    ensures var w := RWave(n, s, e);
      Represented(RotateBump(v, n, s, e), MultiplyFromRight(q, w, n), MultiplyReverseFromLeft(r, w, n), n)
        == Represented(v, q, r, n)
  {
    var w := RWave(n, s, e);
    var q2, r2 := MultiplyFromRight(q, w, n), MultiplyReverseFromLeft(r, w, n);
    var a := Represented(RotateBump(v, n, s, e), q2, r2, n);
    var b := Represented(v, q, r, n);
    forall x | 0 <= x < n ensures a[x] == b[x] {
      forall y | 0 <= y < n ensures a[x][y] == b[x][y] {
        assert RWaveRevAt(s, e, q2.fwd[x]) == w.rev[w.fwd[q.fwd[x]]];
        assert RWaveRevAt(s, e, r2.rev[y]) == w.rev[w.fwd[r.rev[y]]];
      }
    }
  }

  /** Replacing column R.rev[leaving] of U (transform_U_to_V_by_replacing_column)
      replaces column `leaving` of the represented matrix by `w` read
      through Q, and leaves every other column alone. */
  lemma {:induction false} ReplaceColumnInRepresented(u: seq<seq<real>>, q: Perm, r: Perm, n: nat, leaving: nat, w: seq<real>)
    requires IsMatrix(u, n) && IsPermutation(q, n) && IsPermutation(r, n) && leaving < n && |w| == n
    ensures var m := Represented(ReplaceColumn(u, n, r.rev[leaving], w), q, r, n);
      forall x, y | 0 <= x < n && 0 <= y < n ::
        m[x][y] == if y == leaving then w[q.fwd[x]] else Represented(u, q, r, n)[x][y]
  {
    var m := Represented(ReplaceColumn(u, n, r.rev[leaving], w), q, r, n);
    forall x, y | 0 <= x < n && 0 <= y < n
      ensures m[x][y] == if y == leaving then w[q.fwd[x]] else Represented(u, q, r, n)[x][y]
    {
      if y != leaving {
        assert r.fwd[r.rev[y]] == y && r.fwd[r.rev[leaving]] == leaving;
      }
    }
  }
}
