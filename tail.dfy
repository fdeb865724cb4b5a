/** The elementary update matrices that make up the tail of a factorisation,
    their action on dense vectors from the left (for Bx = b) and from the
    right (for yB = c), and the order in which a solve applies the tail. */
module Tail {
  import opened Common
  import opened Vectors
  import opened Permutations

  /** One stored off-diagonal coefficient: position and value. */
  datatype Entry = Entry(index: nat, value: real)

  /** The kinds of matrix the factorisation appends to its tail. */
  datatype TailMatrix =
      /** eta_matrix: the identity except column `column`, whose diagonal is
          `1 / diagonal` and whose other coefficients are `entries`. */
    | Eta(column: nat, diagonal: real, entries: seq<Entry>)
      /** row_eta_matrix: the identity except row `row`, whose off-diagonal
          coefficients are `entries`. */
    | RowEta(row: nat, entries: seq<Entry>)
      /** one_elem_on_diag: the identity except the diagonal entry at `i`,
          which is `1 / val`. */
    | OneElemOnDiag(i: nat, val: real)
      /** square_dense_submatrix folded into the tail: the identity except on
          the coordinates `idx`, where it acts as the square matrix `block`. */
    | DenseBlock(idx: seq<nat>, block: seq<seq<real>>)

  predicate EntriesIn(es: seq<Entry>, n: nat) {
    forall e | e in es :: e.index < n
  }

  predicate EntriesAvoid(es: seq<Entry>, k: nat) {
    forall e | e in es :: e.index != k
  }

  predicate IsSquare(b: seq<seq<real>>, m: nat) {
    |b| == m && forall r | 0 <= r < m :: |b[r]| == m
  }

  /** The matrix is a well-formed `n`-by-`n` elementary matrix. */
  predicate WellFormed(t: TailMatrix, n: nat) {
    match t
    case Eta(j, d, es) => j < n && d != 0.0 && EntriesIn(es, n) && EntriesAvoid(es, j)
    case RowEta(i, es) => i < n && EntriesIn(es, n) && EntriesAvoid(es, i)
    case OneElemOnDiag(i, v) => i < n && v != 0.0
    case DenseBlock(idx, b) =>
      NoDup(idx) && (forall k | 0 <= k < |idx| :: idx[k] < n) && IsSquare(b, |idx|)
  }

  // ---------------------------------------------------------------------------
  // Building blocks on dense vectors

  /** `w[e.index] += c * e.value` for every entry, in order. */
  function AddScaled(w: seq<real>, es: seq<Entry>, c: real): (r: seq<real>)
    requires EntriesIn(es, |w|)
    ensures |r| == |w|
    decreases |es|
  {
    if |es| == 0 then w
    else AddScaled(w[es[0].index := w[es[0].index] + c * es[0].value], es[1..], c)
  }

  /** The sum of `w[e.index] * e.value` over the entries. */
  function Combine(w: seq<real>, es: seq<Entry>): real
    requires EntriesIn(es, |w|)
    decreases |es|
  {
    if |es| == 0 then 0.0 else w[es[0].index] * es[0].value + Combine(w, es[1..])
  }

  /** The coordinates of `w` listed in `idx`. */
  function Gather(w: seq<real>, idx: seq<nat>): (r: seq<real>)
    requires forall k | 0 <= k < |idx| :: idx[k] < |w|
    ensures |r| == |idx| && forall k | 0 <= k < |idx| :: r[k] == w[idx[k]]
  {
    seq(|idx|, k requires 0 <= k < |idx| => w[idx[k]])
  }

  /** `w[idx[k]] := vals[k]` for every k, in order. */
  function Scatter(w: seq<real>, idx: seq<nat>, vals: seq<real>): (r: seq<real>)
    requires |vals| == |idx| && forall k | 0 <= k < |idx| :: idx[k] < |w|
    ensures |r| == |w|
    decreases |idx|
  {
    if |idx| == 0 then w else Scatter(w[idx[0] := vals[0]], idx[1..], vals[1..])
  }

  /** `b` times the column vector `v`. */
  function MatVec(b: seq<seq<real>>, v: seq<real>): (r: seq<real>)
    requires forall k | 0 <= k < |b| :: |b[k]| == |v|
    ensures |r| == |b|
  {
    if b == [] then [] else [Dot(b[0], v)] + MatVec(b[1..], v)
  }

  /** The row vector `y` times `b`, whose rows have length `m`. */
  function VecMat(y: seq<real>, b: seq<seq<real>>, m: nat): (r: seq<real>)
    requires |y| == |b| && forall k | 0 <= k < |b| :: |b[k]| == m
    ensures |r| == m
  {
    if b == [] then seq(m, _ => 0.0)
    else AddVec(Scale(y[0], b[0]), VecMat(y[1..], b[1..], m))
  }

  function Scale(c: real, v: seq<real>): (r: seq<real>)
    ensures |r| == |v| && forall k | 0 <= k < |v| :: r[k] == c * v[k]
  {
    seq(|v|, k requires 0 <= k < |v| => c * v[k])
  }

  function AddVec(a: seq<real>, b: seq<real>): (r: seq<real>)
    requires |a| == |b|
    ensures |r| == |a| && forall k | 0 <= k < |a| :: r[k] == a[k] + b[k]
  {
    seq(|a|, k requires 0 <= k < |a| => a[k] + b[k])
  }

  // ---------------------------------------------------------------------------
  // The action of one tail matrix

  /** apply_from_left: `w := M w`. */
  function ApplyLeft(t: TailMatrix, w: seq<real>): (r: seq<real>)
    requires WellFormed(t, |w|)
    ensures |r| == |w|
  {
    match t
    case Eta(j, d, es) => AddScaled(w, es, w[j])[j := w[j] / d]
    case RowEta(i, es) => w[i := w[i] + Combine(w, es)]
    case OneElemOnDiag(i, v) => w[i := w[i] / v]
    case DenseBlock(idx, b) => Scatter(w, idx, MatVec(b, Gather(w, idx)))
  }

  /** apply_from_right: `y := y M`. */
  function ApplyRight(t: TailMatrix, y: seq<real>): (r: seq<real>)
    requires WellFormed(t, |y|)
    ensures |r| == |y|
  {
    match t
    case Eta(j, d, es) => y[j := y[j] / d + Combine(y, es)]
    case RowEta(i, es) => if y[i] == 0.0 then y else AddScaled(y, es, y[i])
    case OneElemOnDiag(i, v) => y[i := y[i] / v]
    case DenseBlock(idx, b) => Scatter(y, idx, VecMat(Gather(y, idx), b, |idx|))
  }

  /** one_elem_on_diag::apply_from_left_to_T on an indexed vector: only
      position `i` changes; a zero stays zero, anything else is divided by
      `val`, and with inexact coefficients a quotient below the drop
      tolerance is zeroed and unlisted. */
  method OneElemApplyToIndexed(i: nat, val: real, w: IndexedVector, s: LpSettings)
    requires i < |w.data| && val != 0.0
    modifies w
    ensures old(w.data[i]) == 0.0 ==> w.data == old(w.data) && w.index == old(w.index)
    ensures old(w.data[i]) != 0.0 && !s.precise && SmallerThanDrop(s, old(w.data[i]) / val) ==>
      w.data == old(w.data)[i := 0.0] && w.index == RemoveFirst(old(w.index), i)
    ensures old(w.data[i]) != 0.0 && (s.precise || !SmallerThanDrop(s, old(w.data[i]) / val)) ==>
      w.data == old(w.data)[i := old(w.data[i]) / val] && w.index == old(w.index)
    ensures s.precise ==> w.data == ApplyLeft(OneElemOnDiag(i, val), old(w.data))
    ensures old(w.IsOK()) ==> w.IsOK()
  {
    var t := w.data[i];
    if t == 0.0 {
      return;
    }
    t := t / val;
    w.data := w.data[i := t];
    if s.precise {
      return;
    }
    if SmallerThanDrop(s, t) {
      w.EraseFromIndex(i);
      w.data := w.data[i := 0.0];
      assert forall k | 0 <= k < |w.index| :: w.index[k] in old(w.index);
    }
  }

  /** conjugate_by_permutation(p): every coordinate the matrix names is
      renamed through the reverse map of `p`. */
  function Conjugate(t: TailMatrix, p: Perm, n: nat): (r: TailMatrix)
    requires IsPermutation(p, n) && WellFormed(t, n)
    ensures WellFormed(r, n)
  {
    match t
    case Eta(j, d, es) =>
      ConjugateEntriesFacts(es, p, n, j);
      Eta(p.rev[j], d, RenameEntries(es, p, n))
    case RowEta(i, es) =>
      ConjugateEntriesFacts(es, p, n, i);
      RowEta(p.rev[i], RenameEntries(es, p, n))
    case OneElemOnDiag(i, v) => OneElemOnDiag(p.rev[i], v)
    case DenseBlock(idx, b) => DenseBlock(RenameIndices(idx, p, n), b)
  }

  function RenameIndices(idx: seq<nat>, p: Perm, n: nat): (r: seq<nat>)
    requires IsPermutation(p, n) && NoDup(idx) && forall k | 0 <= k < |idx| :: idx[k] < n
    ensures |r| == |idx| && NoDup(r)
    ensures forall k | 0 <= k < |idx| :: r[k] == p.rev[idx[k]] && r[k] < n
  {
    var r := seq(|idx|, k requires 0 <= k < |idx| => p.rev[idx[k]]);
    assert NoDup(r) by {
      forall a, b | 0 <= a < b < |r| ensures r[a] != r[b] {
        RevInjective(p, n, idx[a], idx[b]);
      }
    }
    r
  }

  function RenameEntries(es: seq<Entry>, p: Perm, n: nat): (r: seq<Entry>)
    requires IsPermutation(p, n) && EntriesIn(es, n)
    ensures |r| == |es|
    ensures forall k | 0 <= k < |es| :: r[k] == Entry(p.rev[es[k].index], es[k].value)
  {
    seq(|es|, k requires 0 <= k < |es| => assert es[k] in es; Entry(p.rev[es[k].index], es[k].value))
  }

  lemma RevInjective(p: Perm, n: nat, a: nat, b: nat)
    requires IsPermutation(p, n) && a < n && b < n && a != b
    ensures p.rev[a] != p.rev[b]
  {
    assert p.fwd[p.rev[a]] == a && p.fwd[p.rev[b]] == b;
  }

  lemma ConjugateEntriesFacts(es: seq<Entry>, p: Perm, n: nat, j: nat)
    requires IsPermutation(p, n) && EntriesIn(es, n) && EntriesAvoid(es, j) && j < n
    ensures EntriesIn(RenameEntries(es, p, n), n)
    ensures EntriesAvoid(RenameEntries(es, p, n), p.rev[j])
  {
    var r := RenameEntries(es, p, n);
    forall e | e in r ensures e.index < n && e.index != p.rev[j] {
      var k :| 0 <= k < |r| && r[k] == e;
      assert es[k] in es;
      RevInjective(p, n, es[k].index, j);
    }
  }

  // ---------------------------------------------------------------------------
  // Unfolding steps used by the proofs about the tail

  /** The first entry of `es` is `Entry(k, v)`. */
  predicate HeadIs(es: seq<Entry>, k: nat, v: real) {
    |es| > 0 && es[0].index == k && es[0].value == v
  }

  lemma AddScaledHead(w: seq<real>, es: seq<Entry>, c: real)
    requires EntriesIn(es, |w|) && |es| > 0
    ensures es[0].index < |w| && EntriesIn(es[1..], |w|)
    ensures AddScaled(w, es, c)
         == AddScaled(w[es[0].index := w[es[0].index] + c * es[0].value], es[1..], c)
  {
    assert es[0] in es;
  }

  lemma AddScaledUnfold(w: seq<real>, es: seq<Entry>, c: real, k: nat, v: real)
    requires EntriesIn(es, |w|) && HeadIs(es, k, v)
    ensures k < |w| && EntriesIn(es[1..], |w|)
    ensures AddScaled(w, es, c) == AddScaled(w[k := w[k] + c * v], es[1..], c)
  {
    AddScaledHead(w, es, c);
    var x := c * v;
    assert x == c * es[0].value;
    assert w[k := w[k] + x] == w[es[0].index := w[es[0].index] + c * es[0].value];
  }

  /** Coordinates no entry names are left alone. */
  lemma {:induction false} AddScaledAvoid(w: seq<real>, es: seq<Entry>, c: real, k: nat)
    requires EntriesIn(es, |w|) && k < |w| && EntriesAvoid(es, k)
    ensures AddScaled(w, es, c)[k] == w[k]
    decreases |es|
  {
    if |es| > 0 {
      var i, v := es[0].index, es[0].value;
      AddScaledUnfold(w, es, c, i, v);
      AddScaledAvoid(w[i := w[i] + c * v], es[1..], c, k);
    }
  }

  lemma CombineUnfold(w: seq<real>, es: seq<Entry>, k: nat, v: real)
    requires EntriesIn(es, |w|) && HeadIs(es, k, v)
    ensures k < |w| && EntriesIn(es[1..], |w|)
    ensures Combine(w, es) == w[k] * v + Combine(w, es[1..])
  {
    assert es[0] in es;
    var x := w[k] * v;
    assert x == w[es[0].index] * es[0].value;
  }

  lemma ScatterUnfold(w: seq<real>, idx: seq<nat>, vals: seq<real>)
    requires |vals| == |idx| && |idx| > 0 && forall k | 0 <= k < |idx| :: idx[k] < |w|
    ensures Scatter(w, idx, vals) == Scatter(w[idx[0] := vals[0]], idx[1..], vals[1..])
  {
  }

  /** Overwriting the first listed coordinate leaves the others' values as
      they were. */
  lemma GatherRest(w: seq<real>, idx: seq<nat>, x: real)
    requires |idx| > 0 && NoDup(idx) && forall k | 0 <= k < |idx| :: idx[k] < |w|
    ensures NoDup(idx[1..])
    ensures Gather(w[idx[0] := x], idx[1..]) == Gather(w, idx[1..]) == Gather(w, idx)[1..]
  {
    var a, b := Gather(w[idx[0] := x], idx[1..]), Gather(w, idx[1..]);
    assert forall k | 0 <= k < |a| :: a[k] == b[k] by {
      forall k | 0 <= k < |a| ensures a[k] == b[k] {
        assert idx[1..][k] == idx[k + 1] != idx[0];
      }
    }
  }

  // ---------------------------------------------------------------------------
  // The tail as a whole

  predicate AllWellFormed(tail: seq<TailMatrix>, n: nat) {
    forall k | 0 <= k < |tail| :: WellFormed(tail[k], n)
  }

  /** apply_lp_list_to_y / apply_lp_list_to_w: the tail applied from the left,
      oldest matrix first. */
  function TailLeft(tail: seq<TailMatrix>, w: seq<real>): (r: seq<real>)
    requires AllWellFormed(tail, |w|)
    ensures |r| == |w|
  {
    if tail == [] then w else ApplyLeft(tail[|tail| - 1], TailLeft(tail[..|tail| - 1], w))
  }

  /** The loop of solve_yB: the tail applied from the right, newest matrix
      first. */
  function TailRight(tail: seq<TailMatrix>, y: seq<real>): (r: seq<real>)
    requires AllWellFormed(tail, |y|)
    ensures |r| == |y|
  {
    if tail == [] then y else ApplyRight(tail[0], TailRight(tail[1..], y))
  }

  /** A matrix appended to the tail is applied last by a forward solve. */
  lemma TailLeftAppend(tail: seq<TailMatrix>, t: TailMatrix, w: seq<real>)
    requires AllWellFormed(tail + [t], |w|)
    ensures AllWellFormed(tail, |w|) && WellFormed(t, |w|)
    ensures TailLeft(tail + [t], w) == ApplyLeft(t, TailLeft(tail, w))
  {
    assert (tail + [t])[|tail|] == t;
    assert (tail + [t])[..|tail|] == tail;
  }

  /** A matrix appended to the tail is applied first by a backward solve. */
  lemma {:induction false} TailRightAppend(tail: seq<TailMatrix>, t: TailMatrix, y: seq<real>)
    requires AllWellFormed(tail + [t], |y|)
    ensures AllWellFormed(tail, |y|) && WellFormed(t, |y|)
    ensures TailRight(tail + [t], y) == TailRight(tail, ApplyRight(t, y))
    decreases |tail|
  {
    assert (tail + [t])[|tail|] == t;
    assert forall k | 0 <= k < |tail| :: (tail + [t])[k] == tail[k];
    if |tail| > 0 {
      assert (tail + [t])[1..] == tail[1..] + [t];
      TailRightAppend(tail[1..], t, y);
    }
  }

  // ---------------------------------------------------------------------------
  // What conjugation by a permutation means

  /** `w` read through `p`: coordinate `x` holds `w[p.fwd[x]]`. */
  function Permute(w: seq<real>, p: Perm, n: nat): (r: seq<real>)
    requires IsPermutation(p, n) && |w| == n
    ensures |r| == n && forall x | 0 <= x < n :: r[x] == w[p.fwd[x]]
  {
    seq(n, x requires 0 <= x < n => w[p.fwd[x]])
  }

  /** Writing coordinate `k` and then reading through `p` is writing
      coordinate `p.rev[k]` of the read vector. */
  lemma PermuteUpdate(w: seq<real>, p: Perm, n: nat, k: nat, v: real)
    requires IsPermutation(p, n) && |w| == n && k < n
    ensures p.rev[k] < n && Permute(w, p, n)[p.rev[k] := v] == Permute(w[k := v], p, n)
  {
    var a, b := Permute(w, p, n)[p.rev[k] := v], Permute(w[k := v], p, n);
    forall x | 0 <= x < n ensures a[x] == b[x] {
      assert p.fwd[x] == k <==> x == p.rev[k];
    }
  }

  lemma RenameEntriesTail(es: seq<Entry>, p: Perm, n: nat)
    requires IsPermutation(p, n) && EntriesIn(es, n) && |es| > 0
    ensures EntriesIn(es[1..], n)
    ensures RenameEntries(es, p, n)[1..] == RenameEntries(es[1..], p, n)
  {
  }

  lemma {:induction false} CombineRenamed(w: seq<real>, es: seq<Entry>, p: Perm, n: nat)
    requires IsPermutation(p, n) && |w| == n && EntriesIn(es, n)
    ensures EntriesIn(RenameEntries(es, p, n), n)
    ensures Combine(Permute(w, p, n), RenameEntries(es, p, n)) == Combine(w, es)
    decreases |es|
  {
    var es' := RenameEntries(es, p, n);
    assert EntriesIn(es', n) by {
      forall t | t in es' ensures t.index < n {
        var k :| 0 <= k < |es'| && es'[k] == t;
        assert es[k] in es;
      }
    }
    if |es| > 0 {
      var k, v := es[0].index, es[0].value;
      assert es[0] in es;
      RenameEntriesTail(es, p, n);
      CombineRenamed(w, es[1..], p, n);
      CombineUnfold(w, es, k, v);
      CombineUnfold(Permute(w, p, n), es', p.rev[k], v);
    }
  }

  lemma {:induction false} AddScaledRenamed(w: seq<real>, es: seq<Entry>, c: real, p: Perm, n: nat)
    requires IsPermutation(p, n) && |w| == n && EntriesIn(es, n)
    ensures EntriesIn(RenameEntries(es, p, n), n)
    ensures AddScaled(Permute(w, p, n), RenameEntries(es, p, n), c) == Permute(AddScaled(w, es, c), p, n)
    decreases |es|
  {
    var es' := RenameEntries(es, p, n);
    CombineRenamed(w, es, p, n);
    if |es| > 0 {
      var k, v := es[0].index, es[0].value;
      assert es[0] in es;
      RenameEntriesTail(es, p, n);
      AddScaledUnfold(w, es, c, k, v);
      AddScaledUnfold(Permute(w, p, n), es', c, p.rev[k], v);
      PermuteUpdate(w, p, n, k, w[k] + c * v);
      AddScaledRenamed(w[k := w[k] + c * v], es[1..], c, p, n);
    }
  }

  lemma GatherRenamed(w: seq<real>, idx: seq<nat>, p: Perm, n: nat)
    requires IsPermutation(p, n) && |w| == n && NoDup(idx) && forall k | 0 <= k < |idx| :: idx[k] < n
    ensures Gather(Permute(w, p, n), RenameIndices(idx, p, n)) == Gather(w, idx)
  {
  }

  lemma {:induction false} ScatterRenamed(w: seq<real>, idx: seq<nat>, vals: seq<real>, p: Perm, n: nat)
    requires IsPermutation(p, n) && |w| == n && NoDup(idx) && forall k | 0 <= k < |idx| :: idx[k] < n
    requires |vals| == |idx|
    ensures Scatter(Permute(w, p, n), RenameIndices(idx, p, n), vals) == Permute(Scatter(w, idx, vals), p, n)
    decreases |idx|
  {
    if |idx| > 0 {
      var idx' := RenameIndices(idx, p, n);
      assert NoDup(idx[1..]);
      assert RenameIndices(idx, p, n)[1..] == RenameIndices(idx[1..], p, n);
      ScatterUnfold(w, idx, vals);
      ScatterUnfold(Permute(w, p, n), idx', vals);
      PermuteUpdate(w, p, n, idx[0], vals[0]);
      ScatterRenamed(w[idx[0] := vals[0]], idx[1..], vals[1..], p, n);
    }
  }

  /** conjugate_by_permutation(p) is a change of coordinates: applied from
      the left to a vector read through `p`, the conjugated matrix gives
      the original matrix's result read through `p`. */
  lemma ConjugateActsLeft(t: TailMatrix, p: Perm, n: nat, w: seq<real>)
    requires IsPermutation(p, n) && WellFormed(t, n) && |w| == n
    ensures ApplyLeft(Conjugate(t, p, n), Permute(w, p, n)) == Permute(ApplyLeft(t, w), p, n)
  {
    var pw := Permute(w, p, n);
    match t
    case Eta(j, d, es) =>
      AddScaledRenamed(w, es, w[j], p, n);
      AddScaledAvoid(w, es, w[j], j);
      PermuteUpdate(AddScaled(w, es, w[j]), p, n, j, w[j] / d);
    case RowEta(i, es) =>
      CombineRenamed(w, es, p, n);
      PermuteUpdate(w, p, n, i, w[i] + Combine(w, es));
    case OneElemOnDiag(i, v) =>
      PermuteUpdate(w, p, n, i, w[i] / v);
    case DenseBlock(idx, b) =>
      GatherRenamed(w, idx, p, n);
      ScatterRenamed(w, idx, MatVec(b, Gather(w, idx)), p, n);
  }

  /** The same change of coordinates for a row vector and apply_from_right. */
  lemma ConjugateActsRight(t: TailMatrix, p: Perm, n: nat, y: seq<real>)
    requires IsPermutation(p, n) && WellFormed(t, n) && |y| == n
    ensures ApplyRight(Conjugate(t, p, n), Permute(y, p, n)) == Permute(ApplyRight(t, y), p, n)
  {
    match t
    case Eta(j, d, es) =>
      CombineRenamed(y, es, p, n);
      PermuteUpdate(y, p, n, j, y[j] / d + Combine(y, es));
    case RowEta(i, es) =>
      AddScaledRenamed(y, es, y[i], p, n);
    case OneElemOnDiag(i, v) =>
      PermuteUpdate(y, p, n, i, y[i] / v);
    case DenseBlock(idx, b) =>
      GatherRenamed(y, idx, p, n);
      ScatterRenamed(y, idx, VecMat(Gather(y, idx), b, |idx|), p, n);
  }
}
