/** Permutations of {0..n) as the factorisation keeps them (permutation_matrix):
    the forward map together with its reverse, so that both directions are
    available in constant time. */
module Permutations {

  /** `fwd[i]` is the image of `i`; `rev` is the inverse map. */
  datatype Perm = Perm(fwd: seq<nat>, rev: seq<nat>)

  /** `p` is a bijection of {0..n) and `rev` is its inverse. */
  predicate IsPermutation(p: Perm, n: nat) {
    && |p.fwd| == n && |p.rev| == n
    && (forall i :: 0 <= i < n ==> p.fwd[i] < n && p.rev[p.fwd[i]] == i)
    && (forall k :: 0 <= k < n ==> p.rev[k] < n && p.fwd[p.rev[k]] == k)
  }

  /** permutation_matrix::init(n): the identity. */
  function Identity(n: nat): (p: Perm)
    ensures IsPermutation(p, n)
    ensures forall i :: 0 <= i < n ==> p.fwd[i] == i
  {
    Perm(seq(n, i => i), seq(n, i => i))
  }

  /** transpose_from_right(i, j): `this = this * (i j)`, the images of `i`
      and `j` are exchanged. */
  function TransposeFromRight(p: Perm, n: nat, i: nat, j: nat): (r: Perm)
    requires IsPermutation(p, n) && i < n && j < n
    ensures IsPermutation(r, n)
    ensures r.fwd[i] == p.fwd[j] && r.fwd[j] == p.fwd[i]
    ensures forall k :: 0 <= k < n && k != i && k != j ==> r.fwd[k] == p.fwd[k]
  {
    Perm(p.fwd[i := p.fwd[j]][j := p.fwd[i]], p.rev[p.fwd[i] := j][p.fwd[j] := i])
  }

  /** transpose_from_left(i, j): `this = (i j) * this`, the values `i` and `j`
      are exchanged wherever they occur. */
  function TransposeFromLeft(p: Perm, n: nat, i: nat, j: nat): (r: Perm)
    requires IsPermutation(p, n) && i < n && j < n
    ensures IsPermutation(r, n)
    ensures forall k :: 0 <= k < n ==>
      r.fwd[k] == (if p.fwd[k] == i then j else if p.fwd[k] == j then i else p.fwd[k])
  {
    Perm(p.fwd[p.rev[i] := j][p.rev[j] := i], p.rev[i := p.rev[j]][j := p.rev[i]])
  }

  /** multiply_by_permutation_from_right(q): every image of `this` is
      carried on by `q`.  Reading a permutation as the matrix whose row `i`
      has its one in column `fwd[i]`, this is `this = this * q`, the reading
      under which the bump rotation keeps Q U R (RotationKeepsRepresented). */
  function MultiplyFromRight(p: Perm, q: Perm, n: nat): (r: Perm)
    requires IsPermutation(p, n) && IsPermutation(q, n)
    ensures IsPermutation(r, n)
    ensures forall i :: 0 <= i < n ==> r.fwd[i] == q.fwd[p.fwd[i]]
    ensures forall k :: 0 <= k < n ==> r.rev[k] == p.rev[q.rev[k]]
  {
    Perm(seq(n, i requires 0 <= i < n => q.fwd[p.fwd[i]]),
         seq(n, k requires 0 <= k < n => p.rev[q.rev[k]]))
  }

  /** multiply_by_permutation_reverse_from_left(q): `this = q^-1 * this`
      in the same reading; `i` is first sent back through `q`. */
  function MultiplyReverseFromLeft(p: Perm, q: Perm, n: nat): (r: Perm)
    requires IsPermutation(p, n) && IsPermutation(q, n)
    ensures IsPermutation(r, n)
    ensures forall i :: 0 <= i < n ==> r.fwd[i] == p.fwd[q.rev[i]]
    ensures forall k :: 0 <= k < n ==> r.rev[k] == q.fwd[p.rev[k]]
  {
    Perm(seq(n, i requires 0 <= i < n => p.fwd[q.rev[i]]),
         seq(n, k requires 0 <= k < n => q.fwd[p.rev[k]]))
  }

  /** The image of `i` under the bump rotation of rows/columns
      [start, end]: `start` goes to `end`, every other index of the bump moves
      one place up, everything outside is fixed. */
  function RWaveAt(start: nat, end: nat, i: nat): nat {
    if start < end && i == start then end
    else if start < i <= end then i - 1
    else i
  }

  /** Where the rotation sends `k` back from. */
  function RWaveRevAt(start: nat, end: nat, k: nat): nat {
    if start < end && k == end then start
    else if start <= k < end then k + 1
    else k
  }

  /** The bump rotation as a permutation of {0..n). */
  function RWave(n: nat, start: nat, end: nat): (r: Perm)
    requires start <= end < n
    ensures IsPermutation(r, n)
    ensures start < end ==> r.fwd[start] == end && r.rev[end] == start
    ensures forall i | start < i <= end :: r.fwd[i] == i - 1
    ensures forall i | 0 <= i < n && (i < start || end < i) :: r.fwd[i] == i && r.rev[i] == i
    ensures start == end ==> forall i | 0 <= i < n :: r.fwd[i] == i
  {
    Perm(seq(n, i requires 0 <= i < n => RWaveAt(start, end, i)),
         seq(n, k requires 0 <= k < n => RWaveRevAt(start, end, k)))
  }
}
