/** Dense vectors of coefficients and the indexed vector (indexed_vector<T>):
    a dense array paired with the list of positions believed non-zero. */
module Vectors {

  /** The sum of `a[i] * b[i]` over the first `n` coordinates. */
  function DotPrefix(a: seq<real>, b: seq<real>, n: nat): real
    requires n <= |a| && n <= |b|
  {
    if n == 0 then 0.0 else DotPrefix(a, b, n - 1) + a[n - 1] * b[n - 1]
  }

  /** The inner product of two dense vectors of equal length. */
  function Dot(a: seq<real>, b: seq<real>): real
    requires |a| == |b|
  {
    DotPrefix(a, b, |a|)
  }

  lemma {:induction false} DotPrefixUpdateRight(a: seq<real>, b: seq<real>, n: nat, k: nat, x: real)
    requires |a| == |b| && n <= |a| && k < |b|
    ensures DotPrefix(a, b[k := x], n)
         == DotPrefix(a, b, n) + (if k < n then a[k] * (x - b[k]) else 0.0)
  {
    if n > 0 {
      DotPrefixUpdateRight(a, b, n - 1, k, x);
    }
  }

  lemma {:induction false} DotPrefixUpdateLeft(a: seq<real>, b: seq<real>, n: nat, k: nat, x: real)
    requires |a| == |b| && n <= |a| && k < |a|
    ensures DotPrefix(a[k := x], b, n)
         == DotPrefix(a, b, n) + (if k < n then (x - a[k]) * b[k] else 0.0)
  {
    if n > 0 {
      DotPrefixUpdateLeft(a, b, n - 1, k, x);
    }
  }

  /** Changing one coordinate of the right operand changes the inner product
      by that coordinate's weight times the change. */
  lemma DotUpdateRight(a: seq<real>, b: seq<real>, k: nat, x: real)
    requires |a| == |b| && k < |b|
    ensures Dot(a, b[k := x]) == Dot(a, b) + a[k] * (x - b[k])
  {
    DotPrefixUpdateRight(a, b, |a|, k, x);
  }

  /** The same for the left operand. */
  lemma DotUpdateLeft(a: seq<real>, b: seq<real>, k: nat, x: real)
    requires |a| == |b| && k < |a|
    ensures Dot(a[k := x], b) == Dot(a, b) + (x - a[k]) * b[k]
  {
    DotPrefixUpdateLeft(a, b, |a|, k, x);
  }

  lemma {:induction false} DotPrefixPeelFirst(a: seq<real>, b: seq<real>, n: nat)
    requires |a| == |b| && 0 < n <= |a|
    ensures DotPrefix(a, b, n) == a[0] * b[0] + DotPrefix(a[1..], b[1..], n - 1)
  {
    if n > 1 {
      DotPrefixPeelFirst(a, b, n - 1);
      assert a[1..][n - 2] == a[n - 1] && b[1..][n - 2] == b[n - 1];
    }
  }

  /** The inner product read from the first coordinate on. */
  lemma DotPeelFirst(a: seq<real>, b: seq<real>)
    requires |a| == |b| > 0
    ensures Dot(a, b) == a[0] * b[0] + Dot(a[1..], b[1..])
  {
    DotPrefixPeelFirst(a, b, |a|);
  }

  /** A list of positions without repetitions. */
  predicate NoDup(s: seq<nat>) {
    forall i, j :: 0 <= i < j < |s| ==> s[i] != s[j]
  }

  /** indexed_vector::is_OK for exact coefficients: the index lists every
      non-zero position exactly once and nothing else. */
  predicate IndexMatches(data: seq<real>, index: seq<nat>) {
    && NoDup(index)
    && (forall k :: 0 <= k < |index| ==> index[k] < |data|)
    && (forall i :: 0 <= i < |data| ==> (data[i] != 0.0 <==> i in index))
  }

  /** Every non-zero position is listed (positions may repeat, and listed
      positions may hold zero). */
  predicate Covers(data: seq<real>, index: seq<nat>) {
    && (forall k | 0 <= k < |index| :: index[k] < |data|)
    && (forall i | 0 <= i < |data| && data[i] != 0.0 :: i in index)
  }

  /** The list without its first occurrence of `x` (std::find then erase). */
  function RemoveFirst(s: seq<nat>, x: nat): (r: seq<nat>)
    ensures x !in s ==> r == s
    ensures x in s ==> |r| == |s| - 1
    ensures forall y :: y in r ==> y in s
    ensures forall y :: y in s && y != x ==> y in r
    ensures NoDup(s) ==> NoDup(r) && x !in r
  {
    if s == [] then []
    else if s[0] == x then s[1..]
    else
      var t := RemoveFirst(s[1..], x);
      assert NoDup(s) ==> s[0] !in s[1..] && NoDup(s[1..]);
      assert NoDup(s) ==> s[0] !in t;
      [s[0]] + t
  }

  /** The positions `i` from `hi - 1` down to `lo` where `data[i]` is
      non-zero: the index a downward scan of the dense data rebuilds. */
  function NonZeroPositionsDown(data: seq<real>, lo: nat, hi: nat): (r: seq<nat>)
    requires lo <= hi <= |data|
    ensures forall k :: 0 <= k < |r| ==> lo <= r[k] < hi && data[r[k]] != 0.0
    ensures forall i :: lo <= i < hi && data[i] != 0.0 ==> i in r
    ensures NoDup(r)
    decreases hi - lo
  {
    if lo == hi then []
    else
      var rest := NonZeroPositionsDown(data, lo + 1, hi);
      if data[lo] != 0.0 then rest + [lo] else rest
  }

  /** indexed_vector<T>: dense data and the list of positions believed
      non-zero.  The data is a value the methods reassign. */
  class IndexedVector {
    var data: seq<real>
    var index: seq<nat>

    /** is_OK for exact coefficients. */
    ghost predicate IsOK()
      reads this
    {
      IndexMatches(data, index)
    }

    /** A vector of `n` zeros with an empty index. */
    constructor (n: nat)
      ensures data == seq(n, _ => 0.0) && index == []
    {
      data := seq(n, _ => 0.0);
      index := [];
    }

    /** set_value: store `v` at `i` and list `i`, even when it is listed
        already. */
    method SetValue(v: real, i: nat)
      requires i < |data|
      modifies this
      ensures data == old(data)[i := v] && index == old(index) + [i]
    {
      data := data[i := v];
      index := index + [i];
    }

    /** The `if (v[i] == 0) v.set_value(1, i)` idiom: mark `i` unless it
        holds a non-zero already. */
    method Mark(i: nat)
      requires i < |data| && IsOK()
      modifies this
      ensures IsOK() && |data| == |old(data)|
      ensures forall p :: p in index <==> p in old(index) || p == i
    {
      if data[i] == 0.0 {
        SetValue(1.0, i);
      }
    }

    /** erase_from_index: drop the first listing of `i`, data untouched. */
    method EraseFromIndex(i: nat)
      modifies this
      ensures data == old(data) && index == RemoveFirst(old(index), i)
    {
      index := RemoveFirst(index, i);
    }

    /** clear_all: every coordinate zero, nothing listed, size kept. */
    method ClearAll()
      modifies this
      ensures data == seq(|old(data)|, _ => 0.0) && index == []
      ensures IsOK()
    {
      data := seq(|data|, _ => 0.0);
      index := [];
    }

    /** clear: zero the listed positions and empty the index. */
    method Clear()
      modifies this
      ensures |data| == |old(data)| && index == []
      ensures forall i | 0 <= i < |data| :: data[i] == if i in old(index) then 0.0 else old(data)[i]
      ensures old(IsOK()) ==> data == seq(|data|, _ => 0.0)
    {
      ghost var d := data;
      var listed := index;
      var k := 0;
      while k < |listed|
        invariant 0 <= k <= |listed| && |data| == |d|
        invariant forall i | 0 <= i < |data| :: data[i] == if i in listed[..k] then 0.0 else d[i]
      {
        if listed[k] < |data| {
          data := data[listed[k] := 0.0];
        }
        assert listed[..k + 1] == listed[..k] + [listed[k]];
        k := k + 1;
      }
      assert listed[..k] == listed;
      index := [];
    }

    /** resize: clear, then the data is cut or extended with zeros to `n`
        positions. */
    method Resize(n: nat)
      modifies this
      ensures |data| == n && index == []
      ensures old(IsOK()) ==> data == seq(n, _ => 0.0)
    {
      Clear();
      if n <= |data| {
        data := data[..n];
      } else {
        data := data + seq(n - |data|, _ => 0.0);
      }
    }
  }
}
