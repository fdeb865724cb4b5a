/** apply_from_right is the transpose of apply_from_left, matrix by matrix
    and for the tail as a whole: a backward solve applies exactly the
    transposed operator of a forward solve. */
module TailDuality {
  import opened Vectors
  import opened Tail

  /** Adding `c` times the entries to `w` adds `c` times their combination
      with `y` to the inner product; `s` names that combination. */
  lemma {:induction false} DotAddScaledRight(y: seq<real>, w: seq<real>, es: seq<Entry>, c: real, s: real)
    requires |y| == |w| && EntriesIn(es, |w|) && s == Combine(y, es)
    ensures Dot(y, AddScaled(w, es, c)) == Dot(y, w) + c * s
    decreases |es|, 1
  {
    if |es| > 0 {
      DotAddScaledRightStep(y, w, es, c, s);
    } else {
      assert AddScaled(w, es, c) == w;
      assert s == 0.0;
    }
  }

  lemma {:induction false} DotAddScaledRightStep(y: seq<real>, w: seq<real>, es: seq<Entry>, c: real, s: real)
    requires |y| == |w| && EntriesIn(es, |w|) && |es| > 0 && s == Combine(y, es)
    ensures Dot(y, AddScaled(w, es, c)) == Dot(y, w) + c * s
    decreases |es|, 0
  {
    var k, v := es[0].index, es[0].value;
    var w1 := w[k := w[k] + c * v];
    AddScaledUnfold(w, es, c, k, v);
    CombineUnfold(y, es, k, v);
    var rest := Combine(y, es[1..]);
    DotAddScaledRight(y, w1, es[1..], c, rest);
    DotBumpRight(k, y, w, c * v, y[k]);
    StepArith(Dot(y, AddScaled(w, es, c)), Dot(y, AddScaled(w1, es[1..], c)), Dot(y, w1), Dot(y, w),
              y[k], c * v, c, v, rest, s);
  }

  /** The arithmetic of one step of DotAddScaledRight and DotAddScaledLeft. */
  lemma StepArith(target: real, t1: real, d1: real, d: real, a: real, cv: real, c: real, v: real,
                  rest: real, all: real)
    requires target == t1 && t1 == d1 + c * rest
    requires d1 == d + a * cv && cv == c * v
    requires all == a * v + rest
    ensures target == d + c * all
  {
  }

  /** The same for the left operand. */
  lemma {:induction false} DotAddScaledLeft(y: seq<real>, w: seq<real>, es: seq<Entry>, c: real, s: real)
    requires |y| == |w| && EntriesIn(es, |y|) && s == Combine(w, es)
    ensures Dot(AddScaled(y, es, c), w) == Dot(y, w) + c * s
    decreases |es|, 1
  {
    if |es| > 0 {
      DotAddScaledLeftStep(y, w, es, c, s);
    } else {
      assert AddScaled(y, es, c) == y;
      assert s == 0.0;
    }
  }

  lemma {:induction false} DotAddScaledLeftStep(y: seq<real>, w: seq<real>, es: seq<Entry>, c: real, s: real)
    requires |y| == |w| && EntriesIn(es, |y|) && |es| > 0 && s == Combine(w, es)
    ensures Dot(AddScaled(y, es, c), w) == Dot(y, w) + c * s
    decreases |es|, 0
  {
    var k, v := es[0].index, es[0].value;
    var y1 := y[k := y[k] + c * v];
    AddScaledUnfold(y, es, c, k, v);
    CombineUnfold(w, es, k, v);
    var rest := Combine(w, es[1..]);
    DotAddScaledLeft(y1, w, es[1..], c, rest);
    DotBumpLeft(k, y, w, c * v, w[k]);
    StepArith(Dot(AddScaled(y, es, c), w), Dot(AddScaled(y1, es[1..], c), w), Dot(y1, w), Dot(y, w),
              w[k], c * v, c, v, rest, s);
  }

  /** Adding `c` to one coordinate of the right operand. */
  lemma DotBumpRight(i: nat, y: seq<real>, w: seq<real>, c: real, yi: real)
    requires |y| == |w| && i < |w| && yi == y[i]
    ensures Dot(y, w[i := w[i] + c]) == Dot(y, w) + yi * c
  {
    DotUpdateRight(y, w, i, w[i] + c);
    assert (w[i] + c) - w[i] == c;
  }

  /** Adding `c` to one coordinate of the left operand. */
  lemma DotBumpLeft(i: nat, y: seq<real>, w: seq<real>, c: real, wi: real)
    requires |y| == |w| && i < |y| && wi == w[i]
    ensures Dot(y[i := y[i] + c], w) == Dot(y, w) + wi * c
  {
    DotUpdateLeft(y, w, i, y[i] + c);
    assert (y[i] + c) - y[i] == c;
  }

  /** Overwriting distinct coordinates changes the inner product by the
      overwritten amounts. */
  lemma {:induction false} DotScatter(y: seq<real>, w: seq<real>, idx: seq<nat>, vals: seq<real>)
    requires |y| == |w| && |vals| == |idx| && NoDup(idx)
    requires forall k | 0 <= k < |idx| :: idx[k] < |w|
    ensures Dot(y, Scatter(w, idx, vals))
         == Dot(y, w) + Dot(Gather(y, idx), vals) - Dot(Gather(y, idx), Gather(w, idx))
    decreases |idx|
  {
    if |idx| > 0 {
      var w1 := w[idx[0] := vals[0]];
      var gy, gw := Gather(y, idx), Gather(w, idx);
      ScatterUnfold(w, idx, vals);
      GatherRest(w, idx, vals[0]);
      GatherRest(y, idx, 0.0);
      DotScatter(y, w1, idx[1..], vals[1..]);
      DotSetRight(y, w, idx[0], vals[0], gy[0], gw[0]);
      DotPeelFirst(gy, vals);
      DotPeelFirst(gy, gw);
      ScatterArith(Dot(y, Scatter(w, idx, vals)), Dot(y, w1), Dot(y, w), gy[0], vals[0], gw[0],
                   Dot(gy, vals), Dot(gy[1..], vals[1..]), Dot(gy, gw), Dot(gy[1..], gw[1..]));
    }
  }

  lemma {:induction false} DotScatterLeft(y: seq<real>, w: seq<real>, idx: seq<nat>, vals: seq<real>)
    requires |y| == |w| && |vals| == |idx| && NoDup(idx)
    requires forall k | 0 <= k < |idx| :: idx[k] < |y|
    ensures Dot(Scatter(y, idx, vals), w)
         == Dot(y, w) + Dot(vals, Gather(w, idx)) - Dot(Gather(y, idx), Gather(w, idx))
    decreases |idx|
  {
    if |idx| > 0 {
      var y1 := y[idx[0] := vals[0]];
      var gy, gw := Gather(y, idx), Gather(w, idx);
      ScatterUnfold(y, idx, vals);
      GatherRest(y, idx, vals[0]);
      GatherRest(w, idx, 0.0);
      DotScatterLeft(y1, w, idx[1..], vals[1..]);
      DotSetLeft(y, w, idx[0], vals[0], gy[0], gw[0]);
      DotPeelFirst(vals, gw);
      DotPeelFirst(gy, gw);
      ScatterLeftArith(Dot(Scatter(y, idx, vals), w), Dot(y1, w), Dot(y, w), gy[0], vals[0], gw[0],
                       Dot(vals, gw), Dot(vals[1..], gw[1..]), Dot(gy, gw), Dot(gy[1..], gw[1..]));
    }
  }

  lemma ScatterArith(s: real, d1: real, d: real, y0: real, v0: real, w0: real,
                     p: real, p1: real, q: real, q1: real)
    requires s == d1 + p1 - q1 && d1 == d + y0 * (v0 - w0)
    requires p == y0 * v0 + p1 && q == y0 * w0 + q1
    ensures s == d + p - q
  {
  }

  lemma ScatterLeftArith(s: real, d1: real, d: real, y0: real, v0: real, w0: real,
                         p: real, p1: real, q: real, q1: real)
    requires s == d1 + p1 - q1 && d1 == d + (v0 - y0) * w0
    requires p == v0 * w0 + p1 && q == y0 * w0 + q1
    ensures s == d + p - q
  {
  }

  lemma {:induction false} DotPrefixZeros(z: seq<real>, v: seq<real>, n: nat)
    requires |z| == |v| && n <= |v| && forall k | 0 <= k < |z| :: z[k] == 0.0
    ensures DotPrefix(z, v, n) == 0.0
  {
    if n > 0 {
      DotPrefixZeros(z, v, n - 1);
      ZeroMul(z[n - 1], v[n - 1]);
    }
  }

  lemma {:induction false} DotPrefixAddScale(c: real, a: seq<real>, b: seq<real>, v: seq<real>, n: nat)
    requires |a| == |b| == |v| && n <= |v|
    ensures DotPrefix(AddVec(Scale(c, a), b), v, n) == c * DotPrefix(a, v, n) + DotPrefix(b, v, n)
  {
    if n > 0 {
      var s := AddVec(Scale(c, a), b);
      DotPrefixAddScale(c, a, b, v, n - 1);
      Distribute2(c, a[n - 1], b[n - 1], s[n - 1], v[n - 1], DotPrefix(a, v, n - 1), DotPrefix(b, v, n - 1));
    }
  }

  lemma Distribute2(c: real, a: real, b: real, sum: real, v: real, da: real, db: real)
    requires sum == c * a + b
    ensures (c * da + db) + sum * v == c * (da + a * v) + (db + b * v)
  {
  }

  lemma DotAddScale(c: real, a: seq<real>, b: seq<real>, v: seq<real>)
    requires |a| == |b| == |v|
    ensures Dot(AddVec(Scale(c, a), b), v) == c * Dot(a, v) + Dot(b, v)
  {
    DotPrefixAddScale(c, a, b, v, |v|);
  }

  /** Summing rows first or columns first gives the same bilinear form. */
  lemma {:induction false} MatVecVecMat(y: seq<real>, b: seq<seq<real>>, v: seq<real>)
    requires |y| == |b| && forall k | 0 <= k < |b| :: |b[k]| == |v|
    ensures Dot(y, MatVec(b, v)) == Dot(VecMat(y, b, |v|), v)
    decreases |b|
  {
    if |b| == 0 {
      DotPrefixZeros(seq(|v|, _ => 0.0), v, |v|);
    } else {
      var mv := MatVec(b, v);
      assert mv[1..] == MatVec(b[1..], v);
      DotPeelFirst(y, mv);
      MatVecVecMat(y[1..], b[1..], v);
      DotAddScale(y[0], b[0], VecMat(y[1..], b[1..], |v|), v);
    }
  }

  /** DotUpdateRight and DotUpdateLeft with the coordinates named by the caller. */
  lemma DotSetRight(y: seq<real>, w: seq<real>, k: nat, x: real, yk: real, wk: real)
    requires |y| == |w| && k < |w| && yk == y[k] && wk == w[k]
    ensures Dot(y, w[k := x]) == Dot(y, w) + yk * (x - wk)
  {
    DotUpdateRight(y, w, k, x);
  }

  lemma DotSetLeft(y: seq<real>, w: seq<real>, k: nat, x: real, yk: real, wk: real)
    requires |y| == |w| && k < |w| && yk == y[k] && wk == w[k]
    ensures Dot(y[k := x], w) == Dot(y, w) + (x - yk) * wk
  {
    DotUpdateLeft(y, w, k, x);
  }

  lemma EtaLeftValue(j: nat, d: real, es: seq<Entry>, y: seq<real>, w: seq<real>, yj: real, wj: real, c: real)
    requires |y| == |w| && WellFormed(Eta(j, d, es), |w|) && yj == y[j] && wj == w[j]
    requires c == Combine(y, es)
    ensures Dot(y, AddScaled(w, es, wj)[j := wj / d]) == Dot(y, w) + wj * c + yj * (wj / d - wj)
  {
    var a := AddScaled(w, es, wj);
    AddScaledAvoid(w, es, wj, j);
    DotAddScaledRight(y, w, es, wj, c);
    DotSetRight(y, a, j, wj / d, yj, wj);
  }

  lemma DualityEta(j: nat, d: real, es: seq<Entry>, y: seq<real>, w: seq<real>, yj: real, wj: real, c: real)
    requires |y| == |w| && WellFormed(Eta(j, d, es), |w|) && yj == y[j] && wj == w[j]
    requires c == Combine(y, es)
    ensures Dot(y, AddScaled(w, es, wj)[j := wj / d]) == Dot(y[j := yj / d + c], w)
  {
    EtaLeftValue(j, d, es, y, w, yj, wj, c);
    DotSetLeft(y, w, j, yj / d + c, yj, wj);
    EtaArith(Dot(y, AddScaled(w, es, wj)[j := wj / d]), Dot(y[j := yj / d + c], w), Dot(y, w), yj, wj, d, c);
  }

  lemma EtaArith(left: real, right: real, dw: real, yj: real, wj: real, d: real, c: real)
    requires d != 0.0
    requires left == dw + wj * c + yj * (wj / d - wj)
    requires right == dw + (yj / d + c - yj) * wj
    ensures left == right
  {
  }

  lemma OneElemArith(left: real, right: real, dw: real, a: real, b: real, v: real)
    requires v != 0.0
    requires left == dw + a * (b / v - b) && right == dw + (a / v - a) * b
    ensures left == right
  {
  }

  lemma ZeroMul(a: real, b: real)
    requires a == 0.0
    ensures a * b == 0.0
  {
  }

  lemma DualityRowEtaZero(i: nat, y: seq<real>, w: seq<real>, c: real)
    requires |y| == |w| && i < |w| && y[i] == 0.0
    ensures Dot(y, w[i := w[i] + c]) == Dot(y, w)
  {
    DotSetRight(y, w, i, w[i] + c, 0.0, w[i]);
  }

  lemma DualityRowEtaNonZero(i: nat, es: seq<Entry>, y: seq<real>, w: seq<real>, d: real, c: real)
    requires |y| == |w| && i < |w| && EntriesIn(es, |w|) && d == y[i] && c == Combine(w, es)
    ensures Dot(y, w[i := w[i] + c]) == Dot(AddScaled(y, es, d), w)
  {
    DotBumpRight(i, y, w, c, d);
    DotAddScaledLeft(y, w, es, d, c);
  }

  lemma DualityOneElem(i: nat, v: real, y: seq<real>, w: seq<real>, yi: real, wi: real)
    requires |y| == |w| && i < |w| && v != 0.0 && yi == y[i] && wi == w[i]
    ensures Dot(y, w[i := wi / v]) == Dot(y[i := yi / v], w)
  {
    DotSetRight(y, w, i, wi / v, yi, wi);
    DotSetLeft(y, w, i, yi / v, yi, wi);
    OneElemArith(Dot(y, w[i := wi / v]), Dot(y[i := yi / v], w), Dot(y, w), yi, wi, v);
  }

  lemma DualityDense(idx: seq<nat>, b: seq<seq<real>>, y: seq<real>, w: seq<real>)
    requires |y| == |w| && WellFormed(DenseBlock(idx, b), |w|)
    ensures Dot(y, Scatter(w, idx, MatVec(b, Gather(w, idx))))
         == Dot(Scatter(y, idx, VecMat(Gather(y, idx), b, |idx|)), w)
  {
    var gy, gw := Gather(y, idx), Gather(w, idx);
    DotScatter(y, w, idx, MatVec(b, gw));
    DotScatterLeft(y, w, idx, VecMat(gy, b, |idx|));
    MatVecVecMat(gy, b, gw);
  }

  lemma DualityEtaCase(t: TailMatrix, y: seq<real>, w: seq<real>)
    requires |y| == |w| && WellFormed(t, |w|) && t.Eta?
    ensures Dot(y, ApplyLeft(t, w)) == Dot(ApplyRight(t, y), w)
  {
    DualityEta(t.column, t.diagonal, t.entries, y, w, y[t.column], w[t.column], Combine(y, t.entries));
  }

  lemma DualityRowEtaCase(t: TailMatrix, y: seq<real>, w: seq<real>)
    requires |y| == |w| && WellFormed(t, |w|) && t.RowEta?
    ensures Dot(y, ApplyLeft(t, w)) == Dot(ApplyRight(t, y), w)
  {
    if y[t.row] == 0.0 {
      DualityRowEtaZero(t.row, y, w, Combine(w, t.entries));
    } else {
      DualityRowEtaNonZero(t.row, t.entries, y, w, y[t.row], Combine(w, t.entries));
    }
  }

  lemma DualityOneElemCase(t: TailMatrix, y: seq<real>, w: seq<real>)
    requires |y| == |w| && WellFormed(t, |w|) && t.OneElemOnDiag?
    ensures Dot(y, ApplyLeft(t, w)) == Dot(ApplyRight(t, y), w)
  {
    DualityOneElem(t.i, t.val, y, w, y[t.i], w[t.i]);
  }

  lemma DualityDenseCase(t: TailMatrix, y: seq<real>, w: seq<real>)
    requires |y| == |w| && WellFormed(t, |w|) && t.DenseBlock?
    ensures Dot(y, ApplyLeft(t, w)) == Dot(ApplyRight(t, y), w)
  {
    DualityDense(t.idx, t.block, y, w);
  }

  /** apply_from_right is the transpose of apply_from_left: for every row
      vector `y` and column vector `w`, `y (M w) == (y M) w`. */
  lemma Duality(t: TailMatrix, y: seq<real>, w: seq<real>)
    requires |y| == |w| && WellFormed(t, |w|)
    ensures Dot(y, ApplyLeft(t, w)) == Dot(ApplyRight(t, y), w)
  {
    if t.Eta? {
      DualityEtaCase(t, y, w);
    } else if t.RowEta? {
      DualityRowEtaCase(t, y, w);
    } else if t.OneElemOnDiag? {
      DualityOneElemCase(t, y, w);
    } else {
      DualityDenseCase(t, y, w);
    }
  }

  /** The backward solve applies the transpose of what the forward solve
      applies: `y (T w) == (y T) w` for the whole tail `T`. */
  lemma {:induction false} TailDuality(tail: seq<TailMatrix>, y: seq<real>, w: seq<real>)
    requires |y| == |w| && AllWellFormed(tail, |w|)
    ensures Dot(y, TailLeft(tail, w)) == Dot(TailRight(tail, y), w)
    decreases |tail|
  {
    if |tail| > 0 {
      var init, last := tail[..|tail| - 1], tail[|tail| - 1];
      assert tail == init + [last];
      Duality(last, y, TailLeft(init, w));
      TailDuality(init, ApplyRight(last, y), w);
      TailRightAppend(init, last, y);
    }
  }
}
