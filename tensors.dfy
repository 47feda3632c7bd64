/** Row-major tensors as flat sequences with a shape, and the index arithmetic
    (flattening, unflattening, splitting an axis) the pooling layers rely on. */
module Tensors {

  /** Number of elements of a tensor of the given shape. */
  function Prod(dims: seq<nat>): nat
    decreases |dims|
  {
    if |dims| == 0 then 1 else Prod(dims[..|dims| - 1]) * dims[|dims| - 1]
  }

  /** `idx` is a valid multi-index into a tensor of shape `dims`. */
  predicate InBounds(idx: seq<nat>, dims: seq<nat>)
  {
    |idx| == |dims| && forall i :: 0 <= i < |idx| ==> idx[i] < dims[i]
  }

  /** Row-major (C order) offset of a multi-index: the last axis varies fastest. */
  function Flat(idx: seq<nat>, dims: seq<nat>): nat
    requires |idx| == |dims|
    decreases |dims|
  {
    if |dims| == 0 then 0
    else Flat(idx[..|idx| - 1], dims[..|dims| - 1]) * dims[|dims| - 1] + idx[|idx| - 1]
  }

  /** Division with remainder has a unique result. */
  lemma DivModUnique(a: nat, x: nat, b: nat, y: nat, n: nat)
    requires x < n && y < n
    requires a * n + x == b * n + y
    ensures a == b && x == y
  {
    if a < b {
      assert (a + 1) * n <= b * n by { MulLeMono(a + 1, b, n); }
      assert false;
    } else if b < a {
      assert (b + 1) * n <= a * n by { MulLeMono(b + 1, a, n); }
      assert false;
    }
  }

  lemma MulAssoc(a: int, b: int, c: int)
    ensures a * b * c == a * (b * c)
  {
  }

  lemma MulAddRight(x: int, y: int, a: int)
    ensures (x + y) * a == x * a + y * a
  {
  }

  lemma MulLeMono(a: nat, b: nat, n: nat)
    requires a <= b
    ensures a * n <= b * n
  {
  }

  /** An index in bounds of `n * a` divided by `a` is in bounds of `n`. */
  lemma DivBound(i: nat, n: nat, a: nat)
    requires a >= 1 && i < n * a
    ensures i / a < n
  {
    if i / a >= n {
      assert a * (i / a) >= a * n by { MulLeMono(n, i / a, a); }
      assert false;
    }
  }

  /** A multiple of `a` below `n * a`, scaled back by `a`, stays in bounds. */
  lemma MulBound(i: nat, n: nat, a: nat)
    requires a >= 1 && i < n
    ensures i * a < n * a
  {
    MulLeMono(i + 1, n, a);
  }

  lemma {:induction false} FlatBound(idx: seq<nat>, dims: seq<nat>)
    requires InBounds(idx, dims)
    ensures Flat(idx, dims) < Prod(dims)
    decreases |dims|
  {
    if |dims| > 0 {
      var n := |dims| - 1;
      assert InBounds(idx[..n], dims[..n]);
      FlatBound(idx[..n], dims[..n]);
      var f := Flat(idx[..n], dims[..n]);
      MulLeMono(f + 1, Prod(dims[..n]), dims[n]);
      assert (f + 1) * dims[n] == f * dims[n] + dims[n];
    }
  }

  /** The multi-index at a given row-major offset. */
  function Unflat(k: nat, dims: seq<nat>): (idx: seq<nat>)
    requires k < Prod(dims)
    ensures InBounds(idx, dims) && Flat(idx, dims) == k
    decreases |dims|
  {
    if |dims| == 0 then []
    else
      var n := |dims| - 1;
      var last := dims[n];
      assert last > 0;
      assert k / last < Prod(dims[..n]) by { DivBound(k, Prod(dims[..n]), last); }
      var init := Unflat(k / last, dims[..n]);
      var idx := init + [k % last];
      assert idx[..n] == init;
      idx
  }

  lemma {:induction false} FlatInjective(i1: seq<nat>, i2: seq<nat>, dims: seq<nat>)
    requires InBounds(i1, dims) && InBounds(i2, dims)
    requires Flat(i1, dims) == Flat(i2, dims)
    ensures i1 == i2
    decreases |dims|
  {
    if |dims| > 0 {
      var n := |dims| - 1;
      DivModUnique(Flat(i1[..n], dims[..n]), i1[n], Flat(i2[..n], dims[..n]), i2[n], dims[n]);
      FlatInjective(i1[..n], i2[..n], dims[..n]);
      assert i1 == i1[..n] + [i1[n]];
      assert i2 == i2[..n] + [i2[n]];
    }
  }

  /** Unflattening the offset of an in-bounds multi-index gives that index back. */
  lemma UnflatFlat(idx: seq<nat>, dims: seq<nat>)
    requires InBounds(idx, dims)
    ensures Flat(idx, dims) < Prod(dims)
    ensures Unflat(Flat(idx, dims), dims) == idx
  {
    FlatBound(idx, dims);
    FlatInjective(Unflat(Flat(idx, dims), dims), idx, dims);
  }

  lemma {:induction false} ProdAppend(d1: seq<nat>, d2: seq<nat>)
    ensures Prod(d1 + d2) == Prod(d1) * Prod(d2)
    decreases |d2|
  {
    if |d2| > 0 {
      var n := |d2| - 1;
      var d := d1 + d2;
      assert d[..|d| - 1] == d1 + d2[..n] && d[|d| - 1] == d2[n];
      assert Prod(d) == Prod(d1 + d2[..n]) * d2[n];
      ProdAppend(d1, d2[..n]);
      MulAssoc(Prod(d1), Prod(d2[..n]), d2[n]);
    } else {
      assert d1 + d2 == d1;
    }
  }

  lemma Distribute(a: int, p: int, b: int, m: int)
    ensures (a * p + b) * m == a * (p * m) + b * m
  {
  }

  /** The offset of a concatenated multi-index splits into the offsets of its parts. */
  lemma {:induction false} FlatAppend(i1: seq<nat>, i2: seq<nat>, d1: seq<nat>, d2: seq<nat>)
    requires |i1| == |d1| && |i2| == |d2|
    ensures Flat(i1 + i2, d1 + d2) == Flat(i1, d1) * Prod(d2) + Flat(i2, d2)
    decreases |d2|
  {
    if |d2| > 0 {
      var n := |d2| - 1;
      var i, d := i1 + i2, d1 + d2;
      assert i[..|i| - 1] == i1 + i2[..n] && i[|i| - 1] == i2[n];
      assert d[..|d| - 1] == d1 + d2[..n] && d[|d| - 1] == d2[n];
      assert Flat(i, d) == Flat(i1 + i2[..n], d1 + d2[..n]) * d2[n] + i2[n];
      FlatAppend(i1, i2[..n], d1, d2[..n]);
      Distribute(Flat(i1, d1), Prod(d2[..n]), Flat(i2[..n], d2[..n]), d2[n]);
    } else {
      assert i1 + i2 == i1;
      assert d1 + d2 == d1;
    }
  }

  /** Element count of `s + [n] + t`, seen as a three-axis view. */
  lemma ProdView(s: seq<nat>, n: nat, t: seq<nat>)
    ensures Prod(s + [n] + t) == Prod(s) * n * Prod(t)
  {
    ProdAppend(s + [n], t);
    ProdSnoc(s, n);
  }

  /** The element count around axis `ax`: everything before, the axis, everything after. */
  lemma ProdAroundAxis(shape: seq<nat>, ax: nat)
    requires ax < |shape|
    ensures Prod(shape) == Prod(shape[..ax]) * shape[ax] * Prod(shape[ax + 1..])
  {
    SplitAt(shape, ax);
    ProdView(shape[..ax], shape[ax], shape[ax + 1..]);
  }

  /** Offset of `a + [j] + b` in shape `s + [n] + t`, seen as a three-axis view
      (everything before, the axis, everything after). */
  lemma AxisView(a: seq<nat>, j: nat, b: seq<nat>, s: seq<nat>, n: nat, t: seq<nat>)
    requires |a| == |s| && |b| == |t|
    ensures Flat(a + [j] + b, s + [n] + t) == (Flat(a, s) * n + j) * Prod(t) + Flat(b, t)
    ensures Prod(s + [n] + t) == Prod(s) * n * Prod(t)
  {
    FlatAppend(a + [j], b, s + [n], t);
    assert (a + [j])[..|a|] == a;
    assert (s + [n])[..|s|] == s;
    assert Flat(a + [j], s + [n]) == Flat(a, s) * n + j;
    assert Prod(s + [n]) == Prod(s) * n;
    ProdAppend(s + [n], t);
  }

  /** One more trailing axis multiplies the element count by its size. */
  lemma ProdSnoc(s: seq<nat>, n: nat)
    ensures Prod(s + [n]) == Prod(s) * n
  {
    assert (s + [n])[..|s|] == s;
  }

  /** One more trailing index extends the offset by that axis. */
  lemma FlatSnoc(a: seq<nat>, j: nat, s: seq<nat>, n: nat)
    requires |a| == |s|
    ensures Flat(a + [j], s + [n]) == Flat(a, s) * n + j
  {
    assert (a + [j])[..|a|] == a;
    assert (s + [n])[..|s|] == s;
  }

  /** A sequence split around position `i`. */
  lemma SplitAt(x: seq<nat>, i: nat)
    requires i < |x|
    ensures x == x[..i] + [x[i]] + x[i + 1..]
  {
  }

  /** A dense row-major tensor of integers. */
  datatype Tensor = Tensor(shape: seq<nat>, data: seq<int>)
  {
    predicate Valid()
    {
      |data| == Prod(shape)
    }

    /** The element at a multi-index. */
    function At(idx: seq<nat>): int
      requires Valid() && InBounds(idx, shape)
    {
      FlatBound(idx, shape);
      data[Flat(idx, shape)]
    }
  }

  /** Reinterprets the data under another shape with the same element count. */
  function Reshape(t: Tensor, newShape: seq<nat>): (r: Tensor)
    requires t.Valid() && Prod(newShape) == Prod(t.shape)
    ensures r.Valid() && r.data == t.data && r.shape == newShape
  {
    Tensor(newShape, t.data)
  }

  /** The values along axis `ax` at the position `idx` of every other axis. */
  function Fibre(t: Tensor, ax: nat, idx: seq<nat>): (r: seq<int>)
    requires t.Valid() && ax < |t.shape|
    requires InBounds(idx, t.shape[..ax] + t.shape[ax + 1..])
    ensures |r| == t.shape[ax]
  {
    seq(t.shape[ax], u requires 0 <= u < t.shape[ax] =>
      assert InBounds(idx[..ax] + [u] + idx[ax..], t.shape) by {
        assert t.shape == t.shape[..ax] + [t.shape[ax]] + t.shape[ax + 1..];
      }
      t.At(idx[..ax] + [u] + idx[ax..]))
  }

  /** A reduction of axis `ax` by `f`, which removes that axis. */
  function ReduceAxis(t: Tensor, ax: nat, f: seq<int> -> int): (r: Tensor)
    requires t.Valid() && ax < |t.shape|
    ensures r.Valid() && r.shape == t.shape[..ax] + t.shape[ax + 1..]
  {
    var outShape := t.shape[..ax] + t.shape[ax + 1..];
    Tensor(outShape, seq(Prod(outShape), m requires 0 <= m < Prod(outShape) =>
      f(Fibre(t, ax, Unflat(m, outShape)))))
  }

  /** Each element of a reduction is `f` applied to the fibre it reduces. */
  lemma ReduceAxisAt(t: Tensor, ax: nat, f: seq<int> -> int, idx: seq<nat>)
    requires t.Valid() && ax < |t.shape|
    requires InBounds(idx, t.shape[..ax] + t.shape[ax + 1..])
    ensures ReduceAxis(t, ax, f).At(idx) == f(Fibre(t, ax, idx))
  {
    UnflatFlat(idx, t.shape[..ax] + t.shape[ax + 1..]);
  }
}
