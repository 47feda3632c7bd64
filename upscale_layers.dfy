/** The upscaling layers `Upscale1DLayer`, `Upscale2DLayer`, `Upscale3DLayer`:
    construction, static shape inference, and the values of the repeat and dilate
    expansions on a row-major tensor. Spatial axis `k` of a layer is tensor axis `2 + k`. */
module UpscaleLayers {
  import opened Wrappers
  import opened Shapes
  import opened Tensors

  datatype UpscaleMode = Repeat | Dilate

  datatype UpscaleLayer = UpscaleLayer(inputShape: Shape, dims: nat, scaleFactor: seq<int>, mode: UpscaleMode)
  {
    /** What a successful construction guarantees. */
    predicate Valid()
    {
      1 <= dims <= 3 && |scaleFactor| == dims && AllAtLeastOne(scaleFactor)
    }

    /** The scale factors as sizes. */
    function Factors(): (f: seq<nat>)
      requires Valid()
      ensures |f| == dims && Positive(f)
      ensures forall k :: 0 <= k < dims ==> f[k] as int == scaleFactor[k]
    {
      seq(dims, k requires 0 <= k < dims => scaleFactor[k] as nat)
    }
  }

  predicate AllAtLeastOne(factors: seq<int>)
  {
    forall k :: 0 <= k < |factors| ==> factors[k] >= 1
  }

  predicate Positive(f: seq<nat>)
  {
    forall k :: 0 <= k < |f| ==> f[k] >= 1
  }

  /** The mode string the constructor accepts. */
  function ParseMode(mode: string): (r: Option<UpscaleMode>)
    ensures r == Some(Repeat) <==> mode == "repeat"
    ensures r == Some(Dilate) <==> mode == "dilate"
    ensures r.None? <==> mode != "repeat" && mode != "dilate"
  {
    if mode == "repeat" then Some(Repeat)
    else if mode == "dilate" then Some(Dilate)
    else None
  }

  /** Constructs a `dims`-D upscaling layer. A scale factor below 1 is reported first,
      then a mode other than `'repeat'` or `'dilate'`; the input rank is not checked. */
  function NewUpscaleLayer(dims: nat, inputShape: Shape, scaleFactor: seq<int>, mode: string)
    : (r: Result<UpscaleLayer, LayerError>)
    requires 1 <= dims <= 3 && |scaleFactor| == dims
    ensures r.Success? <==> AllAtLeastOne(scaleFactor) && (mode == "repeat" || mode == "dilate")
    ensures !AllAtLeastOne(scaleFactor) ==> r == Failure(ScaleFactorTooSmall(scaleFactor))
    ensures AllAtLeastOne(scaleFactor) && mode != "repeat" && mode != "dilate"
            ==> r == Failure(InvalidUpscaleMode(mode))
    ensures r.Success? ==> r.value.Valid() && r.value.dims == dims && r.value.inputShape == inputShape
    ensures r.Success? ==> r.value.scaleFactor == scaleFactor
    ensures r.Success? ==> (r.value.mode == Repeat <==> mode == "repeat")
  {
    if !AllAtLeastOne(scaleFactor) then Failure(ScaleFactorTooSmall(scaleFactor))
    else match ParseMode(mode)
      case None => Failure(InvalidUpscaleMode(mode))
      case Some(m) => Success(UpscaleLayer(inputShape, dims, scaleFactor, m))
  }

  /** The shape `get_output_shape_for` infers: each known spatial entry multiplied by
      its factor, everything else copied. */
  function OutputShape(layer: UpscaleLayer, inputShape: Shape): (r: Shape)
    requires layer.Valid() && |inputShape| >= 2 + layer.dims
    ensures |r| == |inputShape|
    ensures forall i :: 0 <= i < |r| && !(2 <= i < 2 + layer.dims) ==> r[i] == inputShape[i]
    ensures forall i :: 0 <= i < |r| ==> (r[i].None? <==> inputShape[i].None?)
    ensures forall i :: 2 <= i < 2 + layer.dims && inputShape[i].Some? && inputShape[i].value >= 0 ==>
              r[i].value >= inputShape[i].value
  {
    seq(|inputShape|, i requires 0 <= i < |inputShape| =>
      if 2 <= i < 2 + layer.dims && inputShape[i].Some? then Some(inputShape[i].value * layer.scaleFactor[i - 2])
      else inputShape[i])
  }

  /** Whatever the other entries are, a known spatial entry is inferred as exactly
      the input size times its factor: it is a multiple of the factor, and dividing
      by the factor gives the input size back. */
  lemma InferredSpatialEntry(layer: UpscaleLayer, inputShape: Shape)
    requires layer.Valid() && |inputShape| >= 2 + layer.dims
    ensures forall i :: 2 <= i < 2 + layer.dims && inputShape[i].Some? ==>
              var f := layer.scaleFactor[i - 2];
              OutputShape(layer, inputShape)[i].value % f == 0 &&
              OutputShape(layer, inputShape)[i].value / f == inputShape[i].value
  {
    forall i | 2 <= i < 2 + layer.dims && inputShape[i].Some? {
      ScaledEntryCancels(inputShape[i].value, layer.scaleFactor[i - 2]);
    }
  }

  /** `get_output_shape_for`: copies the shape and multiplies the known spatial
      entries in place. */
  method GetOutputShapeFor(layer: UpscaleLayer, inputShape: Shape) returns (outputShape: Shape)
    requires layer.Valid() && |inputShape| >= 2 + layer.dims
    ensures outputShape == OutputShape(layer, inputShape)
  {
    outputShape := inputShape;
    if outputShape[2].Some? {
      outputShape := outputShape[2 := Some(outputShape[2].value * layer.scaleFactor[0])];
    }
    if layer.dims >= 2 && outputShape[3].Some? {
      outputShape := outputShape[3 := Some(outputShape[3].value * layer.scaleFactor[1])];
    }
    if layer.dims == 3 && outputShape[4].Some? {
      outputShape := outputShape[4 := Some(outputShape[4].value * layer.scaleFactor[2])];
    }
    assert forall i :: 0 <= i < |inputShape| ==> outputShape[i] == OutputShape(layer, inputShape)[i];
  }

  // ---------------------------------------------------------------------------
  // Index arithmetic over the spatial axes 2 .. 2 + |f|

  /** Entries `2 + k` multiplied by the factors `f[k]`. Of a shape, this is the upscaled
      shape; of an input index, the output position it is scattered to. */
  function Scaled(s: seq<nat>, f: seq<nat>): (r: seq<nat>)
    requires |s| >= 2 + |f|
    ensures |r| == |s|
  {
    seq(|s|, i requires 0 <= i < |s| => if 2 <= i < 2 + |f| then s[i] * f[i - 2] else s[i])
  }

  function DivIdx(idx: seq<nat>, f: seq<nat>): (r: seq<nat>)
    requires |idx| >= 2 + |f| && Positive(f)
    ensures |r| == |idx|
  {
    seq(|idx|, i requires 0 <= i < |idx| => if 2 <= i < 2 + |f| then idx[i] / f[i - 2] else idx[i])
  }

  /** The index lies on the stride grid of every scaled axis. */
  predicate OnStride(idx: seq<nat>, f: seq<nat>)
    requires |idx| >= 2 + |f| && Positive(f)
  {
    forall k :: 0 <= k < |f| ==> idx[2 + k] % f[k] == 0
  }

  function Ones(n: nat): (f: seq<nat>)
    ensures |f| == n && Positive(f)
  {
    seq(n, k => 1)
  }

  /** A size multiplied by a factor divides back exactly. */
  lemma ScaledEntryCancels(n: int, a: int)
    requires a >= 1
    ensures (n * a) % a == 0 && (n * a) / a == n
  {
    var q, r := (n * a) / a, (n * a) % a;
    assert (q - n) * a == -r by { MulSubRight(q, n, a); }
    OnlyZeroMultipleBelow(q - n, a);
  }

  lemma MulSubRight(x: int, y: int, a: int)
    ensures (x - y) * a == x * a - y * a
  {
  }

  /** The only multiple of `a` strictly between `-a` and `a` is 0. */
  lemma OnlyZeroMultipleBelow(x: int, a: int)
    requires a >= 1 && -a < x * a < a
    ensures x == 0
  {
    if x >= 1 {
      MulGeOne(x, a);
    } else if x <= -1 {
      MulGeOne(-x, a);
    }
  }

  lemma MulGeOne(x: int, a: int)
    requires x >= 1 && a >= 1
    ensures x * a >= a
  {
  }

  lemma MulDivCancel(i: nat, a: nat)
    requires a >= 1
    ensures (i * a) / a == i && (i * a) % a == 0
  {
    DivModUnique((i * a) / a, (i * a) % a, i, 0, a);
  }

  lemma DivMulCancel(i: nat, a: nat)
    requires a >= 1 && i % a == 0
    ensures (i / a) * a == i
  {
  }

  /** Dividing an index of the scaled shape lands in the original shape. */
  lemma DivIdxInBounds(idx: seq<nat>, shape: seq<nat>, f: seq<nat>)
    requires |shape| >= 2 + |f| && Positive(f)
    requires InBounds(idx, Scaled(shape, f))
    ensures InBounds(DivIdx(idx, f), shape)
  {
    forall i | 2 <= i < 2 + |f|
      ensures DivIdx(idx, f)[i] < shape[i]
    {
      DivBound(idx[i], shape[i], f[i - 2]);
    }
  }

  /** Scaling an index of the original shape lands on the stride grid of the scaled
      shape, and dividing it again gives the index back. */
  lemma ScaleIdxInBounds(idx: seq<nat>, shape: seq<nat>, f: seq<nat>)
    requires |shape| >= 2 + |f| && Positive(f)
    requires InBounds(idx, shape)
    ensures InBounds(Scaled(idx, f), Scaled(shape, f))
    ensures OnStride(Scaled(idx, f), f) && DivIdx(Scaled(idx, f), f) == idx
  {
    forall i | 2 <= i < 2 + |f|
      ensures Scaled(idx, f)[i] < Scaled(shape, f)[i]
      ensures Scaled(idx, f)[i] % f[i - 2] == 0 && Scaled(idx, f)[i] / f[i - 2] == idx[i]
    {
      MulBound(idx[i], shape[i], f[i - 2]);
      MulDivCancel(idx[i], f[i - 2]);
    }
  }

  /** An index on the stride grid is the scaling of its division. */
  lemma ScaleDivIdx(idx: seq<nat>, f: seq<nat>)
    requires |idx| >= 2 + |f| && Positive(f) && OnStride(idx, f)
    ensures Scaled(DivIdx(idx, f), f) == idx
  {
    forall i | 2 <= i < 2 + |f|
      ensures Scaled(DivIdx(idx, f), f)[i] == idx[i]
    {
      assert idx[2 + (i - 2)] % f[i - 2] == 0;
      DivMulCancel(idx[i], f[i - 2]);
    }
  }

  lemma ScaleByOnes(shape: seq<nat>, idx: seq<nat>, n: nat)
    requires |shape| >= 2 + n && |idx| >= 2 + n
    ensures Scaled(shape, Ones(n)) == shape
    ensures DivIdx(idx, Ones(n)) == idx && OnStride(idx, Ones(n))
  {
  }

  // ---------------------------------------------------------------------------
  // Repeat mode

  /** `repeat(x, a, axis)`: every element repeated `a` times along `axis`. */
  function RepeatAlong(t: Tensor, ax: nat, a: nat): (r: Tensor)
    requires t.Valid() && ax < |t.shape| && a >= 1
    ensures r.Valid() && r.shape == t.shape[ax := t.shape[ax] * a]
  {
    var outShape := t.shape[ax := t.shape[ax] * a];
    Tensor(outShape, seq(Prod(outShape), m requires 0 <= m < Prod(outShape) =>
      RepeatSource(t, ax, a, Unflat(m, outShape))))
  }

  function RepeatSource(t: Tensor, ax: nat, a: nat, idx: seq<nat>): int
    requires t.Valid() && ax < |t.shape| && a >= 1
    requires InBounds(idx, t.shape[ax := t.shape[ax] * a])
  {
    DivBound(idx[ax], t.shape[ax], a);
    t.At(idx[ax := idx[ax] / a])
  }

  /** Output index `i` along the repeated axis holds input index `i / a`. */
  lemma RepeatAlongAt(t: Tensor, ax: nat, a: nat, idx: seq<nat>)
    requires t.Valid() && ax < |t.shape| && a >= 1
    requires InBounds(idx, t.shape[ax := t.shape[ax] * a])
    ensures idx[ax] / a < t.shape[ax]
    ensures RepeatAlong(t, ax, a).At(idx) == t.At(idx[ax := idx[ax] / a])
  {
    UnflatFlat(idx, t.shape[ax := t.shape[ax] * a]);
    DivBound(idx[ax], t.shape[ax], a);
  }

  /** Repeating once changes nothing, so the `a > 1` guards only save work. */
  lemma RepeatAlongOnce(t: Tensor, ax: nat)
    requires t.Valid() && ax < |t.shape|
    ensures RepeatAlong(t, ax, 1) == t
  {
    var r := RepeatAlong(t, ax, 1);
    assert t.shape[ax] * 1 == t.shape[ax];
    assert r.shape == t.shape;
    forall m | 0 <= m < |t.data|
      ensures r.data[m] == t.data[m]
    {
      var idx := Unflat(m, t.shape);
      assert idx[ax] / 1 == idx[ax];
      assert idx[ax := idx[ax] / 1] == idx;
      assert r.data[m] == RepeatSource(t, ax, 1, idx);
    }
  }

  /** Reference definition: each element repeated `a` times contiguously. */
  function Runs(xs: seq<int>, a: nat): seq<int>
  {
    if |xs| == 0 then [] else seq(a, _ => xs[0]) + Runs(xs[1..], a)
  }

  lemma {:induction false} RunsAt(xs: seq<int>, a: nat)
    requires a >= 1
    ensures |Runs(xs, a)| == |xs| * a
    ensures forall i :: 0 <= i < |xs| * a ==> i / a < |xs| && Runs(xs, a)[i] == xs[i / a]
  {
    if |xs| > 0 {
      var rest := Runs(xs[1..], a);
      RunsAt(xs[1..], a);
      assert Runs(xs, a) == seq(a, _ => xs[0]) + rest;
      assert |xs| * a == a + (|xs| - 1) * a;
      forall i | 0 <= i < |xs| * a
        ensures i / a < |xs| && Runs(xs, a)[i] == xs[i / a]
      {
        DivBound(i, |xs|, a);
        if i < a {
          assert i / a == 0;
        } else {
          ShiftDiv(i, a);
          assert Runs(xs, a)[i] == rest[i - a];
          assert rest[i - a] == xs[1..][(i - a) / a];
        }
      }
    }
  }

  lemma ShiftDiv(i: nat, a: nat)
    requires 1 <= a <= i
    ensures (i - a) / a == i / a - 1
  {
    DivModUnique((i - a) / a + 1, (i - a) % a, i / a, i % a, a);
  }

  lemma DivOfMultiplePlus(q: nat, n: nat, a: nat, j: nat)
    requires a >= 1
    ensures (q * (n * a) + j) / a == q * n + j / a
  {
    MulAssoc(q, n, a);
    MulAddRight(q * n, j / a, a);
    DivModUnique((q * (n * a) + j) / a, (q * (n * a) + j) % a, q * n + j / a, j % a, a);
  }

  /** Along the last axis, whose elements are contiguous in row-major order, the
      repeat is the flat sequence with every element repeated `a` times in a row. */
  lemma RepeatLastAxisIsRuns(t: Tensor, a: nat)
    requires t.Valid() && |t.shape| >= 1 && a >= 1
    ensures RepeatAlong(t, |t.shape| - 1, a).data == Runs(t.data, a)
  {
    var ax := |t.shape| - 1;
    var r := RepeatAlong(t, ax, a);
    RunsAt(t.data, a);
    RepeatedProd(t.shape, a);
    forall m | 0 <= m < |r.data|
      ensures r.data[m] == Runs(t.data, a)[m]
    {
      RepeatLastAxisAt(t, a, m);
    }
  }

  lemma RepeatedProd(shape: seq<nat>, a: nat)
    requires |shape| >= 1
    ensures Prod(shape[|shape| - 1 := shape[|shape| - 1] * a]) == Prod(shape) * a
  {
    var ax := |shape| - 1;
    var s' := shape[ax := shape[ax] * a];
    assert s'[..ax] == shape[..ax];
    assert Prod(s') == Prod(shape[..ax]) * (shape[ax] * a);
  }

  lemma RepeatLastAxisAt(t: Tensor, a: nat, m: nat)
    requires t.Valid() && |t.shape| >= 1 && a >= 1
    requires m < |RepeatAlong(t, |t.shape| - 1, a).data|
    ensures m / a < |t.data|
    ensures RepeatAlong(t, |t.shape| - 1, a).data[m] == t.data[m / a]
  {
    var ax := |t.shape| - 1;
    var idx := Unflat(m, t.shape[ax := t.shape[ax] * a]);
    var src := idx[ax := idx[ax] / a];
    LastAxisSource(t.shape, a, m);
    FlatBound(src, t.shape);
    assert RepeatAlong(t, ax, a).data[m] == RepeatSource(t, ax, a, idx);
    assert RepeatSource(t, ax, a, idx) == t.At(src);
  }

  /** Output offset `m` along a repeated last axis reads input offset `m / a`. */
  lemma LastAxisSource(shape: seq<nat>, a: nat, m: nat)
    requires |shape| >= 1 && a >= 1
    requires m < Prod(shape[|shape| - 1 := shape[|shape| - 1] * a])
    ensures var ax := |shape| - 1;
            var idx := Unflat(m, shape[ax := shape[ax] * a]);
            var src := idx[ax := idx[ax] / a];
            InBounds(src, shape) && Flat(src, shape) == m / a
  {
    var ax := |shape| - 1;
    var outShape := shape[ax := shape[ax] * a];
    var init := shape[..ax];
    var n := shape[ax];
    var idx := Unflat(m, outShape);
    var src := idx[ax := idx[ax] / a];
    var q := Flat(idx[..ax], init);
    assert m == q * (n * a) + idx[ax] by {
      assert outShape[..ax] == init;
    }
    DivBound(idx[ax], n, a);
    assert InBounds(src, shape) && Flat(src, shape) == q * n + idx[ax] / a by {
      assert src[..ax] == idx[..ax];
    }
    DivOfMultiplePlus(q, n, a, idx[ax]);
  }

  /** `u` is `t` with spatial axis `k` repeated `g[k]` times, for every `k`. */
  ghost predicate RepeatedBy(u: Tensor, t: Tensor, g: seq<nat>)
    requires t.Valid() && |t.shape| >= 2 + |g| && Positive(g)
  {
    && u.Valid() && u.shape == Scaled(t.shape, g)
    && forall idx :: RepeatedAt(u, t, g, idx)
  }

  /** Output index `idx` of `u`, if in bounds, holds the input at `idx / g`. */
  ghost predicate RepeatedAt(u: Tensor, t: Tensor, g: seq<nat>, idx: seq<nat>)
    requires t.Valid() && |t.shape| >= 2 + |g| && Positive(g)
    requires u.Valid() && u.shape == Scaled(t.shape, g)
  {
    InBounds(idx, u.shape) ==>
      InBounds(DivIdx(idx, g), t.shape) && u.At(idx) == t.At(DivIdx(idx, g))
  }

  lemma RepeatedByAt(u: Tensor, t: Tensor, g: seq<nat>, idx: seq<nat>)
    requires t.Valid() && |t.shape| >= 2 + |g| && Positive(g)
    requires RepeatedBy(u, t, g) && InBounds(idx, u.shape)
    ensures InBounds(DivIdx(idx, g), t.shape) && u.At(idx) == t.At(DivIdx(idx, g))
  {
    assert RepeatedAt(u, t, g, idx);
  }

  lemma RepeatedByNothing(t: Tensor, n: nat)
    requires t.Valid() && |t.shape| >= 2 + n
    ensures RepeatedBy(t, t, Ones(n))
  {
    forall idx | InBounds(idx, t.shape)
      ensures DivIdx(idx, Ones(n)) == idx
    {
      ScaleByOnes(t.shape, idx, n);
    }
    ScaleByOnes(t.shape, t.shape, n);
  }

  /** Repeating one more spatial axis composes with the repeats already done. */
  lemma RepeatedByStep(u: Tensor, t: Tensor, g: seq<nat>, k: nat, a: nat)
    requires t.Valid() && |t.shape| >= 2 + |g| && Positive(g)
    requires k < |g| && g[k] == 1 && a >= 1
    requires RepeatedBy(u, t, g)
    ensures RepeatedBy(RepeatAlong(u, 2 + k, a), t, g[k := a])
  {
    var r := RepeatAlong(u, 2 + k, a);
    var g' := g[k := a];
    ScaledShapeStep(t.shape, g, k, a);
    assert r.shape == Scaled(t.shape, g');
    forall idx | InBounds(idx, r.shape)
      ensures InBounds(DivIdx(idx, g'), t.shape) && r.At(idx) == t.At(DivIdx(idx, g'))
    {
      RepeatedByStepAt(u, t, g, k, a, idx);
    }
  }

  lemma RepeatedByStepAt(u: Tensor, t: Tensor, g: seq<nat>, k: nat, a: nat, idx: seq<nat>)
    requires t.Valid() && |t.shape| >= 2 + |g| && Positive(g)
    requires k < |g| && g[k] == 1 && a >= 1
    requires RepeatedBy(u, t, g)
    requires InBounds(idx, u.shape[2 + k := u.shape[2 + k] * a])
    ensures InBounds(DivIdx(idx, g[k := a]), t.shape)
    ensures RepeatAlong(u, 2 + k, a).At(idx) == t.At(DivIdx(idx, g[k := a]))
  {
    var g' := g[k := a];
    var mid := idx[2 + k := idx[2 + k] / a];
    assert InBounds(mid, u.shape) && RepeatAlong(u, 2 + k, a).At(idx) == u.At(mid) by {
      RepeatAlongAt(u, 2 + k, a, idx);
    }
    assert InBounds(DivIdx(mid, g), t.shape) && u.At(mid) == t.At(DivIdx(mid, g)) by {
      RepeatedByAt(u, t, g, mid);
    }
    assert DivIdx(mid, g) == DivIdx(idx, g') by {
      DivIdxStep(idx, g, k, a);
    }
  }

  lemma ScaledShapeStep(shape: seq<nat>, g: seq<nat>, k: nat, a: nat)
    requires |shape| >= 2 + |g| && k < |g| && g[k] == 1
    ensures var s := Scaled(shape, g);
            s[2 + k := s[2 + k] * a] == Scaled(shape, g[k := a])
  {
    var s := Scaled(shape, g);
    assert s[2 + k] == shape[2 + k];
  }

  lemma DivIdxStep(idx: seq<nat>, g: seq<nat>, k: nat, a: nat)
    requires |idx| >= 2 + |g| && Positive(g) && k < |g| && g[k] == 1 && a >= 1
    ensures DivIdx(idx[2 + k := idx[2 + k] / a], g) == DivIdx(idx, g[k := a])
  {
    var mid := idx[2 + k := idx[2 + k] / a];
    assert DivIdx(mid, g)[2 + k] == mid[2 + k] / 1;
  }

  // ---------------------------------------------------------------------------
  // Dilate mode

  /** The input element that output offset `m` receives, if `m` is on the grid. */
  function DilateSource(t: Tensor, f: seq<nat>, m: nat): (r: Option<nat>)
    requires t.Valid() && |t.shape| >= 2 + |f| && Positive(f)
    requires m < Prod(Scaled(t.shape, f))
    ensures r.Some? ==> r.value < |t.data|
  {
    var idx := Unflat(m, Scaled(t.shape, f));
    if OnStride(idx, f) then
      DivIdxInBounds(idx, t.shape, f);
      FlatBound(DivIdx(idx, f), t.shape);
      Some(Flat(DivIdx(idx, f), t.shape))
    else None
  }

  /** The dilated tensor: zeros, with the input written at the strided positions. */
  function Dilated(t: Tensor, f: seq<nat>): (r: Tensor)
    requires t.Valid() && |t.shape| >= 2 + |f| && Positive(f)
    ensures r.Valid() && r.shape == Scaled(t.shape, f)
  {
    var outShape := Scaled(t.shape, f);
    Tensor(outShape, seq(Prod(outShape), m requires 0 <= m < Prod(outShape) =>
      match DilateSource(t, f, m)
      case Some(k) => t.data[k]
      case None => 0))
  }

  /** The dilated tensor holds input element `idx / f` at every index on the stride
      grid and zero everywhere else. */
  lemma DilatedAt(t: Tensor, f: seq<nat>, idx: seq<nat>)
    requires t.Valid() && |t.shape| >= 2 + |f| && Positive(f)
    requires InBounds(idx, Scaled(t.shape, f))
    ensures InBounds(DivIdx(idx, f), t.shape)
    ensures Dilated(t, f).At(idx) == if OnStride(idx, f) then t.At(DivIdx(idx, f)) else 0
  {
    UnflatFlat(idx, Scaled(t.shape, f));
    DivIdxInBounds(idx, t.shape, f);
  }

  /** Where the scatter writes input element `k`. */
  function DilateTarget(t: Tensor, f: seq<nat>, k: nat): (m: nat)
    requires t.Valid() && |t.shape| >= 2 + |f| && Positive(f) && k < |t.data|
    ensures m < Prod(Scaled(t.shape, f)) && DilateSource(t, f, m) == Some(k)
  {
    var idx := Unflat(k, t.shape);
    ScaleIdxInBounds(idx, t.shape, f);
    UnflatFlat(Scaled(idx, f), Scaled(t.shape, f));
    Flat(Scaled(idx, f), Scaled(t.shape, f))
  }

  /** Only the target of input element `k` receives it. */
  lemma DilateTargetUnique(t: Tensor, f: seq<nat>, k: nat, m: nat)
    requires t.Valid() && |t.shape| >= 2 + |f| && Positive(f) && k < |t.data|
    requires m < Prod(Scaled(t.shape, f)) && DilateSource(t, f, m) == Some(k)
    ensures m == DilateTarget(t, f, k)
  {
    var S := Scaled(t.shape, f);
    var idx := Unflat(m, S);
    DivIdxInBounds(idx, t.shape, f);
    UnflatFlat(DivIdx(idx, f), t.shape);
    ScaleDivIdx(idx, f);
  }

  /** Output offset `m` once the first `k` input elements have been scattered. */
  function Scattered(t: Tensor, f: seq<nat>, k: nat, m: nat): int
    requires t.Valid() && |t.shape| >= 2 + |f| && Positive(f)
    requires m < Prod(Scaled(t.shape, f))
  {
    match DilateSource(t, f, m)
    case Some(j) => if j < k then t.data[j] else 0
    case None => 0
  }

  /** Scattering element `k` changes only its own target offset. */
  lemma ScatterStep(t: Tensor, f: seq<nat>, k: nat, m: nat)
    requires t.Valid() && |t.shape| >= 2 + |f| && Positive(f) && k < |t.data|
    requires m < Prod(Scaled(t.shape, f))
    ensures Scattered(t, f, k + 1, m) ==
            if m == DilateTarget(t, f, k) then t.data[k] else Scattered(t, f, k, m)
  {
    if DilateSource(t, f, m) == Some(k) {
      DilateTargetUnique(t, f, k, m);
    }
  }

  /** The zero buffer of the output shape with the input scattered into its strided
      positions (`set_subtensor(zeros[:, :, ::a, ::b], input)`). */
  method DilateByScatter(t: Tensor, f: seq<nat>) returns (r: Tensor)
    requires t.Valid() && |t.shape| >= 2 + |f| && Positive(f)
    ensures r == Dilated(t, f)
  {
    var outShape := Scaled(t.shape, f);
    var buf := new int[Prod(outShape)](_ => 0);
    var k := 0;
    while k < |t.data|
      invariant 0 <= k <= |t.data| && buf.Length == Prod(outShape)
      invariant forall m :: 0 <= m < buf.Length ==> buf[m] == Scattered(t, f, k, m)
    {
      var target := DilateTarget(t, f, k);
      forall m | 0 <= m < buf.Length
        ensures Scattered(t, f, k + 1, m) == if m == target then t.data[k] else Scattered(t, f, k, m)
      {
        ScatterStep(t, f, k, m);
      }
      buf[target] := t.data[k];
      k := k + 1;
    }
    r := Tensor(outShape, buf[..]);
    assert forall m :: 0 <= m < buf.Length ==> r.data[m] == Dilated(t, f).data[m];
  }

  // ---------------------------------------------------------------------------
  // The layer's output

  predicate AnyAboveOne(f: seq<nat>)
  {
    exists k :: 0 <= k < |f| && f[k] > 1
  }

  /** Known sizes scaled by the factors are the shape `get_output_shape_for` infers. */
  lemma ScaledShapeIsInferred(layer: UpscaleLayer, shape: seq<nat>)
    requires layer.Valid() && |shape| >= 2 + layer.dims
    ensures Known(Scaled(shape, layer.Factors())) == OutputShape(layer, Known(shape))
  {
  }

  /** The factors with the spatial axes below `from` not yet applied. */
  ghost function Pending(f: seq<nat>, from: nat): (g: seq<nat>)
    ensures |g| == |f|
  {
    seq(|f|, j requires 0 <= j < |f| => if j < from then 1 else f[j])
  }

  lemma PendingStep(f: seq<nat>, k: nat)
    requires k < |f| && Positive(f)
    ensures Positive(Pending(f, k + 1)) && Pending(f, k + 1)[k] == 1
    ensures Pending(f, k + 1)[k := f[k]] == Pending(f, k)
    ensures f[k] == 1 ==> Pending(f, k + 1) == Pending(f, k)
  {
  }

  lemma PendingEnds(f: seq<nat>, from: nat)
    requires from >= |f|
    ensures Pending(f, 0) == f && Pending(f, from) == Ones(|f|)
  {
  }

  /** One rebinding of the repeat branch: spatial axis `k` repeated `f[k]` times when
      that factor exceeds 1, otherwise the tensor unchanged. */
  function RepeatStep(u: Tensor, f: seq<nat>, k: nat): (r: Tensor)
    requires u.Valid() && |u.shape| >= 2 + |f| && Positive(f)
    ensures r.Valid() && |r.shape| == |u.shape|
  {
    if k < |f| && f[k] > 1 then RepeatAlong(u, 2 + k, f[k]) else u
  }

  /** Each rebinding applies one more pending factor. */
  lemma RepeatStepApplies(u: Tensor, t: Tensor, f: seq<nat>, k: nat)
    requires t.Valid() && |t.shape| >= 2 + |f| && Positive(f)
    requires RepeatedBy(u, t, Pending(f, k + 1))
    ensures u.Valid() && |u.shape| == |t.shape|
    ensures RepeatedBy(RepeatStep(u, f, k), t, Pending(f, k))
  {
    if k < |f| {
      PendingStep(f, k);
      if f[k] > 1 {
        RepeatedByStep(u, t, Pending(f, k + 1), k, f[k]);
      }
    } else {
      PendingEnds(f, k);
      PendingEnds(f, k + 1);
    }
  }

  /** The repeat branch of `get_output_for`: rebinds the result for the last spatial
      axis first, skipping factors of 1, and ends with every factor applied. */
  method RepeatAxes(t: Tensor, f: seq<nat>) returns (out: Tensor)
    requires t.Valid() && 1 <= |f| <= 3 && |t.shape| >= 2 + |f| && Positive(f)
    ensures RepeatedBy(out, t, f)
    ensures (forall k :: 0 <= k < |f| ==> f[k] == 1) ==> out == t
  {
    RepeatedByNothing(t, |f|);
    PendingEnds(f, 3);
    out := t;
    RepeatStepApplies(out, t, f, 2);
    if |f| == 3 && f[2] > 1 {
      out := RepeatAlong(out, 4, f[2]);
    }
    RepeatStepApplies(out, t, f, 1);
    if |f| >= 2 && f[1] > 1 {
      out := RepeatAlong(out, 3, f[1]);
    }
    RepeatStepApplies(out, t, f, 0);
    if f[0] > 1 {
      out := RepeatAlong(out, 2, f[0]);
    }
  }

  /** `get_output_for`. Repeat mode rebinds the result axis by axis; dilate mode
      scatters into a zero buffer when any factor exceeds 1. Either way the result has
      the inferred shape, and every output index takes the input at the index divided
      by the factors, except that dilation leaves zeros off the stride grid. */
  method GetOutputFor(layer: UpscaleLayer, t: Tensor) returns (out: Tensor)
    requires layer.Valid() && t.Valid() && |t.shape| >= 2 + layer.dims
    ensures out.Valid() && out.shape == Scaled(t.shape, layer.Factors())
    ensures Known(out.shape) == OutputShape(layer, Known(t.shape))
    ensures forall idx :: InBounds(idx, out.shape) ==>
      InBounds(DivIdx(idx, layer.Factors()), t.shape) &&
      out.At(idx) == if layer.mode == Repeat || OnStride(idx, layer.Factors())
                     then t.At(DivIdx(idx, layer.Factors())) else 0
    ensures (forall k :: 0 <= k < layer.dims ==> layer.scaleFactor[k] == 1) ==> out == t
  {
    var f := layer.Factors();
    ScaledShapeIsInferred(layer, t.shape);
    if layer.mode == Repeat {
      out := RepeatAxes(t, f);
      forall idx | InBounds(idx, out.shape)
        ensures InBounds(DivIdx(idx, f), t.shape) && out.At(idx) == t.At(DivIdx(idx, f))
      {
        RepeatedByAt(out, t, f, idx);
      }
    } else if AnyAboveOne(f) {
      out := DilateByScatter(t, f);
      forall idx | InBounds(idx, out.shape)
        ensures InBounds(DivIdx(idx, f), t.shape)
        ensures out.At(idx) == if OnStride(idx, f) then t.At(DivIdx(idx, f)) else 0
      {
        DilatedAt(t, f, idx);
      }
    } else {
      out := t;
      assert f == Ones(layer.dims);
      forall idx | InBounds(idx, t.shape)
        ensures DivIdx(idx, f) == idx && OnStride(idx, f)
      {
        ScaleByOnes(t.shape, idx, layer.dims);
      }
      ScaleByOnes(t.shape, t.shape, layer.dims);
    }
  }
}
