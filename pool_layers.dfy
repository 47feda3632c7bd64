/** The windowed pooling layers `Pool1DLayer`, `Pool2DLayer`, `Pool3DLayer` and their
    max-pooling presets: construction and static shape inference. The reduction
    itself is the tensor engine's and is not modelled. */
module PoolLayers {
  import opened Wrappers
  import opened Shapes
  import opened PoolLength

  datatype PoolMode = Max | AverageIncPad | AverageExcPad

  /** A pooling layer over `dims` trailing spatial axes; the per-axis tuples hold one
      entry per spatial axis. */
  datatype PoolLayer = PoolLayer(
    inputShape: Shape,
    dims: nat,
    poolSize: seq<int>,
    stride: seq<int>,
    pad: seq<int>,
    ignoreBorder: bool,
    mode: PoolMode)
  {
    /** The per-axis tuples have been normalised to one entry per spatial axis. */
    predicate Normalised()
    {
      1 <= dims <= 3 && |poolSize| == dims && |stride| == dims && |pad| == dims
    }
  }

  /** Constructs a `dims`-D pooling layer. The input rank must be `dims + 2`
      (batch, channels, spatial axes); a missing stride defaults to the window. */
  function NewPoolLayer(dims: nat, inputShape: Shape, poolSize: seq<int>, stride: Option<seq<int>>,
                        pad: seq<int>, ignoreBorder: bool, mode: PoolMode): (r: Result<PoolLayer, LayerError>)
    requires 1 <= dims <= 3
    requires |poolSize| == dims && |pad| == dims && (stride.Some? ==> |stride.value| == dims)
    ensures r.Failure? <==> |inputShape| != dims + 2
    ensures r.Failure? ==> r.error == RankMismatch(dims + 2, |inputShape|)
    ensures r.Success? ==> r.value.Normalised() && r.value.dims == dims && r.value.inputShape == inputShape
    ensures r.Success? ==> r.value.stride == (if stride.Some? then stride.value else poolSize)
    ensures r.Success? ==> r.value.poolSize == poolSize && r.value.pad == pad
    ensures r.Success? ==> r.value.ignoreBorder == ignoreBorder && r.value.mode == mode
  {
    if |inputShape| != dims + 2 then
      Failure(RankMismatch(dims + 2, |inputShape|))
    else
      var st := if stride.None? then poolSize else stride.value;
      Success(PoolLayer(inputShape, dims, poolSize, st, pad, ignoreBorder, mode))
  }

  /** `MaxPool1DLayer`, `MaxPool2DLayer`, `MaxPool3DLayer`: the same layer with the
      mode fixed to max. */
  function NewMaxPoolLayer(dims: nat, inputShape: Shape, poolSize: seq<int>, stride: Option<seq<int>>,
                           pad: seq<int>, ignoreBorder: bool): (r: Result<PoolLayer, LayerError>)
    requires 1 <= dims <= 3
    requires |poolSize| == dims && |pad| == dims && (stride.Some? ==> |stride.value| == dims)
    ensures r.Failure? <==> |inputShape| != dims + 2
    ensures r.Success? ==> r.value.mode == Max && r.value.dims == dims
  {
    NewPoolLayer(dims, inputShape, poolSize, stride, pad, ignoreBorder, Max)
  }

  /** The shape holds every entry the layer writes. */
  predicate FitsRank(dims: nat, rank: nat)
  {
    if dims == 1 then rank >= 1 else rank >= 2 + dims
  }

  /** Entry `i` is one of the spatial entries the layer rewrites: the 1D layer writes
      the last entry (`output_shape[-1]`), the 2D and 3D layers entries 2, 3 and 4. */
  predicate IsSpatial(dims: nat, rank: nat, i: nat)
  {
    if dims == 1 then i == rank - 1 else 2 <= i < 2 + dims
  }

  /** The spatial axis that entry `i` holds (meaningful when `IsSpatial`). */
  function AxisAt(dims: nat, rank: nat, i: nat): nat
    requires IsSpatial(dims, rank, i)
  {
    if dims == 1 then 0 else i - 2
  }

  /** The lengths of every spatial entry meet `pool_output_length`'s demands. */
  predicate LengthsOk(layer: PoolLayer, inputShape: Shape)
    requires layer.Normalised() && FitsRank(layer.dims, |inputShape|)
  {
    forall i :: 0 <= i < |inputShape| && IsSpatial(layer.dims, |inputShape|, i) ==>
      var k := AxisAt(layer.dims, |inputShape|, i);
      ArgsOk(inputShape[i], Some(layer.poolSize[k]), layer.stride[k], layer.pad[k], layer.ignoreBorder)
  }

  /** The shape `get_output_shape_for` infers: every spatial entry becomes the pooled
      length along that axis with the axis's own window, stride and padding; the
      other entries are copied. */
  function OutputShape(layer: PoolLayer, inputShape: Shape): (r: Shape)
    requires layer.Normalised() && FitsRank(layer.dims, |inputShape|) && LengthsOk(layer, inputShape)
    ensures |r| == |inputShape|
    ensures forall i :: 0 <= i < |r| && !IsSpatial(layer.dims, |inputShape|, i) ==> r[i] == inputShape[i]
    ensures forall i :: 0 <= i < |r| ==> (r[i].None? <==> inputShape[i].None?)
  {
    seq(|inputShape|, i requires 0 <= i < |inputShape| =>
      if IsSpatial(layer.dims, |inputShape|, i) then
        var k := AxisAt(layer.dims, |inputShape|, i);
        PoolOutputLength(inputShape[i], Some(layer.poolSize[k]), layer.stride[k], layer.pad[k], layer.ignoreBorder)
      else inputShape[i])
  }

  /** `get_output_shape_for`: copies the shape into a list and overwrites the spatial
      entries one by one. */
  method GetOutputShapeFor(layer: PoolLayer, inputShape: Shape) returns (outputShape: Shape)
    requires layer.Normalised() && FitsRank(layer.dims, |inputShape|) && LengthsOk(layer, inputShape)
    ensures outputShape == OutputShape(layer, inputShape)
  {
    var n := |inputShape|;
    outputShape := inputShape;
    if layer.dims == 1 {
      assert IsSpatial(1, n, n - 1);
      outputShape := outputShape[n - 1 := PoolOutputLength(inputShape[n - 1], Some(layer.poolSize[0]),
                                                           layer.stride[0], layer.pad[0], layer.ignoreBorder)];
    } else {
      assert IsSpatial(layer.dims, n, 2) && IsSpatial(layer.dims, n, 3);
      outputShape := outputShape[2 := PoolOutputLength(inputShape[2], Some(layer.poolSize[0]),
                                                       layer.stride[0], layer.pad[0], layer.ignoreBorder)];
      outputShape := outputShape[3 := PoolOutputLength(inputShape[3], Some(layer.poolSize[1]),
                                                       layer.stride[1], layer.pad[1], layer.ignoreBorder)];
      if layer.dims == 3 {
        assert IsSpatial(layer.dims, n, 4);
        outputShape := outputShape[4 := PoolOutputLength(inputShape[4], Some(layer.poolSize[2]),
                                                         layer.stride[2], layer.pad[2], layer.ignoreBorder)];
      }
    }
    assert forall i :: 0 <= i < n ==> outputShape[i] == OutputShape(layer, inputShape)[i];
  }

  /** For a constructed layer, shape inference on its own input shape keeps the rank
      and the batch and channel entries, gives each spatial axis `2 + k` the pooled
      length of axis `k`, and is unknown there exactly when the input length is. */
  lemma {:induction false} ConstructedLayerShape(dims: nat, inputShape: Shape, poolSize: seq<int>,
                                                 stride: Option<seq<int>>, pad: seq<int>, ignoreBorder: bool,
                                                 mode: PoolMode, k: nat)
    requires 1 <= dims <= 3 && k < dims
    requires |poolSize| == dims && |pad| == dims && (stride.Some? ==> |stride.value| == dims)
    requires |inputShape| == dims + 2
    requires var layer := NewPoolLayer(dims, inputShape, poolSize, stride, pad, ignoreBorder, mode).value;
             LengthsOk(layer, inputShape)
    ensures var layer := NewPoolLayer(dims, inputShape, poolSize, stride, pad, ignoreBorder, mode).value;
            var r := OutputShape(layer, inputShape);
            && |r| == dims + 2 && r[0] == inputShape[0] && r[1] == inputShape[1]
            && r[2 + k] == PoolOutputLength(inputShape[2 + k], Some(poolSize[k]), layer.stride[k], pad[k], ignoreBorder)
            && (r[2 + k].None? <==> inputShape[2 + k].None?)
  {
    var layer := NewPoolLayer(dims, inputShape, poolSize, stride, pad, ignoreBorder, mode).value;
    assert IsSpatial(dims, dims + 2, 2 + k) && AxisAt(dims, dims + 2, 2 + k) == k;
    assert !IsSpatial(dims, dims + 2, 0) && !IsSpatial(dims, dims + 2, 1);
  }

  /** The 1D layer computes its output through the 2D primitive: it appends a
      trailing axis of size 1, pools with window `(w, 1)`, stride `(s, 1)` and
      padding `(p, 0)`, then keeps index 0 of that axis. The appended axis pools to
      length 1 under either border policy, so index 0 exists, and dropping it gives
      exactly the shape the 1D layer infers. */
  lemma {:induction false} Pool1DThroughPool2D(layer: PoolLayer, inputShape: Shape)
    requires layer.Normalised() && layer.dims == 1 && |inputShape| == 3 && LengthsOk(layer, inputShape)
    ensures var layer2 := PoolLayer(inputShape + [Some(1)], 2, layer.poolSize + [1], layer.stride + [1],
                                    layer.pad + [0], layer.ignoreBorder, layer.mode);
            && layer2.Normalised() && LengthsOk(layer2, inputShape + [Some(1)])
            && OutputShape(layer2, inputShape + [Some(1)])[3] == Some(1)
            && OutputShape(layer2, inputShape + [Some(1)])[..3] == OutputShape(layer, inputShape)
  {
    var padded := inputShape + [Some(1)];
    var layer2 := PoolLayer(padded, 2, layer.poolSize + [1], layer.stride + [1],
                            layer.pad + [0], layer.ignoreBorder, layer.mode);
    assert IsSpatial(1, 3, 2) && AxisAt(1, 3, 2) == 0;
    assert LengthsOk(layer2, padded) by {
      forall i | 0 <= i < 4 && IsSpatial(2, 4, i)
        ensures ArgsOk(padded[i], Some(layer2.poolSize[i - 2]), layer2.stride[i - 2], layer2.pad[i - 2], layer2.ignoreBorder)
      {
        if i == 2 {
          assert ArgsOk(inputShape[2], Some(layer.poolSize[0]), layer.stride[0], layer.pad[0], layer.ignoreBorder);
        }
      }
    }
    var r2 := OutputShape(layer2, padded);
    var r1 := OutputShape(layer, inputShape);
    assert r2[3] == PoolOutputLength(Some(1), Some(1), 1, 0, layer.ignoreBorder);
    assert r2[..3] == r1 by {
      assert r2[2] == r1[2];
      assert r2[0] == r1[0] && r2[1] == r1[1];
    }
  }
}
