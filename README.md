# Lasagne pooling layers, modelled in Dafny

This project models the integer shape and index arithmetic that
`lasagne/layers/pool.py` owns. The numerical work itself is done by the tensor
engine underneath.

- **`pool_output_length`** gives the number of windows along one axis. The model
  is `PoolLength.PoolOutputLength`, over `Option<int>`, where `None` is an unknown
  length. Its lemmas say which windows it counts under each border policy, how
  the two policies compare, and that it is monotone.
- **Windowed pooling layers** (`Pool1DLayer`, `Pool2DLayer`, `Pool3DLayer` and
  the `MaxPool*` presets). The model covers the rank check at construction and
  the per-axis shape inference. It also covers how the 1D layer goes through the
  2D primitive with a synthetic trailing axis of size 1.
- **Upscaling layers** (`Upscale1DLayer`, `Upscale2DLayer`, `Upscale3DLayer`).
  The model covers:
  - construction: factors of at least 1, and a mode of `'repeat'` or `'dilate'`;
  - shape inference;
  - the values `get_output_for` produces, on a dense row-major tensor (module
    `Tensors`).

  Repeat mode rebinds the result one axis at a time, last spatial axis first. It
  is modelled as a method with exactly that sequence of steps. Dilate mode
  scatters the input into a zero buffer. It is modelled as a method writing an
  array, one input element at a time. Both are proved against reference
  definitions. In repeat mode, output index `i` holds input `i / a`. In dilate
  mode, output index `i` holds input `i / a` on the stride grid and zero
  elsewhere.
- **`FeaturePoolLayer`** splits one axis into `(groups, pool_size)` and reduces
  over the second of the two. Splitting the axis keeps the element count, and it
  maps axis index `j` to `(j / p, j % p)`. Each output entry is the pooling
  function applied to its group of `p` consecutive entries.
- **`FeatureWTALayer`** (winner take all). The loops that build `pool_shape` and
  the `dimshuffle` pattern are a method. The mask has exactly one 1 per group,
  at the group's argmax. The output keeps the winner's value and zeroes every
  other entry. The layer has no `get_output_shape_for` of its own: it inherits
  the base class's, which returns the input shape unchanged. The model has no
  separate shape function for it, and `WtaOutput` keeps the input's shape.
- **`GlobalPoolLayer`** keeps the first two entries of the shape. Each output
  entry pools every entry of its batch and channel.

A pooling function (`T.max`, `T.mean` or a user-supplied one) is a parameter of
type `seq<int> -> int`. It is applied to the values it reduces, in row-major
order.

In these places the model follows what the code does:

- The upscale constructors do not check the input rank.
- The constructors of `FeaturePoolLayer` and `FeatureWTALayer` compute
  `num_feature_maps % pool_size` at once, which fails on an unknown size, so the
  model requires the size of the target axis to be known.
- Without `ignore_border`, `pool_output_length` asserts that `pad == 0`. The
  model makes that a precondition, together with a stride of at least 1.

## Model

| member | source | states |
|---|---|---|
| PoolLength.PoolOutputLength | lasagne/layers/pool.py:58-76 | The result is unknown exactly when the input length or the window size is unknown. |
| PoolLength.IgnoreBorderCountsFullWindows | lasagne/layers/pool.py:61-63 | With `ignore_border`, window `k` is counted iff it lies wholly inside the padded input: `k * stride + pool_size <= L + 2 * pad`. |
| PoolLength.IgnoreBorderAtLeastOne | lasagne/layers/pool.py:61-63 | With `ignore_border`, the result is at least 1 whenever the padded input holds one window. |
| PoolLength.IgnoreBorderSign | lasagne/layers/pool.py:61-63 | The `ignore_border` result is not clamped. It is negative iff `L + 2 * pad + stride < pool_size`. |
| PoolLength.WideStrideCountsStartingWindows | lasagne/layers/pool.py:69-70 | Without `ignore_border` and with `stride >= pool_size`, window `k` is counted iff it starts inside the input (`ceil(L / stride)` windows). |
| PoolLength.NarrowStrideAppendsPartialWindow | lasagne/layers/pool.py:71-74 | Without `ignore_border` and with `stride < pool_size`, the result is at least 1. Window `k > 0` is counted iff window `k - 1` leaves an input element uncovered, so exactly one partial window is appended. |
| PoolLength.BorderPolicyOrder | lasagne/layers/pool.py:58-76 | With no padding, keeping the border never gives fewer windows than ignoring it. |
| PoolLength.BorderPolicyAddsAtMostOne | lasagne/layers/pool.py:58-76 | Once the input holds a full window, keeping the border adds at most one window. |
| PoolLength.MonotoneInInputLength | lasagne/layers/pool.py:58-76 | A longer input never gives a shorter output, under either policy. |
| PoolLength.PoolingUndoesUpscaledLength | lasagne/layers/pool.py:58-76 | A window and stride of `k` on a length `L * k` gives exactly `L`, under either policy. |
| PoolLength.WorkedExample | lasagne/layers/pool.py:58-76 | Length 10, window 3, stride 2, no padding: 4 windows with `ignore_border`, 5 without. |
| PoolLayers.NewPoolLayer | lasagne/layers/pool.py:221-241 | Construction fails iff the input rank is not `dims + 2`, with the expected and actual ranks. The same holds for the 1D layer (lines 128-142) and for the intended rank-5 check of the 3D layer. On success, the stride defaults to the window, and every setting is stored. |
| PoolLayers.NewMaxPoolLayer | lasagne/layers/pool.py:423-432 | The max presets are the pooling layer with mode `Max`, under the same rank check. |
| PoolLayers.OutputShape | lasagne/layers/pool.py:243-260 | The inferred shape of every pooling layer (also lines 144-154 and 346-370) keeps the rank and every non-spatial entry. Each entry is unknown iff the input entry is. Each spatial entry is `pool_output_length` of its own axis, as its body states and `ConstructedLayerShape` pins down. |
| PoolLayers.GetOutputShapeFor | lasagne/layers/pool.py:346-370 | The copy-and-overwrite of `get_output_shape_for` (also lines 144-154 and 243-260) yields the specified shape. The 1D layer writes the last entry. The 2D and 3D layers write entries 2 to `1 + dims`, each with its own axis's window, stride and padding. |
| PoolLayers.ConstructedLayerShape | lasagne/layers/pool.py:243-260 | For a constructed layer, the inferred shape keeps the rank and the batch and channel entries. Spatial entry `2 + k` is the pooled length of axis `k`, and it is unknown iff the input entry is. |
| PoolLayers.Pool1DThroughPool2D | lasagne/layers/pool.py:156-166 | The 2D view of the 1D layer (trailing axis of size 1, window `(w, 1)`, stride `(s, 1)`, padding `(p, 0)`) is well formed. The synthetic axis pools to length 1, so index 0 exists. Dropping it gives the 1D layer's inferred shape. |
| UpscaleLayers.ParseMode | lasagne/layers/pool.py:641-644 | Only `'repeat'` and `'dilate'` are accepted, each mapping to its own mode. |
| UpscaleLayers.NewUpscaleLayer | lasagne/layers/pool.py:632-644 | Construction succeeds iff every factor is at least 1 and the mode is `'repeat'` or `'dilate'`. A bad factor is reported before a bad mode. On success, the settings are stored. The same holds in 1D and 3D (lines 567-579, 695-708). |
| UpscaleLayers.OutputShape | lasagne/layers/pool.py:646-652 | The inferred shape (also lines 581-585 and 710-718) keeps the rank and every entry outside the spatial axes. Each entry is unknown iff the input entry is. A known non-negative spatial size never shrinks. The exact value of each known spatial entry, on any shape, is stated by `InferredSpatialEntry`. |
| UpscaleLayers.InferredSpatialEntry | lasagne/layers/pool.py:646-652 | Whatever the other entries are (an unknown batch size included), each known spatial entry is inferred as the input size times its factor. It is a multiple of the factor, and dividing by the factor gives the input size back (also lines 581-585 and 710-718). |
| UpscaleLayers.GetOutputShapeFor | lasagne/layers/pool.py:710-718 | The in-place multiplication of the known spatial entries yields the specified shape (also lines 581-585 and 646-652). |
| UpscaleLayers.ScaledShapeIsInferred | lasagne/layers/pool.py:646-652 | On known sizes, the inferred shape multiplies each spatial entry by its factor and copies the rest. |
| UpscaleLayers.RepeatAlong | lasagne/layers/pool.py:659-661 | `repeat(x, a, axis)` on a row-major tensor (also line 592 and lines 725-729). The result is valid and multiplies the size of that axis by `a`. Its values are stated by `RepeatAlongAt` and `RepeatLastAxisIsRuns`. |
| UpscaleLayers.RepeatAlongAt | lasagne/layers/pool.py:658-661 | After `repeat(x, a, axis)`, output index `i` on that axis holds input index `i / a`. |
| UpscaleLayers.RepeatAlongOnce | lasagne/layers/pool.py:657-661 | Repeating once is the identity, so the `a > 1` guards do not change the result. |
| UpscaleLayers.RunsAt | lasagne/layers/pool.py:590-592 | The reference "each element repeated `a` times contiguously" has length `n * a`, and entry `i` is element `i / a`. |
| UpscaleLayers.RepeatLastAxisIsRuns | lasagne/layers/pool.py:590-592 | Repeating the last axis is that reference applied to the flat data. |
| UpscaleLayers.RepeatedByStep | lasagne/layers/pool.py:723-729 | Repeating one more spatial axis composes with the repeats already applied. |
| UpscaleLayers.RepeatStepApplies | lasagne/layers/pool.py:723-729 | Each guarded rebinding, including a skipped one, applies one more pending factor. |
| UpscaleLayers.RepeatAxes | lasagne/layers/pool.py:720-729 | The rebinding sequence (last spatial axis first, factors of 1 skipped) repeats every axis by its factor. It returns the input itself when every factor is 1. |
| UpscaleLayers.DivIdxInBounds | lasagne/layers/pool.py:663-666 | Dividing an output index by the factors lands inside the input shape. |
| UpscaleLayers.ScaleIdxInBounds | lasagne/layers/pool.py:663-666 | Multiplying an input index by the factors lands on the stride grid of the output shape, and dividing gives the index back. |
| UpscaleLayers.DilateTarget | lasagne/layers/pool.py:663-666 | Each input element has an output position that receives it. |
| UpscaleLayers.DilateTargetUnique | lasagne/layers/pool.py:663-666 | Only that position receives the element. |
| UpscaleLayers.ScatterStep | lasagne/layers/pool.py:663-666 | Writing one more input element changes only its own target position. |
| UpscaleLayers.Dilated | lasagne/layers/pool.py:663-666 | The reference for the dilated output: a valid tensor of the scaled shape. Its values are stated by `DilatedAt`. |
| UpscaleLayers.DilatedAt | lasagne/layers/pool.py:663-666 | The dilated tensor holds `input[idx / f]` at every index on the stride grid and 0 elsewhere. |
| UpscaleLayers.DilateByScatter | lasagne/layers/pool.py:663-666 | Writing the input into a zero buffer of the output shape, element by element, gives the dilated tensor. |
| UpscaleLayers.GetOutputFor | lasagne/layers/pool.py:720-736 | The output has the inferred shape. In repeat mode, every output index holds the input at the index divided by the factors. In dilate mode, that holds on the stride grid and the value is 0 elsewhere. The output is the input itself when every factor is 1. The same holds in 1D and 2D (lines 587-598, 654-667). |
| FeaturePool.NewFeaturePoolLayer | lasagne/layers/pool.py:786-790 | Construction fails iff the target axis size is not a multiple of the pool size, naming both. Otherwise the settings are stored. |
| FeaturePool.NewFeatureWTALayer | lasagne/layers/pool.py:843-847 | The same rule and error for the WTA layer. |
| FeaturePool.OutputShape | lasagne/layers/pool.py:792-795 | The inferred shape keeps every entry but the target one. The target entry is known, and it is Python's `size // pool_size`, characterised as the `q` with `q * p <= size < (q + 1) * p`. |
| FeaturePool.GetOutputShapeFor | lasagne/layers/pool.py:792-795 | The copy-and-overwrite yields the shape with only the target entry replaced by `size // pool_size`. |
| FeaturePool.ConstructedLayerShape | lasagne/layers/pool.py:786-795 | For a constructed layer, the inferred target entry times the pool size gives back the input size. Every other entry is unchanged. |
| FeaturePool.PoolShape | lasagne/layers/pool.py:802-804 | `pool_shape` has one more axis than the input. Dropping the within-group axis `axis + 1` gives the grouped output shape. |
| FeaturePool.PoolShapeProd | lasagne/layers/pool.py:802-806 | When the pool size divides the axis, `pool_shape` has exactly as many elements as the input, so the reshape is legal. |
| FeaturePool.ReshapeIndex | lasagne/layers/pool.py:802-806 | Axis index `j` sits at `(j / p, j % p)` of the reshaped tensor, with every other index unchanged. Both multi-indices have the same row-major offset. |
| FeaturePool.GroupMember | lasagne/layers/pool.py:800-804 | Member `u` of group `q` is axis index `q * p + u`, in bounds, and splits back to `(q, u)`. |
| FeaturePool.MemberOffset | lasagne/layers/pool.py:802-806 | The reshaped index of member `u` of a group and that member's input index have the same offset. |
| FeaturePool.GroupEntry | lasagne/layers/pool.py:806-807 | Member `u` of a group, read through the reshaped tensor, is input entry `q * p + u` of the target axis. |
| FeaturePool.FibreIsGroup | lasagne/layers/pool.py:806-807 | The values along axis `axis + 1` of the reshaped tensor at an output index are that index's group. |
| FeaturePool.FeaturePoolOutput | lasagne/layers/pool.py:797-807 | The reshape to `pool_shape` followed by the reduction of axis `axis + 1`. The result is valid and has the grouped shape. Its values are stated by `FeaturePoolAt`. |
| FeaturePool.FeaturePoolOutputShape | lasagne/layers/pool.py:797-807 | The computed output has the shape that `get_output_shape_for` infers. |
| FeaturePool.FeaturePoolAt | lasagne/layers/pool.py:797-807 | Each output entry is the pooling function applied to its group of `p` consecutive entries on the target axis. |
| FeaturePool.WtaPoolShape | lasagne/layers/pool.py:853-864 | The loops build exactly `pool_shape`, and a pattern with one entry per axis of it. The pattern places axis 0 of `arange(p)` on the within-group axis and broadcasts every other axis. |
| FeaturePool.ArgMax | lasagne/layers/pool.py:867-868 | The argmax is a position of the maximum. On ties it is the lowest such position (the assumed tie rule). |
| FeaturePool.WinnerIndices | lasagne/layers/pool.py:866-868 | `max_indices`: the argmax reduction of the within-group axis of the reshaped input. It is valid and has the grouped shape. Its values are stated by `WinnerAt`. |
| FeaturePool.WinnerAt | lasagne/layers/pool.py:866-868 | `max_indices` at a group is the argmax of that group's values. |
| FeaturePool.PooledMask | lasagne/layers/pool.py:870-871 | `T.eq(max_indices, arange)` in the reshaped layout: a valid tensor of shape `pool_shape`. Its values are stated by `PooledMaskAt`. |
| FeaturePool.PooledMaskAt | lasagne/layers/pool.py:870-871 | The broadcast comparison is 1 exactly where the within-group position equals the group's winner index. |
| FeaturePool.Mask | lasagne/layers/pool.py:871 | The comparison reshaped back: a valid tensor of the input's shape. Its values are stated by `MaskAt`. |
| FeaturePool.MaskThroughPool | lasagne/layers/pool.py:871 | Reshaping the mask back reads, at an input index, the comparison at its split index. |
| FeaturePool.SplitIndexParts | lasagne/layers/pool.py:871 | The split index minus its within-group position is the index's group, and that position is `j % p`. |
| FeaturePool.MaskAt | lasagne/layers/pool.py:866-871 | The mask at an input index is 1 iff its position in its group is the group's argmax, and 0 otherwise. |
| FeaturePool.WtaOutput | lasagne/layers/pool.py:873 | `input * mask`, entry by entry: a valid tensor of the input's shape. Its values are stated by `WtaOutputAt` and `OneWinnerPerGroup`. |
| FeaturePool.WtaOutputAt | lasagne/layers/pool.py:873 | The output keeps the input value at a group's winner and is 0 at every other entry. |
| FeaturePool.OneWinnerPerGroup | lasagne/layers/pool.py:849-873 | Each group has exactly one winner, at the lowest position holding the group's maximum. The mask is 1 there and 0 at every other member. The output keeps that value and zeroes the rest. |
| GlobalPool.OutputShape | lasagne/layers/pool.py:904-905 | The inferred shape is the first two entries, or all entries when there are fewer (Python slicing). |
| GlobalPool.Flatten3 | lasagne/layers/pool.py:908 | `flatten(3)` keeps the data and the first two sizes, and collapses the rest into their product. |
| GlobalPool.GlobalPoolOutput | lasagne/layers/pool.py:907-908 | The pooling function over axis 2 of `flatten(3)`: a valid tensor of shape `input.shape[:2]`. Its values are stated by `GlobalPoolAt`. |
| GlobalPool.GlobalPoolOutputShape | lasagne/layers/pool.py:904-908 | The computed output has the inferred shape. |
| GlobalPool.TrailingEntry | lasagne/layers/pool.py:908 | Entry `m` of the collapsed axis is the trailing multi-index with row-major offset `m`. |
| GlobalPool.GlobalPoolAt | lasagne/layers/pool.py:907-908 | Output `(b, c)` is the pooling function applied to every entry of batch `b` and channel `c`, in row-major order. |
| Tensors.ReduceAxisAt | lasagne/layers/pool.py:807 | A reduction over an axis gives, at each remaining index, the function of the values along that axis. |

## Left out

- The engine's reductions are not modelled. This covers `pool_2d` and `pool_3d` in the max and average modes (lines 159-165, 263-269, 373-379), and `T.max`, `T.mean` and `T.argmax` as numeric kernels. They are foreign calls, and the averages are floating point. Pooling functions appear only as a parameter over integer values.
- Tensor elements are integers. Floating point, NaN and dtypes are not modelled.
- `as_tuple` and the `Layer` base class are not part of this model. The per-axis tuples are taken as already normalised to one entry per spatial axis (a precondition), and `input_shape` is given.
- Symbolic runtime shapes are not modelled. Output values are computed on concrete shapes (`seq<nat>`).
- The 3D pooling constructor calls `super(Pool2DLayer, self)` (line 326), which would fail with a `TypeError`. Its message also says "2D" and "4 input dimensions" (lines 331-333). The model has the intended rank-5 check instead.
- The "pad must be less than stride" remark in the docstrings (lines 100-101, 192-193) is never checked, and the model adds no check.
- The cuDNN performance note is not modelled.
- Shape inference and output on an input of rank below `2 + dims` are not modelled as failures. In the source, `get_output_shape_for` indexes `output_shape[2]`, `[3]` and `[4]` (lines 253, 356, 363, 583, 650-651, 714-717), so it raises `IndexError` on such an input. The 1D pooling layer writes `output_shape[-1]` (line 147), which fails only on an empty shape. The model makes these ranks a precondition of `PoolLayers.OutputShape`, `PoolLayers.GetOutputShapeFor`, `UpscaleLayers.OutputShape`, `UpscaleLayers.GetOutputShapeFor` and `UpscaleLayers.GetOutputFor`. The upscale constructors check no rank, so `NewUpscaleLayer` still succeeds on such an input, as in the source. Only a later shape inference or output would fail there.
- FeaturePool.NewFeaturePoolLayer: the target axis size must be known, and the pool size must be at least 1. An unknown size, or a pool size of 0, makes the source fail with a `TypeError` or `ZeroDivisionError`, which is not modelled. A negative pool size is excluded as well, although the source can accept one: for an axis of size 6 and `pool_size=-3`, `6 % -3 == 0`, so construction succeeds, and line 794 infers `6 // -3 == -2`. The reshape to `(-2, -3)` at lines 802-806 then has no valid shape, so the model keeps pool sizes positive. It does not model Python's floor division by a negative divisor.
- FeaturePool.NewFeatureWTALayer: the same preconditions for the same reasons.
- Default argument values are not modelled. These are `pad=0`, `ignore_border=True` and `mode='max'` (lines 128-129, 221-222, 324-325); `mode='repeat'` (lines 567, 632, 695); `axis=1` and `pool_function=T.max` (line 779); `axis=1` (line 838); and `pool_function=T.mean` (line 900). In the model, every setting is an explicit argument. The one exception is the pooling layers' `stride=None`, which defaults to the window and is modelled.
- A negative `axis` for FeaturePool and WTA (Python's counting from the end) is not modelled. The axis is a natural number below the rank.
- FeaturePool.ArgMax: the lowest-index tie rule is an assumption about the engine's `argmax`, not something `pool.py` decides.
- FeaturePool.WinnerIndices: `keepdims=True` is modelled as the grouped shape without the singleton axis. The broadcast comparison against `arange(p)` is modelled at each position, not as a broadcast. `WtaPoolShape` gives the pattern, and `PooledMask` compares at the position it places.
- GlobalPool.GlobalPoolOutput: values are modelled for inputs of rank at least 3 only, since `flatten(3)` needs three axes. Shape inference covers every rank.
- PoolLength.PoolOutputLength: the `assert pad == 0` without `ignore_border` and the positive stride are preconditions, not modelled failures.
- Upscale repeat mode is modelled on immutable tensor values. Each `repeat` produces a new tensor, as in the source, so there is no aliasing to capture.
