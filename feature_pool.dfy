/** `FeaturePoolLayer` (pooling across groups of consecutive entries of one axis, as
    in maxout) and `FeatureWTALayer` (winner take all within each group): construction,
    shape inference, the reshape that exposes the groups, and the WTA mask. */
module FeaturePool {
  import opened Wrappers
  import opened Shapes
  import opened Tensors

  /** A feature pooling layer; the pooling function is a parameter of its output. */
  datatype FeaturePoolLayer = FeaturePoolLayer(inputShape: Shape, poolSize: int, axis: nat)

  /** A winner-take-all layer over groups of `poolSize` entries along `axis`. */
  datatype FeatureWTALayer = FeatureWTALayer(inputShape: Shape, poolSize: int, axis: nat)

  /** What both constructors read: the size of the target axis, which must be known. */
  predicate AxisKnown(inputShape: Shape, axis: nat)
  {
    axis < |inputShape| && inputShape[axis].Some?
  }

  /** Constructs a feature pooling layer; fails when the size of the target axis is
      not a multiple of the pool size. */
  function NewFeaturePoolLayer(inputShape: Shape, poolSize: int, axis: nat)
    : (r: Result<FeaturePoolLayer, LayerError>)
    requires poolSize >= 1 && AxisKnown(inputShape, axis)
    ensures r.Failure? <==> inputShape[axis].value % poolSize != 0
    ensures r.Failure? ==> r.error == NotMultiple(inputShape[axis].value, poolSize)
    ensures r.Success? ==> r.value == FeaturePoolLayer(inputShape, poolSize, axis)
  {
    var n := inputShape[axis].value;
    if n % poolSize != 0 then Failure(NotMultiple(n, poolSize))
    else Success(FeaturePoolLayer(inputShape, poolSize, axis))
  }

  /** Constructs a winner-take-all layer, under the same multiple-of-pool-size rule. */
  function NewFeatureWTALayer(inputShape: Shape, poolSize: int, axis: nat)
    : (r: Result<FeatureWTALayer, LayerError>)
    requires poolSize >= 1 && AxisKnown(inputShape, axis)
    ensures r.Failure? <==> inputShape[axis].value % poolSize != 0
    ensures r.Failure? ==> r.error == NotMultiple(inputShape[axis].value, poolSize)
    ensures r.Success? ==> r.value == FeatureWTALayer(inputShape, poolSize, axis)
  {
    var n := inputShape[axis].value;
    if n % poolSize != 0 then Failure(NotMultiple(n, poolSize))
    else Success(FeatureWTALayer(inputShape, poolSize, axis))
  }

  /** The shape `get_output_shape_for` infers: the target axis holds one entry per
      group; every other entry is copied. Python's `//` is Dafny's `/` for a positive
      pool size. */
  function OutputShape(layer: FeaturePoolLayer, inputShape: Shape): (r: Shape)
    requires layer.poolSize >= 1 && AxisKnown(inputShape, layer.axis)
    ensures |r| == |inputShape|
    ensures forall i :: 0 <= i < |r| && i != layer.axis ==> r[i] == inputShape[i]
    ensures r[layer.axis].Some?
    ensures var n, q := inputShape[layer.axis].value, r[layer.axis].value;
            q * layer.poolSize <= n < (q + 1) * layer.poolSize
  {
    var n, p := inputShape[layer.axis].value, layer.poolSize;
    assert n == (n / p) * p + n % p;
    assert (n / p + 1) * p == (n / p) * p + p;
    inputShape[layer.axis := Some(n / p)]
  }

  /** `get_output_shape_for`: copies the shape and overwrites the target entry. */
  method GetOutputShapeFor(layer: FeaturePoolLayer, inputShape: Shape) returns (outputShape: Shape)
    requires layer.poolSize >= 1 && AxisKnown(inputShape, layer.axis)
    ensures outputShape == OutputShape(layer, inputShape)
  {
    outputShape := inputShape;
    outputShape := outputShape[layer.axis := Some(inputShape[layer.axis].value / layer.poolSize)];
  }

  /** For a constructed layer, the inferred shape keeps the rank and every other
      entry, and its target entry times the pool size gives back the input size. */
  lemma ConstructedLayerShape(inputShape: Shape, poolSize: int, axis: nat)
    requires poolSize >= 1 && AxisKnown(inputShape, axis)
    requires NewFeaturePoolLayer(inputShape, poolSize, axis).Success?
    ensures var r := OutputShape(FeaturePoolLayer(inputShape, poolSize, axis), inputShape);
            && |r| == |inputShape| && r[axis].Some?
            && r[axis].value * poolSize == inputShape[axis].value
            && forall i :: 0 <= i < |r| && i != axis ==> r[i] == inputShape[i]
  {
    var n := inputShape[axis].value;
    assert n == (n / poolSize) * poolSize + n % poolSize;
  }

  // ---------------------------------------------------------------------------
  // The reshape that splits the target axis into (groups, pool size)

  /** `pool_shape`: the target axis of size `n` replaced by the two axes `n / p`, `p`.
      Dropping the second of them leaves one entry per group. */
  function PoolShape(shape: seq<nat>, axis: nat, p: nat): (r: seq<nat>)
    requires axis < |shape| && p >= 1
    ensures |r| == |shape| + 1
    ensures r[..axis + 1] + r[axis + 2..] == Grouped(shape, axis, p)
  {
    var r := shape[..axis] + [shape[axis] / p, p] + shape[axis + 1..];
    assert r[..axis + 1] + r[axis + 2..] == Grouped(shape, axis, p) by {
      var d := r[..axis + 1] + r[axis + 2..];
      forall i | 0 <= i < |shape|
        ensures d[i] == Grouped(shape, axis, p)[i]
      {
        if i > axis {
          assert d[i] == r[i + 1];
        }
      }
    }
    r
  }

  /** Entry `axis` divided by the pool size. Of a shape, this is the grouped shape (one
      entry per group on the target axis); of an input index, the index of its group. */
  function Grouped(s: seq<nat>, axis: nat, p: nat): (r: seq<nat>)
    requires axis < |s| && p >= 1
    ensures |r| == |s|
  {
    s[axis := s[axis] / p]
  }

  /** Splitting an axis whose size is a multiple of `p` keeps the element count. */
  lemma PoolShapeProd(shape: seq<nat>, axis: nat, p: nat)
    requires axis < |shape| && p >= 1 && shape[axis] % p == 0
    ensures Prod(PoolShape(shape, axis, p)) == Prod(shape)
  {
    ProdAroundAxis(shape, axis);
    ProdPoolShape(shape, axis, p);
    GroupCount(Prod(shape[..axis]), shape[axis], p, Prod(shape[axis + 1..]));
  }

  lemma ProdPoolShape(shape: seq<nat>, axis: nat, p: nat)
    requires axis < |shape| && p >= 1
    ensures Prod(PoolShape(shape, axis, p))
            == Prod(shape[..axis]) * (shape[axis] / p) * p * Prod(shape[axis + 1..])
  {
    var s, g, t := shape[..axis], shape[axis] / p, shape[axis + 1..];
    assert PoolShape(shape, axis, p) == (s + [g]) + [p] + t;
    ProdView(s + [g], p, t);
    ProdSnoc(s, g);
  }

  lemma GroupCount(a: int, n: int, p: int, c: int)
    requires p >= 1 && n % p == 0
    ensures a * (n / p) * p * c == a * n * c
  {
    assert (n / p) * p == n;
    MulAssoc(a, n / p, p);
  }

  /** Entry `j` of the target axis sits at group `j / p`, position `j % p` of the
      reshaped tensor: both multi-indices have the same row-major offset. */
  lemma ReshapeIndex(idx: seq<nat>, shape: seq<nat>, axis: nat, p: nat)
    requires axis < |shape| && p >= 1 && shape[axis] % p == 0
    requires InBounds(idx, shape)
    ensures var j := idx[axis];
            var pidx := idx[..axis] + [j / p, j % p] + idx[axis + 1..];
            && InBounds(pidx, PoolShape(shape, axis, p))
            && Flat(pidx, PoolShape(shape, axis, p)) == Flat(idx, shape)
  {
    var j := idx[axis];
    var a, b := idx[..axis], idx[axis + 1..];
    var s, t := shape[..axis], shape[axis + 1..];
    PoolIndexInBounds(idx, shape, axis, p);
    FlatAroundAxis(idx, shape, axis);
    FlatAroundSplit(idx, shape, axis, p);
    GroupOffset(Flat(a, s), shape[axis], p, j, Prod(t), Flat(b, t));
  }

  /** The offset of `idx` seen through the three-axis view around `axis`. */
  lemma FlatAroundAxis(idx: seq<nat>, shape: seq<nat>, axis: nat)
    requires axis < |shape| && |idx| == |shape|
    ensures Flat(idx, shape) == (Flat(idx[..axis], shape[..axis]) * shape[axis] + idx[axis])
                                * Prod(shape[axis + 1..]) + Flat(idx[axis + 1..], shape[axis + 1..])
  {
    SplitAt(idx, axis);
    SplitAt(shape, axis);
    AxisView(idx[..axis], idx[axis], idx[axis + 1..], shape[..axis], shape[axis], shape[axis + 1..]);
  }

  /** The offset of the split index in the pooled shape through the same view. */
  lemma FlatAroundSplit(idx: seq<nat>, shape: seq<nat>, axis: nat, p: nat)
    requires axis < |shape| && |idx| == |shape| && p >= 1
    ensures var j := idx[axis];
            Flat(idx[..axis] + [j / p, j % p] + idx[axis + 1..], PoolShape(shape, axis, p))
            == ((Flat(idx[..axis], shape[..axis]) * (shape[axis] / p) + j / p) * p + j % p)
               * Prod(shape[axis + 1..]) + Flat(idx[axis + 1..], shape[axis + 1..])
  {
    var j, g := idx[axis], shape[axis] / p;
    var a, b := idx[..axis], idx[axis + 1..];
    var s, t := shape[..axis], shape[axis + 1..];
    assert a + [j / p, j % p] + b == (a + [j / p]) + [j % p] + b;
    assert PoolShape(shape, axis, p) == (s + [g]) + [p] + t;
    AxisView(a + [j / p], j % p, b, s + [g], p, t);
    FlatSnoc(a, j / p, s, g);
  }

  lemma PoolIndexInBounds(idx: seq<nat>, shape: seq<nat>, axis: nat, p: nat)
    requires axis < |shape| && p >= 1 && shape[axis] % p == 0
    requires InBounds(idx, shape)
    ensures InBounds(idx[..axis] + [idx[axis] / p, idx[axis] % p] + idx[axis + 1..], PoolShape(shape, axis, p))
  {
    var j, n := idx[axis], shape[axis];
    var pidx := idx[..axis] + [j / p, j % p] + idx[axis + 1..];
    var ps := PoolShape(shape, axis, p);
    assert j / p < n / p by {
      assert n == (n / p) * p + n % p;
      DivBound(j, n / p, p);
    }
    forall i | 0 <= i < |pidx|
      ensures pidx[i] < ps[i]
    {
      if i > axis + 1 {
        assert pidx[i] == idx[i - 1] && ps[i] == shape[i - 1];
      }
    }
  }

  /** Offset arithmetic of the split axis: `(f * (n / p) + j / p) * p + j % p` is
      `f * n + j` when `p` divides `n`. */
  lemma GroupOffset(f: int, n: int, p: int, j: int, c: int, e: int)
    requires p >= 1 && n % p == 0
    ensures ((f * (n / p) + j / p) * p + j % p) * c + e == (f * n + j) * c + e
  {
    var g := n / p;
    assert n == g * p + n % p;
    assert (f * g + j / p) * p == f * g * p + (j / p) * p;
    MulAssoc(f, g, p);
  }

  /** Member `u` of group `q`: index `q * p + u` of an axis of size `g * p`. */
  lemma GroupMember(q: nat, u: nat, g: nat, p: nat)
    requires p >= 1 && q < g && u < p
    ensures q * p + u < g * p
    ensures (q * p + u) / p == q && (q * p + u) % p == u
  {
    MulLeMono(q + 1, g, p);
    DivModUnique((q * p + u) / p, (q * p + u) % p, q, u, p);
  }

  /** The input index of member `u` of the group at grouped index `g`. */
  function Member(g: seq<nat>, axis: nat, p: nat, u: nat): (idx: seq<nat>)
    requires axis < |g|
    ensures |idx| == |g|
  {
    g[axis := g[axis] * p + u]
  }

  /** The `p` input entries of the group at output index `idx`, in axis order. */
  function Group(t: Tensor, axis: nat, p: nat, idx: seq<nat>): (r: seq<int>)
    requires t.Valid() && axis < |t.shape| && p >= 1 && t.shape[axis] % p == 0
    requires InBounds(idx, Grouped(t.shape, axis, p))
    ensures |r| == p
  {
    seq(p, u requires 0 <= u < p =>
      GroupMember(idx[axis], u, t.shape[axis] / p, p);
      t.At(Member(idx, axis, p, u)))
  }

  /** `get_output_for` of `FeaturePoolLayer`: reshape to `pool_shape`, then reduce the
      within-group axis `axis + 1` with the pooling function `f`. */
  function FeaturePoolOutput(t: Tensor, axis: nat, p: nat, f: seq<int> -> int): (r: Tensor)
    requires t.Valid() && axis < |t.shape| && p >= 1 && t.shape[axis] % p == 0
    ensures r.Valid() && r.shape == Grouped(t.shape, axis, p)
  {
    PoolShapeProd(t.shape, axis, p);
    ReduceAxis(Reshape(t, PoolShape(t.shape, axis, p)), axis + 1, f)
  }

  /** The output has the shape the layer infers for its input. */
  lemma FeaturePoolOutputShape(t: Tensor, axis: nat, p: nat, f: seq<int> -> int)
    requires t.Valid() && axis < |t.shape| && p >= 1 && t.shape[axis] % p == 0
    ensures var layer := FeaturePoolLayer(Known(t.shape), p, axis);
            Known(FeaturePoolOutput(t, axis, p, f).shape) == OutputShape(layer, Known(t.shape))
  {
  }

  /** Reading the within-group axis of the reshaped tensor at output index `idx`
      gives that index's group. */
  lemma FibreIsGroup(t: Tensor, axis: nat, p: nat, idx: seq<nat>)
    requires t.Valid() && axis < |t.shape| && p >= 1 && t.shape[axis] % p == 0
    requires InBounds(idx, Grouped(t.shape, axis, p))
    ensures Prod(PoolShape(t.shape, axis, p)) == Prod(t.shape)
    ensures var R := Reshape(t, PoolShape(t.shape, axis, p));
            Fibre(R, axis + 1, idx) == Group(t, axis, p, idx)
  {
    PoolShapeProd(t.shape, axis, p);
    var R := Reshape(t, PoolShape(t.shape, axis, p));
    forall u | 0 <= u < p
      ensures Fibre(R, axis + 1, idx)[u] == Group(t, axis, p, idx)[u]
    {
      GroupEntry(t, axis, p, idx, u);
    }
  }

  /** Each output entry is the pooling function applied to its group: the `p`
      consecutive input entries `q * p .. q * p + p - 1` of the target axis. */
  lemma FeaturePoolAt(t: Tensor, axis: nat, p: nat, f: seq<int> -> int, idx: seq<nat>)
    requires t.Valid() && axis < |t.shape| && p >= 1 && t.shape[axis] % p == 0
    requires InBounds(idx, Grouped(t.shape, axis, p))
    ensures FeaturePoolOutput(t, axis, p, f).At(idx) == f(Group(t, axis, p, idx))
  {
    PoolShapeProd(t.shape, axis, p);
    var R := Reshape(t, PoolShape(t.shape, axis, p));
    ReduceAxisAt(R, axis + 1, f, idx);
    FibreIsGroup(t, axis, p, idx);
    assert FeaturePoolOutput(t, axis, p, f) == ReduceAxis(R, axis + 1, f);
  }

  /** Member `u` of a group read through the reshaped tensor is the input entry
      `q * p + u` of the target axis. */
  lemma GroupEntry(t: Tensor, axis: nat, p: nat, idx: seq<nat>, u: nat)
    requires t.Valid() && axis < |t.shape| && p >= 1 && t.shape[axis] % p == 0
    requires InBounds(idx, Grouped(t.shape, axis, p)) && u < p
    ensures Prod(PoolShape(t.shape, axis, p)) == Prod(t.shape)
    ensures var R := Reshape(t, PoolShape(t.shape, axis, p));
            var ridx := idx[..axis + 1] + [u] + idx[axis + 1..];
            && InBounds(ridx, R.shape)
            && R.At(ridx) == Group(t, axis, p, idx)[u]
  {
    PoolShapeProd(t.shape, axis, p);
    MemberOffset(t.shape, axis, p, idx, u);
  }

  /** The reshaped index of member `u` of a group and the member's input index have
      the same row-major offset. */
  lemma MemberOffset(shape: seq<nat>, axis: nat, p: nat, idx: seq<nat>, u: nat)
    requires axis < |shape| && p >= 1 && shape[axis] % p == 0
    requires InBounds(idx, Grouped(shape, axis, p)) && u < p
    ensures InBounds(Member(idx, axis, p, u), shape)
    ensures InBounds(idx[..axis + 1] + [u] + idx[axis + 1..], PoolShape(shape, axis, p))
    ensures Flat(idx[..axis + 1] + [u] + idx[axis + 1..], PoolShape(shape, axis, p))
            == Flat(Member(idx, axis, p, u), shape)
  {
    var q := idx[axis];
    GroupMember(q, u, shape[axis] / p, p);
    var jdx := Member(idx, axis, p, u);
    assert InBounds(jdx, shape) by {
      assert shape[axis] == (shape[axis] / p) * p + shape[axis] % p;
    }
    ReshapeIndex(jdx, shape, axis, p);
    assert jdx[..axis] + [jdx[axis] / p, jdx[axis] % p] + jdx[axis + 1..] == idx[..axis + 1] + [u] + idx[axis + 1..] by {
      assert jdx[axis] / p == q && jdx[axis] % p == u;
      assert jdx[..axis] == idx[..axis] && jdx[axis + 1..] == idx[axis + 1..];
      assert idx[..axis + 1] == idx[..axis] + [q];
    }
  }

  // ---------------------------------------------------------------------------
  // Winner take all

  /** An entry of a `dimshuffle` pattern: a new broadcastable axis (`'x'`) or an
      existing axis of the shuffled tensor. */
  datatype ShuffleEntry = Broadcast | Dim(d: nat)

  /** The loops of the WTA `get_output_for` that build `pool_shape` and
      `arange_shuffle_pattern` by appending: they give the grouped reshape, and a
      pattern that places the `p` positions of `arange(p)` on the within-group axis
      and broadcasts over every other axis. */
  method WtaPoolShape(shape: seq<nat>, axis: nat, p: nat) returns (poolShape: seq<nat>, pattern: seq<ShuffleEntry>)
    requires axis < |shape| && p >= 1
    ensures poolShape == PoolShape(shape, axis, p)
    ensures |pattern| == |poolShape|
    ensures forall i :: 0 <= i < |pattern| ==> (pattern[i] == Dim(0) <==> i == axis + 1)
    ensures forall i :: 0 <= i < |pattern| ==> pattern[i] == Dim(0) || pattern[i] == Broadcast
  {
    var numPools := shape[axis] / p;
    poolShape, pattern := [], [];
    for k := 0 to axis
      invariant poolShape == shape[..k]
      invariant pattern == seq(k, _ => Broadcast)
    {
      poolShape := poolShape + [shape[k]];
      pattern := pattern + [Broadcast];
    }
    poolShape := poolShape + [numPools, p];
    pattern := pattern + [Broadcast, Dim(0)];
    for k := axis + 1 to |shape|
      invariant poolShape == shape[..axis] + [numPools, p] + shape[axis + 1..k]
      invariant |pattern| == k + 1
      invariant forall i :: 0 <= i < |pattern| ==> pattern[i] == if i == axis + 1 then Dim(0) else Broadcast
    {
      poolShape := poolShape + [shape[k]];
      pattern := pattern + [Broadcast];
    }
  }

  /** Position of the largest entry; on ties the lowest such position, which is the
      tie rule this model assumes of the tensor engine's `argmax`. */
  function ArgMax(xs: seq<int>): (i: nat)
    requires |xs| > 0
    ensures i < |xs|
    ensures forall j :: 0 <= j < |xs| ==> xs[j] <= xs[i]
    ensures forall j :: 0 <= j < i ==> xs[j] < xs[i]
  {
    if |xs| == 1 then 0
    else
      var k := ArgMax(xs[..|xs| - 1]);
      if xs[|xs| - 1] > xs[k] then |xs| - 1 else k
  }

  /** `argmax` as a reduction of a fibre; fibres here are never empty. */
  function ArgMaxOf(xs: seq<int>): int
  {
    if |xs| == 0 then 0 else ArgMax(xs)
  }

  lemma GroupIndexInBounds(idx: seq<nat>, shape: seq<nat>, axis: nat, p: nat)
    requires axis < |shape| && p >= 1 && shape[axis] % p == 0
    requires InBounds(idx, shape)
    ensures InBounds(Grouped(idx, axis, p), Grouped(shape, axis, p))
  {
    var n := shape[axis];
    assert n == (n / p) * p + n % p;
    DivBound(idx[axis], n / p, p);
  }

  /** `max_indices`: the position of the winner within each group. */
  function WinnerIndices(t: Tensor, axis: nat, p: nat): (r: Tensor)
    requires t.Valid() && axis < |t.shape| && p >= 1 && t.shape[axis] % p == 0
    ensures r.Valid() && r.shape == Grouped(t.shape, axis, p)
  {
    PoolShapeProd(t.shape, axis, p);
    ReduceAxis(Reshape(t, PoolShape(t.shape, axis, p)), axis + 1, ArgMaxOf)
  }

  /** The mask in the reshaped layout: 1 where the within-group position equals the
      group's winner (`T.eq(max_indices, arange)`), 0 elsewhere. */
  function PooledMask(t: Tensor, axis: nat, p: nat): (r: Tensor)
    requires t.Valid() && axis < |t.shape| && p >= 1 && t.shape[axis] % p == 0
    ensures r.Valid() && r.shape == PoolShape(t.shape, axis, p)
  {
    var ps := PoolShape(t.shape, axis, p);
    var w := WinnerIndices(t, axis, p);
    Tensor(ps, seq(Prod(ps), m requires 0 <= m < Prod(ps) =>
      var pidx := Unflat(m, ps);
      DropInBounds(pidx, ps, axis + 1);
      if w.At(pidx[..axis + 1] + pidx[axis + 2..]) == pidx[axis + 1] as int then 1 else 0))
  }

  /** Dropping one axis from an index and from its shape keeps it in bounds. */
  lemma DropInBounds(idx: seq<nat>, shape: seq<nat>, ax: nat)
    requires InBounds(idx, shape) && ax < |shape|
    ensures InBounds(idx[..ax] + idx[ax + 1..], shape[..ax] + shape[ax + 1..])
  {
    var d, e := idx[..ax] + idx[ax + 1..], shape[..ax] + shape[ax + 1..];
    forall i | 0 <= i < |d|
      ensures d[i] < e[i]
    {
      if i >= ax {
        assert d[i] == idx[i + 1] && e[i] == shape[i + 1];
      }
    }
  }

  /** `mask`: the pooled mask reshaped back to the input's shape. */
  function Mask(t: Tensor, axis: nat, p: nat): (r: Tensor)
    requires t.Valid() && axis < |t.shape| && p >= 1 && t.shape[axis] % p == 0
    ensures r.Valid() && r.shape == t.shape
  {
    PoolShapeProd(t.shape, axis, p);
    Reshape(PooledMask(t, axis, p), t.shape)
  }

  /** `get_output_for` of `FeatureWTALayer`: the input times the mask, entry by entry. */
  function WtaOutput(t: Tensor, axis: nat, p: nat): (r: Tensor)
    requires t.Valid() && axis < |t.shape| && p >= 1 && t.shape[axis] % p == 0
    ensures r.Valid() && r.shape == t.shape
  {
    var mask := Mask(t, axis, p);
    Tensor(t.shape, seq(|t.data|, m requires 0 <= m < |t.data| => t.data[m] * mask.data[m]))
  }

  /** The winner index of a group is the argmax of that group. */
  lemma WinnerAt(t: Tensor, axis: nat, p: nat, g: seq<nat>)
    requires t.Valid() && axis < |t.shape| && p >= 1 && t.shape[axis] % p == 0
    requires InBounds(g, Grouped(t.shape, axis, p))
    ensures WinnerIndices(t, axis, p).At(g) == ArgMax(Group(t, axis, p, g))
  {
    PoolShapeProd(t.shape, axis, p);
    var R := Reshape(t, PoolShape(t.shape, axis, p));
    ReduceAxisAt(R, axis + 1, ArgMaxOf, g);
    FibreIsGroup(t, axis, p, g);
  }

  /** An entry of the pooled mask compares its within-group position with its
      group's winner index. */
  lemma PooledMaskAt(t: Tensor, axis: nat, p: nat, pidx: seq<nat>)
    requires t.Valid() && axis < |t.shape| && p >= 1 && t.shape[axis] % p == 0
    requires InBounds(pidx, PoolShape(t.shape, axis, p))
    ensures InBounds(pidx[..axis + 1] + pidx[axis + 2..], Grouped(t.shape, axis, p))
    ensures PooledMask(t, axis, p).At(pidx) ==
            if WinnerIndices(t, axis, p).At(pidx[..axis + 1] + pidx[axis + 2..]) == pidx[axis + 1] as int
            then 1 else 0
  {
    DropInBounds(pidx, PoolShape(t.shape, axis, p), axis + 1);
    UnflatFlat(pidx, PoolShape(t.shape, axis, p));
  }

  /** The mask read at an input index is the pooled mask read at its reshaped index. */
  lemma MaskThroughPool(t: Tensor, axis: nat, p: nat, idx: seq<nat>)
    requires t.Valid() && axis < |t.shape| && p >= 1 && t.shape[axis] % p == 0
    requires InBounds(idx, t.shape)
    ensures var pidx := idx[..axis] + [idx[axis] / p, idx[axis] % p] + idx[axis + 1..];
            && InBounds(pidx, PoolShape(t.shape, axis, p))
            && Mask(t, axis, p).At(idx) == PooledMask(t, axis, p).At(pidx)
  {
    ReshapeIndex(idx, t.shape, axis, p);
  }

  /** Input entry `idx` wins exactly when its position within its group is the
      group's argmax; the mask is 1 there and 0 elsewhere. */
  lemma MaskAt(t: Tensor, axis: nat, p: nat, idx: seq<nat>)
    requires t.Valid() && axis < |t.shape| && p >= 1 && t.shape[axis] % p == 0
    requires InBounds(idx, t.shape)
    ensures InBounds(Grouped(idx, axis, p), Grouped(t.shape, axis, p))
    ensures Mask(t, axis, p).At(idx) ==
            if idx[axis] % p == ArgMax(Group(t, axis, p, Grouped(idx, axis, p))) then 1 else 0
  {
    GroupIndexInBounds(idx, t.shape, axis, p);
    var j := idx[axis];
    var pidx := idx[..axis] + [j / p, j % p] + idx[axis + 1..];
    MaskThroughPool(t, axis, p, idx);
    PooledMaskAt(t, axis, p, pidx);
    SplitIndexParts(idx, axis, p);
    WinnerAt(t, axis, p, Grouped(idx, axis, p));
  }

  /** The reshaped index of `idx` without its within-group position is the group
      of `idx`; that position is `idx[axis] % p`. */
  lemma SplitIndexParts(idx: seq<nat>, axis: nat, p: nat)
    requires axis < |idx| && p >= 1
    ensures var j := idx[axis];
            var pidx := idx[..axis] + [j / p, j % p] + idx[axis + 1..];
            && pidx[..axis + 1] + pidx[axis + 2..] == Grouped(idx, axis, p)
            && pidx[axis + 1] == j % p
  {
    var j := idx[axis];
    var pidx := idx[..axis] + [j / p, j % p] + idx[axis + 1..];
    assert pidx[..axis + 1] == idx[..axis] + [j / p];
    assert pidx[axis + 2..] == idx[axis + 1..];
  }

  /** An input entry survives winner take all exactly when it is its group's winner;
      every other entry becomes 0. */
  lemma WtaOutputAt(t: Tensor, axis: nat, p: nat, idx: seq<nat>)
    requires t.Valid() && axis < |t.shape| && p >= 1 && t.shape[axis] % p == 0
    requires InBounds(idx, t.shape)
    ensures InBounds(Grouped(idx, axis, p), Grouped(t.shape, axis, p))
    ensures WtaOutput(t, axis, p).At(idx) ==
            if idx[axis] % p == ArgMax(Group(t, axis, p, Grouped(idx, axis, p))) then t.At(idx) else 0
  {
    MaskAt(t, axis, p, idx);
    FlatBound(idx, t.shape);
  }

  /** Each group has exactly one winner, at the lowest position holding the group's
      maximum: the mask is 1 there and 0 at every other member, and the output keeps
      that member's value and zeroes the rest. */
  lemma OneWinnerPerGroup(t: Tensor, axis: nat, p: nat, g: seq<nat>)
    requires t.Valid() && axis < |t.shape| && p >= 1 && t.shape[axis] % p == 0
    requires InBounds(g, Grouped(t.shape, axis, p))
    ensures var xs := Group(t, axis, p, g);
            var w := ArgMax(xs);
            && w < p
            && (forall u :: 0 <= u < p ==> xs[u] <= xs[w])
            && (forall u :: 0 <= u < w ==> xs[u] < xs[w])
            && forall u :: 0 <= u < p ==>
                 && InBounds(Member(g, axis, p, u), t.shape)
                 && (Mask(t, axis, p).At(Member(g, axis, p, u)) == 1 <==> u == w)
                 && WtaOutput(t, axis, p).At(Member(g, axis, p, u)) == if u == w then xs[u] else 0
  {
    var xs := Group(t, axis, p, g);
    var w := ArgMax(xs);
    forall u | 0 <= u < p
      ensures InBounds(Member(g, axis, p, u), t.shape)
      ensures Mask(t, axis, p).At(Member(g, axis, p, u)) == 1 <==> u == w
      ensures WtaOutput(t, axis, p).At(Member(g, axis, p, u)) == if u == w then xs[u] else 0
    {
      var idx := Member(g, axis, p, u);
      GroupMember(g[axis], u, t.shape[axis] / p, p);
      assert InBounds(idx, t.shape);
      assert Grouped(idx, axis, p) == g;
      MaskAt(t, axis, p, idx);
      WtaOutputAt(t, axis, p, idx);
    }
  }
}
