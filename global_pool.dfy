/** `GlobalPoolLayer`: pooling over every axis beyond the second. */
module GlobalPool {
  import opened Shapes
  import opened Tensors

  /** The shape `get_output_shape_for` infers: the first two entries, or as many as
      there are (Python slicing stops at the end). */
  function OutputShape(inputShape: Shape): (r: Shape)
    ensures |r| == if |inputShape| < 2 then |inputShape| else 2
    ensures forall i :: 0 <= i < |r| ==> r[i] == inputShape[i]
  {
    inputShape[..if |inputShape| < 2 then |inputShape| else 2]
  }

  /** `input.flatten(3)`: the trailing axes collapsed into one. */
  function Flatten3(t: Tensor): (r: Tensor)
    requires t.Valid() && |t.shape| >= 3
    ensures r.Valid() && r.data == t.data
    ensures r.shape == [t.shape[0], t.shape[1], Prod(t.shape[2..])]
  {
    assert Prod(t.shape) == Prod([t.shape[0], t.shape[1]]) * Prod(t.shape[2..]) by {
      assert t.shape == [t.shape[0], t.shape[1]] + t.shape[2..];
      ProdAppend([t.shape[0], t.shape[1]], t.shape[2..]);
    }
    assert Prod([t.shape[0], t.shape[1], Prod(t.shape[2..])])
        == Prod([t.shape[0], t.shape[1]]) * Prod(t.shape[2..]) by {
      ProdSnoc([t.shape[0], t.shape[1]], Prod(t.shape[2..]));
      assert [t.shape[0], t.shape[1]] + [Prod(t.shape[2..])] == [t.shape[0], t.shape[1], Prod(t.shape[2..])];
    }
    Reshape(t, [t.shape[0], t.shape[1], Prod(t.shape[2..])])
  }

  /** `get_output_for`: the pooling function `f` applied over the collapsed axis. */
  function GlobalPoolOutput(t: Tensor, f: seq<int> -> int): (r: Tensor)
    requires t.Valid() && |t.shape| >= 3
    ensures r.Valid() && r.shape == t.shape[..2]
  {
    ReduceAxis(Flatten3(t), 2, f)
  }

  /** The output has the shape the layer infers for its input. */
  lemma GlobalPoolOutputShape(t: Tensor, f: seq<int> -> int)
    requires t.Valid() && |t.shape| >= 3
    ensures Known(GlobalPoolOutput(t, f).shape) == OutputShape(Known(t.shape))
  {
  }

  /** All entries of batch `b`, channel `c`, in row-major order of the trailing axes. */
  function Trailing(t: Tensor, b: nat, c: nat): (r: seq<int>)
    requires t.Valid() && |t.shape| >= 3 && b < t.shape[0] && c < t.shape[1]
    ensures |r| == Prod(t.shape[2..])
  {
    seq(Prod(t.shape[2..]), m requires 0 <= m < Prod(t.shape[2..]) =>
      var rest := Unflat(m, t.shape[2..]);
      assert InBounds([b, c] + rest, t.shape) by {
        assert t.shape == [t.shape[0], t.shape[1]] + t.shape[2..];
      }
      t.At([b, c] + rest))
  }

  /** Output entry `(b, c)` is the pooling function applied to every entry of that
      batch and channel, visited in row-major order. */
  lemma GlobalPoolAt(t: Tensor, f: seq<int> -> int, b: nat, c: nat)
    requires t.Valid() && |t.shape| >= 3 && b < t.shape[0] && c < t.shape[1]
    ensures InBounds([b, c], t.shape[..2])
    ensures GlobalPoolOutput(t, f).At([b, c]) == f(Trailing(t, b, c))
  {
    var F := Flatten3(t);
    assert F.shape[..2] + F.shape[3..] == t.shape[..2];
    ReduceAxisAt(F, 2, f, [b, c]);
    assert Fibre(F, 2, [b, c]) == Trailing(t, b, c) by {
      forall m | 0 <= m < Prod(t.shape[2..])
        ensures Fibre(F, 2, [b, c])[m] == Trailing(t, b, c)[m]
      {
        assert [b, c][..2] + [m] + [b, c][2..] == [b, c, m];
        TrailingEntry(t, b, c, m);
      }
    }
  }

  /** Entry `m` of the collapsed axis is entry `Unflat(m)` of the trailing axes. */
  lemma TrailingEntry(t: Tensor, b: nat, c: nat, m: nat)
    requires t.Valid() && |t.shape| >= 3 && b < t.shape[0] && c < t.shape[1]
    requires m < Prod(t.shape[2..])
    ensures InBounds([b, c, m], Flatten3(t).shape)
    ensures Flatten3(t).At([b, c, m]) == Trailing(t, b, c)[m]
  {
    var head, tail := [t.shape[0], t.shape[1]], t.shape[2..];
    var rest := Unflat(m, tail);
    assert t.shape == head + tail;
    FlatAppend([b, c], rest, head, tail);
    FlatSnoc([b, c], m, head, Prod(tail));
    assert [b, c] + [m] == [b, c, m];
    assert head + [Prod(tail)] == Flatten3(t).shape;
  }
}
