/** Static shapes (entries may be unknown) and the construction errors of the layers. */
module Shapes {
  import opened Wrappers

  /** A shape as seen by static shape inference: `None` is an unknown size. */
  type Shape = seq<Option<int>>

  /** The static shape of a concrete tensor shape: every entry known. */
  function Known(dims: seq<nat>): (s: Shape)
    ensures |s| == |dims|
    ensures forall i :: 0 <= i < |dims| ==> s[i] == Some(dims[i] as int)
  {
    seq(|dims|, i requires 0 <= i < |dims| => Some(dims[i] as int))
  }

  /** The `ValueError`s the layer constructors raise. */
  datatype LayerError =
    | RankMismatch(expected: nat, actual: nat)
    | ScaleFactorTooSmall(factors: seq<int>)
    | InvalidUpscaleMode(mode: string)
    | NotMultiple(numFeatureMaps: int, poolSize: int)
}
