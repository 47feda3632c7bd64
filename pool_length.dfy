/** The output length of a pooling window sliding along one axis
    (`pool_output_length`), and what that length counts. */
module PoolLength {
  import opened Wrappers

  /** What `pool_output_length` demands once both lengths are known: it divides by
      the stride, and without `ignore_border` it asserts that there is no padding. */
  predicate ArgsOk(inputLength: Option<int>, poolSize: Option<int>, stride: int, pad: int, ignoreBorder: bool)
  {
    inputLength.Some? && poolSize.Some? ==> stride >= 1 && (ignoreBorder || pad == 0)
  }

  function Max(a: int, b: int): int
  {
    if a >= b then a else b
  }

  /** Output length along one axis; `None` stands for an unknown length. Dafny's `/`
      agrees with Python's `//` here because the divisor is a positive stride. */
  function PoolOutputLength(inputLength: Option<int>, poolSize: Option<int>, stride: int, pad: int,
                            ignoreBorder: bool): (r: Option<int>)
    requires ArgsOk(inputLength, poolSize, stride, pad, ignoreBorder)
    ensures r.None? <==> inputLength.None? || poolSize.None?
  {
    if inputLength.None? || poolSize.None? then None
    else if ignoreBorder then
      var n := inputLength.value + 2 * pad - poolSize.value + 1;
      Some((n + stride - 1) / stride)
    else if stride >= poolSize.value then
      Some((inputLength.value + stride - 1) / stride)
    else
      Some(Max(0, (inputLength.value - poolSize.value + stride - 1) / stride) + 1)
  }

  /** `m` is at most `x / s` exactly when `m * s` is at most `x`. */
  lemma FloorDivLe(m: int, x: int, s: int)
    requires s >= 1
    ensures m <= x / s <==> m * s <= x
  {
    var q := x / s;
    assert x == q * s + x % s;
    if m <= q {
      assert m * s <= q * s by { MulMono(m, q, s); }
    } else {
      assert (q + 1) * s <= m * s by { MulMono(q + 1, m, s); }
    }
  }

  lemma MulMono(a: int, b: int, s: int)
    requires a <= b && s >= 0
    ensures a * s <= b * s
  {
  }

  /** Rounding `n / s` up counts the strides `k * s` that fall below `n`. */
  lemma CeilDivCounts(n: int, s: int, k: int)
    requires s >= 1 && k >= 0
    ensures k < (n + s - 1) / s <==> k * s < n
  {
    FloorDivLe(k + 1, n + s - 1, s);
  }

  /** With `ignore_border`, window `k` (starting at `k * stride` in the padded input)
      is counted exactly when it lies wholly inside the padded input. */
  lemma IgnoreBorderCountsFullWindows(inputLength: int, poolSize: int, stride: int, pad: int, k: int)
    requires stride >= 1 && k >= 0
    ensures k < PoolOutputLength(Some(inputLength), Some(poolSize), stride, pad, true).value
            <==> k * stride + poolSize <= inputLength + 2 * pad
  {
    CeilDivCounts(inputLength + 2 * pad - poolSize + 1, stride, k);
  }

  /** With `ignore_border`, at least one window is produced as soon as the padded
      input holds one window. */
  lemma IgnoreBorderAtLeastOne(inputLength: int, poolSize: int, stride: int, pad: int)
    requires stride >= 1
    requires inputLength + 2 * pad >= poolSize
    ensures PoolOutputLength(Some(inputLength), Some(poolSize), stride, pad, true).value >= 1
  {
    IgnoreBorderCountsFullWindows(inputLength, poolSize, stride, pad, 0);
  }

  /** The `ignore_border` length is not clamped: it is negative exactly when the
      padded input is shorter than the window by a stride or more. */
  lemma IgnoreBorderSign(inputLength: int, poolSize: int, stride: int, pad: int)
    requires stride >= 1
    ensures PoolOutputLength(Some(inputLength), Some(poolSize), stride, pad, true).value < 0
            <==> inputLength + 2 * pad + stride < poolSize
  {
    FloorDivLe(0, inputLength + 2 * pad - poolSize + stride, stride);
  }

  /** Without `ignore_border` and a stride at least the window: window `k` is counted
      exactly when it starts inside the input. */
  lemma WideStrideCountsStartingWindows(inputLength: int, poolSize: int, stride: int, k: int)
    requires stride >= 1 && stride >= poolSize && k >= 0
    ensures k < PoolOutputLength(Some(inputLength), Some(poolSize), stride, 0, false).value
            <==> k * stride < inputLength
  {
    CeilDivCounts(inputLength, stride, k);
  }

  /** Without `ignore_border` and a stride below the window: the first window is always
      counted, and window `k > 0` exactly when window `k - 1` leaves an input element
      uncovered, so one partial window closes the input. */
  lemma NarrowStrideAppendsPartialWindow(inputLength: int, poolSize: int, stride: int, k: int)
    requires 1 <= stride < poolSize && k >= 0
    ensures PoolOutputLength(Some(inputLength), Some(poolSize), stride, 0, false).value >= 1
    ensures k < PoolOutputLength(Some(inputLength), Some(poolSize), stride, 0, false).value
            <==> k == 0 || (k - 1) * stride + poolSize < inputLength
  {
    if k > 0 {
      CeilDivCounts(inputLength - poolSize, stride, k - 1);
    }
  }

  /** Without padding, keeping the border never yields fewer windows than ignoring it:
      every full window is also counted when partial windows are allowed. */
  lemma BorderPolicyOrder(inputLength: nat, poolSize: int, stride: int)
    requires poolSize >= 1 && stride >= 1
    ensures PoolOutputLength(Some(inputLength), Some(poolSize), stride, 0, true).value
            <= PoolOutputLength(Some(inputLength), Some(poolSize), stride, 0, false).value
  {
    var full := PoolOutputLength(Some(inputLength), Some(poolSize), stride, 0, true).value;
    var kept := PoolOutputLength(Some(inputLength), Some(poolSize), stride, 0, false).value;
    if kept < full {
      if stride >= poolSize {
        WideStrideCountsStartingWindows(inputLength, poolSize, stride, 0);
        assert kept >= 0 by { FloorDivLe(0, inputLength + stride - 1, stride); }
        IgnoreBorderCountsFullWindows(inputLength, poolSize, stride, 0, kept);
        WideStrideCountsStartingWindows(inputLength, poolSize, stride, kept);
      } else {
        NarrowStrideAppendsPartialWindow(inputLength, poolSize, stride, kept);
        IgnoreBorderCountsFullWindows(inputLength, poolSize, stride, 0, kept);
      }
    }
  }

  /** Once the input holds a full window, keeping the border adds at most the one
      partial window. */
  lemma BorderPolicyAddsAtMostOne(inputLength: int, poolSize: int, stride: int)
    requires poolSize >= 1 && stride >= 1 && inputLength >= poolSize
    ensures PoolOutputLength(Some(inputLength), Some(poolSize), stride, 0, false).value
            <= PoolOutputLength(Some(inputLength), Some(poolSize), stride, 0, true).value + 1
  {
    var full := PoolOutputLength(Some(inputLength), Some(poolSize), stride, 0, true).value;
    var kept := PoolOutputLength(Some(inputLength), Some(poolSize), stride, 0, false).value;
    IgnoreBorderAtLeastOne(inputLength, poolSize, stride, 0);
    if kept > full + 1 {
      var k := full + 1;
      IgnoreBorderCountsFullWindows(inputLength, poolSize, stride, 0, full);
      if stride >= poolSize {
        WideStrideCountsStartingWindows(inputLength, poolSize, stride, k);
      } else {
        NarrowStrideAppendsPartialWindow(inputLength, poolSize, stride, k);
      }
    }
  }

  /** A longer input never gives a shorter output, under either border policy. */
  lemma MonotoneInInputLength(l1: int, l2: int, poolSize: int, stride: int, pad: int, ignoreBorder: bool)
    requires l1 <= l2 && stride >= 1 && (ignoreBorder || pad == 0)
    ensures PoolOutputLength(Some(l1), Some(poolSize), stride, pad, ignoreBorder).value
            <= PoolOutputLength(Some(l2), Some(poolSize), stride, pad, ignoreBorder).value
  {
    var r1 := PoolOutputLength(Some(l1), Some(poolSize), stride, pad, ignoreBorder).value;
    var x1, x2;
    if ignoreBorder {
      x1, x2 := l1 + 2 * pad - poolSize + stride, l2 + 2 * pad - poolSize + stride;
    } else if stride >= poolSize {
      x1, x2 := l1 + stride - 1, l2 + stride - 1;
    } else {
      x1, x2 := l1 - poolSize + stride - 1, l2 - poolSize + stride - 1;
    }
    FloorDivLe(x1 / stride, x1, stride);
    FloorDivLe(x1 / stride, x2, stride);
  }

  /** Pooling with window and stride `k` undoes a `k`-fold upscaling of the length. */
  lemma PoolingUndoesUpscaledLength(inputLength: nat, k: int, ignoreBorder: bool)
    requires k >= 1
    ensures PoolOutputLength(Some(inputLength * k), Some(k), k, 0, ignoreBorder) == Some(inputLength)
  {
    var x := inputLength * k + k - 1;
    FloorDivLe(inputLength, x, k);
    FloorDivLe(inputLength + 1, x, k);
    if ignoreBorder {
      assert inputLength * k + 2 * 0 - k + 1 + k - 1 == inputLength * k;
      FloorDivLe(inputLength, inputLength * k, k);
      FloorDivLe(inputLength + 1, inputLength * k, k);
    }
  }

  /** Length 10, window 3, stride 2: 4 windows when the border is ignored, 5 when a
      partial window is kept. */
  lemma WorkedExample()
    ensures PoolOutputLength(Some(10), Some(3), 2, 0, true) == Some(4)
    ensures PoolOutputLength(Some(10), Some(3), 2, 0, false) == Some(5)
  {
  }
}
