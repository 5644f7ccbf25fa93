/** The frame-sampling arithmetic both `process_video` loops share: the stride, the
    frame budget, and which source frames get segmented. */
module Sampling {

  /** `frame_sampling_rate = max(1, round(original_fps / target_fps))`, given the
      already rounded ratio. */
  function Stride(roundedRatio: int): (s: nat)
    ensures s >= 1
    ensures s >= roundedRatio
    ensures s == 1 || s == roundedRatio
  {
    if roundedRatio < 1 then 1 else roundedRatio
  }

  /** How many source frames a loop consumes: it stops at `max_frames` or when the
      video runs out, whichever comes first. */
  function FrameBudget(maxFrames: int, available: nat): (b: nat)
    ensures b <= available
    ensures b <= (if maxFrames < 0 then 0 else maxFrames)
    ensures b == available || b == maxFrames || (maxFrames < 0 && b == 0)
  {
    if maxFrames <= 0 then 0
    else if maxFrames < available then maxFrames
    else available
  }

  /** Reference selection: the source indices below `n` that are multiples of the
      stride, in increasing order. */
  function Sampled(n: nat, stride: nat): seq<nat>
    requires stride >= 1
  {
    if n == 0 then []
    else Sampled(n - 1, stride) + (if (n - 1) % stride == 0 then [n - 1] else [])
  }

  /** An index is selected exactly when it is below the bound and a multiple of the stride. */
  lemma {:induction false} SampledMembership(n: nat, stride: nat, i: int)
    requires stride >= 1
    ensures i in Sampled(n, stride) <==> 0 <= i < n && i % stride == 0
  {
    if n > 0 {
      SampledMembership(n - 1, stride, i);
    }
  }

  /** The ceiling of `n / d`. */
  function CeilDiv(n: nat, d: nat): nat
    requires d >= 1
  {
    if n % d == 0 then n / d else n / d + 1
  }

  /** A positive multiple of a non-negative number is at least that number. */
  lemma MulAtLeast(k: int, d: int)
    requires k >= 1 && d >= 0
    ensures k * d >= d
  {
    assert k * d == (k - 1) * d + d;
  }

  /** Euclidean division is determined by quotient and remainder bounds. */
  lemma DivModUnique(x: int, d: int, q: int, r: int)
    requires d > 0 && 0 <= r < d && x == q * d + r
    ensures x / d == q && x % d == r
  {
    var q', r' := x / d, x % d;
    assert x == q' * d + r';
    assert (q' - q) * d == r - r' by {
      assert (q' - q) * d == q' * d - q * d;
    }
    if q' > q {
      MulAtLeast(q' - q, d);
    } else if q' < q {
      MulAtLeast(q - q', d);
    }
  }

  /** Moving the bound up by one adds one multiple exactly when the old bound is one. */
  lemma CeilDivStep(n: nat, d: nat)
    requires d >= 1
    ensures CeilDiv(n + 1, d) == CeilDiv(n, d) + (if n % d == 0 then 1 else 0)
    ensures n % d == 0 ==> CeilDiv(n, d) * d == n
  {
    var q, r := n / d, n % d;
    if r + 1 < d {
      DivModUnique(n + 1, d, q, r + 1);
    } else {
      DivModUnique(n + 1, d, q + 1, 0);
    }
  }

  /** The number of selected frames is the ceiling of the bound over the stride. */
  lemma {:induction false} SampledCount(n: nat, stride: nat)
    requires stride >= 1
    ensures |Sampled(n, stride)| == CeilDiv(n, stride)
  {
    if n > 0 {
      SampledCount(n - 1, stride);
      CeilDivStep(n - 1, stride);
    }
  }

  /** The k-th selected frame is frame `k * stride`, so the selection is increasing. */
  lemma {:induction false} SampledAreMultiples(n: nat, stride: nat)
    requires stride >= 1
    ensures forall k :: 0 <= k < |Sampled(n, stride)| ==> Sampled(n, stride)[k] == k * stride
  {
    if n > 0 {
      SampledAreMultiples(n - 1, stride);
      if (n - 1) % stride == 0 {
        SampledCount(n - 1, stride);
        CeilDivStep(n - 1, stride);
      }
    }
  }

  /** With a budget of 100 frames and a stride of 2, a long enough video yields 50
      segmented frames, whatever its length beyond that. */
  lemma FiftyOfHundred(available: nat)
    requires available >= 100
    ensures |Sampled(FrameBudget(100, available), 2)| == 50
  {
    SampledCount(100, 2);
  }

  /** At least one frame is selected exactly when the budget is not empty. */
  lemma {:induction false} SampledNonEmpty(n: nat, stride: nat)
    requires stride >= 1
    ensures |Sampled(n, stride)| > 0 <==> n > 0
  {
    SampledMembership(n, stride, 0);
  }
}
