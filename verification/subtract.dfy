/** The channel-subtract effect: in every frame each channel loses the mean
    of all channels, computed in Java `int` arithmetic and clamped to the
    sample range. */
module ChannelSubtract {
  import opened Arith
  import opened JavaInt
  import opened Samples
  import opened Frames

  /** The exact sum of a frame's samples. */
  function Sum(xs: seq<int>): int
  {
    if |xs| == 0 then 0 else Sum(xs[..|xs| - 1]) + xs[|xs| - 1]
  }

  /** `monoSample += sample` over the frame from the first channel to the
      last, each addition wrapping as Java `int` does. */
  function MonoSum(xs: seq<int>): (m: int)
    ensures IsInt(m)
  {
    if |xs| == 0 then 0 else Wrap(MonoSum(xs[..|xs| - 1]) + xs[|xs| - 1])
  }

  /** The running `int` sum is the exact sum wrapped once. */
  lemma {:induction false} MonoSumWraps(xs: seq<int>)
    ensures MonoSum(xs) == Wrap(Sum(xs))
  {
    if |xs| > 0 {
      var init := xs[..|xs| - 1];
      MonoSumWraps(init);
      WrapAdd(Sum(init), xs[|xs| - 1]);
    }
  }

  /** The saturation to the sample range of the format. */
  function Clamp(f: Format, v: int): (r: int)
    ensures InRange(f, r)
    ensures InRange(f, v) ==> r == v
    ensures v > MaxSample(f) ==> r == MaxSample(f)
    ensures v < MinSample(f) ==> r == MinSample(f)
  {
    if v > MaxSample(f) then MaxSample(f)
    else if v < MinSample(f) then MinSample(f)
    else v
  }

  /** One channel's new value: `s *= n; s -= mono; s /= n` in Java `int`
      arithmetic, then clamped. */
  function SubtractSample(f: Format, n: nat, s: int, mono: int): (r: int)
    requires n > 0
    ensures InRange(f, r)
  {
    Clamp(f, Div(Wrap(Wrap(s * n) - mono), n))
  }

  /** The channels `xs` of a frame of `n` channels whose `int` sum is `mono`,
      each after the effect. */
  function SubtractEach(f: Format, n: nat, xs: seq<int>, mono: int): (r: seq<int>)
    requires n > 0
    ensures |r| == |xs|
    ensures forall c {:trigger r[c]} :: 0 <= c < |xs| ==> r[c] == SubtractSample(f, n, xs[c], mono)
  {
    if |xs| == 0 then [] else [SubtractSample(f, n, xs[0], mono)] + SubtractEach(f, n, xs[1..], mono)
  }

  /** A frame after the effect: every channel against the frame's `int` sum. */
  function SubtractFrame(f: Format, frame: seq<int>): (r: seq<int>)
    ensures |r| == |frame|
  {
    if |frame| == 0 then [] else SubtractEach(f, |frame|, frame, MonoSum(frame))
  }

  /** Channel `c` of a frame after the effect. */
  lemma SubtractFrameAt(f: Format, frame: seq<int>, c: nat)
    requires c < |frame|
    ensures SubtractFrame(f, frame)[c] == SubtractSample(f, |frame|, frame[c], MonoSum(frame))
  {
  }

  /** The effect as a function on frames. */
  function SubtractEffect(f: Format): seq<int> -> seq<int>
  {
    frame => SubtractFrame(f, frame)
  }

  /** The subtract rewrite keeps the width of a frame. */
  lemma SubtractKeepsWidth(f: Format, n: nat)
    ensures KeepsWidth(n, SubtractEffect(f))
  {
    forall x: seq<int> | |x| == n
      ensures |SubtractEffect(f)(x)| == n
    {
    }
  }

  /** A block of interleaved samples after the effect, frame by frame. */
  function SubtractChannels(f: Format, n: nat, xs: seq<int>): (r: seq<int>)
    requires Framed(n, xs)
    ensures |r| == |xs|
  {
    SubtractKeepsWidth(f, n);
    MapFramesLength(n, SubtractEffect(f), xs);
    MapFrames(n, SubtractEffect(f), xs)
  }

  /** Every sample the effect writes is in range, whatever the input. */
  lemma {:induction false} SubtractInRange(f: Format, n: nat, xs: seq<int>)
    requires Framed(n, xs)
    ensures AllInRange(f, SubtractChannels(f, n, xs))
    decreases |xs|
  {
    if |xs| > 0 {
      FrameTail(n, xs);
      var head, rest := xs[..n], xs[n..];
      SubtractInRange(f, n, rest);
      var out := SubtractChannels(f, n, xs);
      assert out == SubtractFrame(f, head) + SubtractChannels(f, n, rest);
      forall i | 0 <= i < |out|
        ensures InRange(f, out[i])
      {
        if i < n {
          assert out[i] == SubtractFrame(f, head)[i];
        } else {
          assert out[i] == SubtractChannels(f, n, rest)[i - n];
        }
      }
    }
  }

  /** The sum of samples in range lies between the count times the extremes. */
  lemma {:induction false} SumBounds(f: Format, xs: seq<int>)
    requires AllInRange(f, xs)
    ensures |xs| * MinSample(f) <= Sum(xs) <= |xs| * MaxSample(f)
  {
    if |xs| > 0 {
      SumBounds(f, xs[..|xs| - 1]);
      assert InRange(f, xs[|xs| - 1]);
    }
  }

  /** `s * n - sum` as a sum of the differences between `s` and each channel. */
  lemma {:induction false} SumOfDifferences(f: Format, s: int, xs: seq<int>)
    requires InRange(f, s) && AllInRange(f, xs)
    ensures -(|xs| * (MaxSample(f) - MinSample(f))) <= s * |xs| - Sum(xs) <= |xs| * (MaxSample(f) - MinSample(f))
  {
    if |xs| > 0 {
      var init := xs[..|xs| - 1];
      SumOfDifferences(f, s, init);
      assert InRange(f, xs[|xs| - 1]);
      assert s * |xs| == s * |init| + s;
    }
  }

  /** Unfolds one channel's arithmetic once the wrapped difference is known. */
  lemma SampleFromDifference(f: Format, n: nat, s: int, mono: int, d: int)
    requires n > 0 && Wrap(Wrap(s * n) - mono) == d
    ensures SubtractSample(f, n, s, mono) == Clamp(f, Div(d, n))
  {
  }

  /** A channel count up to which no intermediate value of the effect can
      leave the `int` range: the largest `n` for which `n` times the width of
      the sample range stays below 2^31. The bound is safe rather than tight,
      because a channel's own sample cancels in the difference. */
  function ExactChannels(f: Format): (m: nat)
    ensures m * (MaxSample(f) - MinSample(f)) < TwoTo31
    ensures (m + 1) * (MaxSample(f) - MinSample(f)) >= TwoTo31
  {
    match f
    case I16 => 0x8000
    case I24 => 0x80
  }

  /** Within `ExactChannels` neither the product, the sum nor their
      difference leaves the `int` range. */
  lemma NoWrapInFrame(f: Format, frame: seq<int>, s: int)
    requires InRange(f, s) && AllInRange(f, frame) && |frame| <= ExactChannels(f)
    ensures Wrap(Wrap(s * |frame|) - MonoSum(frame)) == s * |frame| - Sum(frame)
  {
    var span := MaxSample(f) - MinSample(f);
    assert |frame| * span < TwoTo31 by {
      MulBound(|frame|, ExactChannels(f), span);
    }
    assert Wrap(s * |frame|) == s * |frame| by {
      MulBound(s, span, |frame|);
    }
    assert MonoSum(frame) == Sum(frame) by {
      SumBounds(f, frame);
      MulBound(MaxSample(f), span, |frame|);
      MulBound(MinSample(f), span, |frame|);
      MonoSumWraps(frame);
    }
    SumOfDifferences(f, s, frame);
  }

  /** Up to `ExactChannels` channels nothing wraps: a channel's new value is
      its exact distance from the frame's mean, truncated toward zero and
      clamped. */
  lemma SubtractExact(f: Format, frame: seq<int>, c: nat)
    requires c < |frame| && AllInRange(f, frame) && |frame| <= ExactChannels(f)
    ensures SubtractSample(f, |frame|, frame[c], MonoSum(frame))
      == Clamp(f, Div(frame[c] * |frame| - Sum(frame), |frame|))
  {
    NoWrapInFrame(f, frame, frame[c]);
    SampleFromDifference(f, |frame|, frame[c], MonoSum(frame), frame[c] * |frame| - Sum(frame));
  }

  /** The sum of equal values is the count times the value. */
  lemma {:induction false} SumConstant(xs: seq<int>, s: int)
    requires forall i :: 0 <= i < |xs| ==> xs[i] == s
    ensures Sum(xs) == |xs| * s
  {
    if |xs| > 0 {
      SumConstant(xs[..|xs| - 1], s);
    }
  }

  /** A frame whose channels all hold the same value becomes silence, whatever
      the wrap-around on the way. */
  lemma EqualFrameSilent(f: Format, frame: seq<int>)
    requires |frame| > 0 && forall i :: 0 <= i < |frame| ==> frame[i] == frame[0]
    ensures forall c :: 0 <= c < |frame| ==> SubtractFrame(f, frame)[c] == 0
  {
    var n, s := |frame|, frame[0];
    SumConstant(frame, s);
    MonoSumWraps(frame);
    WrapSub(Wrap(s * n), n * s);
    WrapAdd(s * n, -(n * s));
    assert Wrap(Wrap(s * n) - MonoSum(frame)) == 0;
  }

  /** A stereo frame's `int` sum never wraps. */
  lemma StereoSum(f: Format, left: int, right: int)
    requires InRange(f, left) && InRange(f, right)
    ensures MonoSum([left, right]) == left + right
  {
    assert [left, right][..1] == [left] && [left][..0] == [];
    assert MonoSum([left]) == left;
  }

  /** One channel of a stereo frame whose sum is `mono`: twice the channel
      minus the sum is its difference from the other channel, and half of
      that is always a sample. */
  lemma StereoChannel(f: Format, s: int, other: int, mono: int)
    requires InRange(f, s) && InRange(f, other) && mono == s + other
    ensures SubtractSample(f, 2, s, mono) == Div(s - other, 2)
  {
    assert Wrap(Wrap(s * 2) - mono) == s - other;
    assert InRange(f, Div(s - other, 2));
  }

  /** Stereo: left becomes half the difference, truncated toward zero, and
      right its negation; no clamping ever happens. */
  lemma Stereo(f: Format, left: int, right: int)
    requires InRange(f, left) && InRange(f, right)
    ensures SubtractFrame(f, [left, right]) == [Div(left - right, 2), -Div(left - right, 2)]
  {
    StereoSum(f, left, right);
    var mono := MonoSum([left, right]);
    StereoChannel(f, left, right, mono);
    StereoChannel(f, right, left, mono);
    DivNegate(left - right, 2);
    var r := SubtractFrame(f, [left, right]);
    assert r[0] == SubtractSample(f, 2, left, mono);
    assert r[1] == SubtractSample(f, 2, right, mono);
  }

  /** Left 100 and right 40 become 30 and -30. */
  lemma StereoExample()
    ensures SubtractFrame(I16, [100, 40]) == [30, -30]
  {
    Stereo(I16, 100, 40);
    assert Div(100 - 40, 2) == 30;
  }

  /** Channel `c` of frame `k` of the result depends only on frame `k` of the input. */
  lemma SubtractIndex(f: Format, n: nat, xs: seq<int>, k: nat, c: nat)
    requires Framed(n, xs) && k * n + n <= |xs| && c < n
    ensures SubtractChannels(f, n, xs)[k * n + c]
      == SubtractSample(f, n, xs[k * n + c], MonoSum(xs[k * n..k * n + n]))
  {
    MulMono(0, k, n);
    SubtractKeepsWidth(f, n);
    MapFramesIndex(n, SubtractEffect(f), xs, k, c);
    var frame := xs[k * n..k * n + n];
    assert |frame| == n;
    SubtractFrameAt(f, frame, c);
    assert SubtractEffect(f)(frame) == SubtractFrame(f, frame);
    assert frame[c] == xs[k * n + c];
  }
}
