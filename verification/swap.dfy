/** The channel-swap effect: in every frame channel `c` of `n` takes the
    sample of channel `n - 1 - c`, so the channel order is reversed (left and
    right are exchanged in stereo). */
module ChannelSwap {
  import opened Arith
  import opened Samples
  import opened Frames

  /** One frame after the effect. */
  function SwapFrame(frame: seq<int>): (r: seq<int>)
    ensures |r| == |frame|
  {
    seq(|frame|, c requires 0 <= c < |frame| => frame[|frame| - 1 - c])
  }

  /** The swap of a frame is its reversal. */
  lemma SwapFrameIsReverse(frame: seq<int>)
    ensures SwapFrame(frame) == Reverse(frame)
  {
  }

  /** The swap rewrite keeps the width of a frame. */
  lemma SwapKeepsWidth(n: nat)
    ensures KeepsWidth(n, SwapFrame)
  {
  }

  /** The swap rewrite keeps the width, is an involution and permutes each frame. */
  lemma SwapFrameProperties(n: nat)
    ensures KeepsWidth(n, SwapFrame)
    ensures Involutive(n, SwapFrame)
    ensures KeepsItems(n, SwapFrame)
  {
    forall x: seq<int> | |x| == n
      ensures SwapFrame(SwapFrame(x)) == x
      ensures multiset(SwapFrame(x)) == multiset(x)
    {
      SwapFrameIsReverse(x);
      SwapFrameIsReverse(SwapFrame(x));
      ReverseTwice(x);
      ReverseMultiset(x);
    }
  }

  /** A block of interleaved samples after the effect, frame by frame. */
  function SwapChannels(n: nat, xs: seq<int>): (r: seq<int>)
    requires Framed(n, xs)
    ensures |r| == |xs|
  {
    SwapKeepsWidth(n);
    MapFramesLength(n, SwapFrame, xs);
    MapFrames(n, SwapFrame, xs)
  }

  /** Sample `c` of frame `k` of the output is sample `n - 1 - c` of frame `k`
      of the input. */
  lemma SwapIndex(n: nat, xs: seq<int>, k: nat, c: nat)
    requires Framed(n, xs) && k * n + n <= |xs| && c < n
    ensures SwapChannels(n, xs)[k * n + c] == xs[k * n + (n - 1 - c)]
  {
    var frame := xs[k * n..k * n + n];
    assert SwapChannels(n, xs)[k * n + c] == SwapFrame(frame)[c] by {
      SwapKeepsWidth(n);
      MapFramesIndex(n, SwapFrame, xs, k, c);
    }
    assert frame[n - 1 - c] == xs[k * n + (n - 1 - c)];
  }

  /** Swapping twice restores the block. */
  lemma SwapTwice(n: nat, xs: seq<int>)
    requires Framed(n, xs)
    ensures Framed(n, SwapChannels(n, xs))
    ensures SwapChannels(n, SwapChannels(n, xs)) == xs
  {
    SwapFrameProperties(n);
    MapFramesTwice(n, SwapFrame, xs);
  }

  /** The output holds exactly the input's samples, so every output sample is
      in range when every input sample is. */
  lemma SwapPermutes(f: Format, n: nat, xs: seq<int>)
    requires Framed(n, xs)
    ensures multiset(SwapChannels(n, xs)) == multiset(xs)
    ensures AllInRange(f, xs) ==> AllInRange(f, SwapChannels(n, xs))
  {
    SwapFrameProperties(n);
    MapFramesMultiset(n, SwapFrame, xs);
    var out := SwapChannels(n, xs);
    if AllInRange(f, xs) {
      forall i | 0 <= i < |out|
        ensures InRange(f, out[i])
      {
        assert out[i] in multiset(xs);
      }
    }
  }

  /** Stereo: left and right change places. */
  lemma SwapStereo(left: int, right: int)
    ensures SwapChannels(2, [left, right]) == [right, left]
  {
    MapOneFrame(2, SwapFrame, [left, right]);
  }

  /** With an odd channel count the middle channel stays where it is. */
  lemma SwapKeepsMiddle(frame: seq<int>)
    requires |frame| % 2 == 1
    ensures SwapFrame(frame)[|frame| / 2] == frame[|frame| / 2]
  {
  }
}
