/** Interleaved audio: a sequence cut into frames of `w` consecutive items
    (one item per channel, or one byte per byte of a frame). */
module Frames {
  import opened Arith

  /** The items of `s` in the opposite order. */
  function Reverse<T>(s: seq<T>): (r: seq<T>)
    ensures |r| == |s|
    ensures forall i :: 0 <= i < |s| ==> r[i] == s[|s| - 1 - i]
  {
    if |s| == 0 then [] else Reverse(s[1..]) + [s[0]]
  }

  /** Reversing twice gives the sequence back. */
  lemma ReverseTwice<T>(s: seq<T>)
    ensures Reverse(Reverse(s)) == s
  {
  }

  /** Reversal keeps the same elements. */
  lemma ReverseMultiset<T>(s: seq<T>)
    ensures multiset(Reverse(s)) == multiset(s)
  {
    if |s| > 0 {
      ReverseMultiset(s[1..]);
      assert s == [s[0]] + s[1..];
    }
  }

  /** `s` holds a whole number of frames of width `w`. */
  predicate Framed<T>(w: nat, s: seq<T>)
  {
    w > 0 && |s| % w == 0
  }

  /** The first frame comes off the front and leaves whole frames behind. */
  lemma FrameTail<T>(w: nat, s: seq<T>)
    requires Framed(w, s) && |s| > 0
    ensures |s| >= w && Framed(w, s[w..])
  {
    MultipleStep(|s|, w);
  }

  /** Whole frames followed by whole frames are whole frames. */
  lemma FramedAppend<T>(w: nat, a: seq<T>, b: seq<T>)
    requires Framed(w, a) && Framed(w, b)
    ensures Framed(w, a + b)
  {
    MultipleAdd(|a|, |b|, w);
  }

  /** The frames of `s` in the opposite order, each frame kept intact. */
  function ReverseFrames<T>(w: nat, s: seq<T>): (r: seq<T>)
    requires Framed(w, s)
    ensures |r| == |s|
    decreases |s|
  {
    if |s| == 0 then []
    else
      FrameTail(w, s);
      ReverseFrames(w, s[w..]) + s[..w]
  }

  /** Reversing the frames of two pieces reverses the order of the pieces. */
  lemma {:induction false} ReverseFramesAppend<T>(w: nat, a: seq<T>, b: seq<T>)
    requires Framed(w, a) && Framed(w, b)
    ensures Framed(w, a + b)
    ensures ReverseFrames(w, a + b) == ReverseFrames(w, b) + ReverseFrames(w, a)
    decreases |a|
  {
    FramedAppend(w, a, b);
    if |a| > 0 {
      FrameTail(w, a);
      assert (a + b)[w..] == a[w..] + b;
      assert (a + b)[..w] == a[..w];
      ReverseFramesAppend(w, a[w..], b);
    } else {
      assert a + b == b;
    }
  }

  /** A single frame is its own frame reversal. */
  lemma ReverseOneFrame<T>(w: nat, s: seq<T>)
    requires w > 0 && |s| == w
    ensures Framed(w, s) && ReverseFrames(w, s) == s
  {
    assert s[w..] == [];
  }

  /** Reversing the frames twice gives the original sequence back. */
  lemma {:induction false} ReverseFramesTwice<T>(w: nat, s: seq<T>)
    requires Framed(w, s)
    ensures Framed(w, ReverseFrames(w, s))
    ensures ReverseFrames(w, ReverseFrames(w, s)) == s
    decreases |s|
  {
    if |s| > 0 {
      FrameTail(w, s);
      var rest := s[w..];
      ReverseFramesTwice(w, rest);
      ReverseOneFrame(w, s[..w]);
      ReverseFramesAppend(w, ReverseFrames(w, rest), s[..w]);
      assert s == s[..w] + rest;
    }
  }

  /** Item `c` of frame `f` of the result is item `c` of frame `F - 1 - f`
      of the input, where `F` is the number of frames. */
  lemma {:induction false} ReverseFramesIndex<T>(w: nat, s: seq<T>, f: int, c: int)
    requires Framed(w, s) && 0 <= f < |s| / w && 0 <= c < w
    ensures 0 <= f * w + c < |s|
    ensures 0 <= (|s| / w - 1 - f) * w + c < |s|
    ensures ReverseFrames(w, s)[f * w + c] == s[(|s| / w - 1 - f) * w + c]
    decreases |s|
  {
    var count := |s| / w;
    FrameBound(f, c, w, count);
    FrameBound(count - 1 - f, c, w, count);
    assert |s| == count * w;
    FrameTail(w, s);
    var rest := s[w..];
    assert |rest| == (count - 1) * w;
    MulMod(count - 1, w);
    if f < count - 1 {
      ReverseFramesIndex(w, rest, f, c);
      FrameBound(f, c, w, count - 1);
      assert (count - 1 - 1 - f) * w + c + w == (count - 1 - f) * w + c;
    } else {
      assert f * w + c == (count - 1) * w + c;
    }
  }

  /** `g` applied to each frame of `s`, the results joined in order: what an
      effect does when it rewrites a buffer frame by frame. */
  function MapFrames<T>(w: nat, g: seq<T> -> seq<T>, s: seq<T>): seq<T>
    requires Framed(w, s)
    decreases |s|
  {
    if |s| == 0 then []
    else
      FrameTail(w, s);
      g(s[..w]) + MapFrames(w, g, s[w..])
  }

  /** `g` turns every frame of width `w` into a frame of width `w`. */
  ghost predicate KeepsWidth<T(!new)>(w: nat, g: seq<T> -> seq<T>)
  {
    forall x: seq<T> :: |x| == w ==> |g(x)| == w
  }

  /** A width-keeping rewrite keeps the length of the block. */
  lemma {:induction false} MapFramesLength<T(!new)>(w: nat, g: seq<T> -> seq<T>, s: seq<T>)
    requires Framed(w, s) && KeepsWidth(w, g)
    ensures |MapFrames(w, g, s)| == |s|
    decreases |s|
  {
    if |s| > 0 {
      FrameTail(w, s);
      MapFramesLength(w, g, s[w..]);
    }
  }

  /** Frames are rewritten independently: mapping two runs of whole frames
      maps each. */
  lemma {:induction false} MapFramesAppend<T>(w: nat, g: seq<T> -> seq<T>, a: seq<T>, b: seq<T>)
    requires Framed(w, a) && Framed(w, b)
    ensures Framed(w, a + b)
    ensures MapFrames(w, g, a + b) == MapFrames(w, g, a) + MapFrames(w, g, b)
    decreases |a|
  {
    FramedAppend(w, a, b);
    if |a| > 0 {
      FrameTail(w, a);
      assert (a + b)[..w] == a[..w];
      assert (a + b)[w..] == a[w..] + b;
      MapFramesAppend(w, g, a[w..], b);
    } else {
      assert a + b == b;
    }
  }

  /** A single frame is mapped to `g` of itself. */
  lemma MapOneFrame<T>(w: nat, g: seq<T> -> seq<T>, s: seq<T>)
    requires w > 0 && |s| == w
    ensures Framed(w, s) && MapFrames(w, g, s) == g(s)
  {
    assert s[..w] == s && s[w..] == [];
  }

  /** Item `c` of frame `k` of the result is item `c` of `g` applied to frame
      `k` of the input. */
  lemma MapFramesIndex<T(!new)>(w: nat, g: seq<T> -> seq<T>, s: seq<T>, k: nat, c: nat)
    requires Framed(w, s) && KeepsWidth(w, g) && k * w + w <= |s| && c < w
    ensures k * w + c < |MapFrames(w, g, s)|
    ensures MapFrames(w, g, s)[k * w + c] == g(s[k * w..k * w + w])[c]
  {
    var count := |s| / w;
    assert |s| == count * w;
    var i := k * w;
    var before, frame, after := s[..i], s[i..i + w], s[i + w..];
    MulMod(k, w);
    assert |after| == (count - k - 1) * w;
    MulMod(count - k - 1, w);
    assert s == before + frame + after;
    MapFramesLength(w, g, before);
    MapOneFrame(w, g, frame);
    assert MapFrames(w, g, s) == MapFrames(w, g, before) + g(frame) + MapFrames(w, g, after) by {
      MapFramesAppend(w, g, before, frame);
      FramedAppend(w, before, frame);
      MapFramesAppend(w, g, before + frame, after);
    }
  }

  /** `g` undoes itself on frames of width `w`. */
  ghost predicate Involutive<T(!new)>(w: nat, g: seq<T> -> seq<T>)
  {
    forall x: seq<T> :: |x| == w ==> g(g(x)) == x
  }

  /** `g` only rearranges the items of a frame of width `w`. */
  ghost predicate KeepsItems<T(!new)>(w: nat, g: seq<T> -> seq<T>)
  {
    forall x: seq<T> :: |x| == w ==> multiset(g(x)) == multiset(x)
  }

  /** The first frame of a map is `g` of the first frame. */
  lemma MapFramesHead<T(!new)>(w: nat, g: seq<T> -> seq<T>, s: seq<T>)
    requires Framed(w, s) && |s| > 0 && KeepsWidth(w, g)
    ensures |s| >= w && Framed(w, s[w..])
    ensures var m := MapFrames(w, g, s); |m| >= w && m[..w] == g(s[..w]) && m[w..] == MapFrames(w, g, s[w..])
  {
    FrameTail(w, s);
  }

  /** Mapping an involution twice gives the input back. */
  lemma {:induction false} MapFramesTwice<T(!new)>(w: nat, g: seq<T> -> seq<T>, s: seq<T>)
    requires Framed(w, s) && KeepsWidth(w, g) && Involutive(w, g)
    ensures Framed(w, MapFrames(w, g, s))
    ensures MapFrames(w, g, MapFrames(w, g, s)) == s
    decreases |s|
  {
    var m := MapFrames(w, g, s);
    MapFramesLength(w, g, s);
    if |s| > 0 {
      MapFramesHead(w, g, s);
      MapFramesHead(w, g, m);
      MapFramesTwice(w, g, s[w..]);
      assert s == s[..w] + s[w..];
    }
  }

  /** A map whose frames only rearrange their items rearranges the whole. */
  lemma {:induction false} MapFramesMultiset<T(!new)>(w: nat, g: seq<T> -> seq<T>, s: seq<T>)
    requires Framed(w, s) && KeepsItems(w, g)
    ensures multiset(MapFrames(w, g, s)) == multiset(s)
    decreases |s|
  {
    if |s| > 0 {
      FrameTail(w, s);
      MapFramesMultiset(w, g, s[w..]);
      assert s == s[..w] + s[w..];
    }
  }
}
