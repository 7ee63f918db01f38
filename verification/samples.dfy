/** PCM sample formats and the conversion between a block of bytes and the
    signed samples it holds, as every effect loop does before and after its
    per-frame work. */
module Samples {
  import opened Arith
  import opened Codec
  import opened Frames

  /** The two encodings the effects accept: signed 16-bit and signed 24-bit
      little-endian integers. */
  datatype Format = I16 | I24

  function BytesPerSample(f: Format): (k: nat)
    ensures k == 2 || k == 3
  {
    match f
    case I16 => 2
    case I24 => 3
  }

  function BitDepth(f: Format): (d: nat)
    ensures d == 8 * BytesPerSample(f)
  {
    match f
    case I16 => 16
    case I24 => 24
  }

  /** A bit depth fits the 16-bit field of the header. */
  lemma BitDepthFits(f: Format)
    ensures BitDepth(f) % 0x1_0000 == BitDepth(f)
  {
  }

  function MinSample(f: Format): int
  {
    match f
    case I16 => -0x8000
    case I24 => -0x80_0000
  }

  function MaxSample(f: Format): int
  {
    match f
    case I16 => 0x7fff
    case I24 => 0x7f_ffff
  }

  predicate InRange(f: Format, v: int)
  {
    MinSample(f) <= v <= MaxSample(f)
  }

  predicate AllInRange(f: Format, xs: seq<int>)
  {
    forall i :: 0 <= i < |xs| ==> InRange(f, xs[i])
  }

  /** The sample stored in the first bytes of `b`. */
  function FirstSample(f: Format, b: seq<Byte>): (v: int)
    requires |b| >= BytesPerSample(f)
    ensures InRange(f, v)
  {
    match f
    case I16 => I16At(b, 0)
    case I24 => I24At(b, 0)
  }

  /** The bytes a writer stores for sample `v`: its low 16 or 24 bits. */
  function SampleBytes(f: Format, v: int): (r: seq<Byte>)
    ensures |r| == BytesPerSample(f)
  {
    LeBytes(v, BytesPerSample(f))
  }

  /** A sample in range reads back from its bytes. */
  lemma SampleRoundTrip(f: Format, v: int)
    requires InRange(f, v)
    ensures FirstSample(f, SampleBytes(f, v)) == v
  {
    match f
    case I16 => I16RoundTrip(v);
    case I24 => I24RoundTrip(v);
  }

  /** Writing a sample read from bytes gives those bytes back. */
  lemma SampleRewrite(f: Format, b: seq<Byte>)
    requires |b| >= BytesPerSample(f)
    ensures SampleBytes(f, FirstSample(f, b)) == b[..BytesPerSample(f)]
  {
    match f
    case I16 => I16Rewrite(b, 0);
    case I24 => I24Rewrite(b, 0);
  }

  /** The samples of a block, in order; bytes after the last whole sample are ignored. */
  function Decode(f: Format, b: seq<Byte>): (xs: seq<int>)
    ensures |xs| == |b| / BytesPerSample(f)
    ensures AllInRange(f, xs)
    decreases |b|
  {
    var k := BytesPerSample(f);
    if |b| < k then []
    else
      ModAddMultiple(|b| - k, 1, k);
      [FirstSample(f, b)] + Decode(f, b[k..])
  }

  /** The bytes of a sequence of samples, each written with its low bits. */
  function Encode(f: Format, xs: seq<int>): (b: seq<Byte>)
    ensures |b| == |xs| * BytesPerSample(f)
  {
    if |xs| == 0 then [] else SampleBytes(f, xs[0]) + Encode(f, xs[1..])
  }

  /** Encoding then decoding in-range samples gives the same samples. */
  lemma {:induction false} DecodeEncode(f: Format, xs: seq<int>)
    requires AllInRange(f, xs)
    ensures Decode(f, Encode(f, xs)) == xs
  {
    if |xs| > 0 {
      var k := BytesPerSample(f);
      var b := Encode(f, xs);
      SampleRoundTrip(f, xs[0]);
      assert b[..k] == SampleBytes(f, xs[0]);
      assert b[k..] == Encode(f, xs[1..]);
      assert FirstSample(f, b) == FirstSample(f, b[..k]) by {
        match f
        case I16 => assert b[..k][0..2] == b[0..2];
        case I24 => assert b[..k][0..3] == b[0..3];
      }
      DecodeEncode(f, xs[1..]);
    }
  }

  /** Decoding then encoding a whole number of samples gives the same bytes. */
  lemma {:induction false} EncodeDecode(f: Format, b: seq<Byte>)
    requires |b| % BytesPerSample(f) == 0
    ensures Encode(f, Decode(f, b)) == b
    decreases |b|
  {
    var k := BytesPerSample(f);
    if |b| > 0 {
      MultipleStep(|b|, k);
      SampleRewrite(f, b);
      EncodeDecode(f, b[k..]);
      assert b == b[..k] + b[k..];
    }
  }

  /** Encoding distributes over concatenation. */
  lemma {:induction false} EncodeAppend(f: Format, xs: seq<int>, ys: seq<int>)
    ensures Encode(f, xs + ys) == Encode(f, xs) + Encode(f, ys)
  {
    if |xs| > 0 {
      assert (xs + ys)[1..] == xs[1..] + ys;
      EncodeAppend(f, xs[1..], ys);
    } else {
      assert xs + ys == ys;
    }
  }

  /** A block of at least one sample decodes to its first sample, then the rest. */
  lemma DecodeHead(f: Format, b: seq<Byte>)
    requires |b| >= BytesPerSample(f)
    ensures Decode(f, b) == [FirstSample(f, b)] + Decode(f, b[BytesPerSample(f)..])
  {
  }

  /** The first sample of `a + b` is the first sample of `a` when `a` holds one. */
  lemma DecodeFront(f: Format, a: seq<Byte>, b: seq<Byte>)
    requires |a| >= BytesPerSample(f)
    ensures Decode(f, a + b) == [FirstSample(f, a)] + Decode(f, a[BytesPerSample(f)..] + b)
  {
    var k := BytesPerSample(f);
    DecodeHead(f, a + b);
    assert (a + b)[k..] == a[k..] + b;
    assert FirstSample(f, a + b) == FirstSample(f, a) by {
      match f
      case I16 => assert (a + b)[0..2] == a[0..2];
      case I24 => assert (a + b)[0..3] == a[0..3];
    }
  }

  /** Decoding distributes over concatenation at a sample boundary. */
  lemma {:induction false} DecodeAppend(f: Format, a: seq<Byte>, b: seq<Byte>)
    requires |a| % BytesPerSample(f) == 0
    ensures Decode(f, a + b) == Decode(f, a) + Decode(f, b)
    decreases |a|
  {
    var k := BytesPerSample(f);
    if |a| > 0 {
      MultipleStep(|a|, k);
      DecodeHead(f, a);
      DecodeFront(f, a, b);
      DecodeAppend(f, a[k..], b);
      var h, x, y := [FirstSample(f, a)], Decode(f, a[k..]), Decode(f, b);
      assert h + (x + y) == (h + x) + y;
    } else {
      assert a + b == b;
    }
  }

  /** Samples copied between frames are copied byte for byte: writing the
      frame-reversed samples is reversing the frames of the written bytes. */
  lemma {:induction false} EncodeReverseFrames(f: Format, n: nat, xs: seq<int>)
    requires Framed(n, xs)
    ensures Framed(n * BytesPerSample(f), Encode(f, xs))
    ensures Encode(f, ReverseFrames(n, xs)) == ReverseFrames(n * BytesPerSample(f), Encode(f, xs))
    decreases |xs|
  {
    var k := BytesPerSample(f);
    MultipleScale(|xs|, n, k);
    if |xs| > 0 {
      FrameTail(n, xs);
      var head, rest := xs[..n], xs[n..];
      assert xs == head + rest;
      EncodeAppend(f, head, rest);
      EncodeReverseFrames(f, n, rest);
      EncodeAppend(f, ReverseFrames(n, rest), head);
      assert |Encode(f, head)| == 1 * (n * k);
      MultipleOfProduct(1, n, k);
      ReverseFramesAppend(n * k, Encode(f, head), Encode(f, rest));
      ReverseOneFrame(n * k, Encode(f, head));
    }
  }
}
