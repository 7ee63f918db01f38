/** The buffered file loops the effects share: the buffer sizes fixed at
    initialisation, the forward read-transform-append loop of every effect
    but Reverse, and the copy of the scratch bytes behind the output header. */
module Pipeline {
  import opened Arith
  import opened JavaInt
  import opened Codec
  import opened Samples
  import opened Frames
  import opened Stream

  /** Frames per buffer, the default every effect object is built with. */
  const BufferFrames: nat := 512

  /** Size in bytes of one frame of `n` channels: one sample per channel.
      Counted channel by channel, so that the product only appears where
      `FrameBytesValue` is called. */
  function FrameBytes(f: Format, n: nat): (w: nat)
    ensures 2 * n <= w <= 3 * n
  {
    if n == 0 then 0 else BytesPerSample(f) + FrameBytes(f, n - 1)
  }

  lemma {:induction false} FrameBytesValue(f: Format, n: nat)
    ensures FrameBytes(f, n) == n * BytesPerSample(f)
  {
    if n > 0 {
      FrameBytesValue(f, n - 1);
    }
  }

  /** `bufferSizeSamples = bufferSizeFrames * nChannels`, in `int` arithmetic. */
  function BufferSamples(nChannels: int): int
  {
    Wrap(BufferFrames * nChannels)
  }

  /** `bufferSizeBytes = bufferSizeSamples * bitDepth / 8`, in `int` arithmetic. */
  function BufferBytes(f: Format, nChannels: int): int
  {
    Div(Wrap(BufferSamples(nChannels) * BitDepth(f)), 8)
  }

  /** For every channel count a header can declare, no intermediate leaves
      the `int` range: a buffer holds 512 whole frames. */
  lemma BufferSizesExact(f: Format, n: nat)
    requires n < 0x1_0000
    ensures BufferSamples(n) == BufferFrames * n
    ensures BufferBytes(f, n) == BufferFrames * FrameBytes(f, n)
  {
    var k := BytesPerSample(f);
    FrameBytesValue(f, n);
    assert BufferFrames * FrameBytes(f, n) == BufferFrames * n * k;
    assert IsInt(BufferFrames * n);
    assert BufferFrames * n * BitDepth(f) == (BufferFrames * n * k) * 8;
    assert IsInt(BufferFrames * n * BitDepth(f));
    MulMod(BufferFrames * n * k, 8);
  }

  /** Number of buffers the forward loop reads from `pos` before it reaches `end`. */
  function BlockCount(pos: nat, end: nat, size: nat): (count: nat)
    requires size > 0
    ensures pos < end ==> count >= 1 && pos + count * size >= end && pos + (count - 1) * size < end
    ensures pos >= end ==> count == 0
  {
    if pos >= end then 0 else CeilDiv(end - pos, size)
  }

  /** One more block read leaves one block fewer to go. */
  lemma BlockCountStep(pos: nat, end: nat, size: nat)
    requires size > 0 && pos < end
    ensures BlockCount(pos + size, end, size) == BlockCount(pos, end, size) - 1
  {
    var x := end - pos;
    ModAddMultiple(x - 1, 1, size);
    if x > size {
      ModAddMultiple(x - size - 1, 1, size);
    } else {
      DivModUnique(x - 1, size, 0, x - 1);
    }
  }

  /** The forward loop of the bit-crush, channel-subtract and channel-swap
      effects: while the read cursor is before `end`, read `size` bytes there
      (zeros past the end of the file), append their transform `g` to the
      scratch bytes and advance the cursor by `size`. */
  function ForwardLoop(file: seq<Byte>, pos: nat, end: nat, size: nat, g: seq<Byte> -> seq<Byte>): seq<Byte>
    requires size > 0
    decreases if pos >= end then 0 else end - pos
  {
    if pos >= end then [] else g(ReadWindow(file, pos, size)) + ForwardLoop(file, pos + size, end, size, g)
  }

  /** The loop reads the data rounded up to whole buffers: its scratch bytes
      are `g` mapped over the buffers of that zero-padded window. */
  lemma {:induction false} ForwardIsMap(file: seq<Byte>, pos: nat, end: nat, size: nat, g: seq<Byte> -> seq<Byte>)
    requires size > 0
    ensures Framed(size, ReadWindow(file, pos, BlockCount(pos, end, size) * size))
    ensures ForwardLoop(file, pos, end, size, g) == MapFrames(size, g, ReadWindow(file, pos, BlockCount(pos, end, size) * size))
    decreases if pos >= end then 0 else end - pos
  {
    var count := BlockCount(pos, end, size);
    var window := ReadWindow(file, pos, count * size);
    MulMod(count, size);
    if pos < end {
      BlockCountStep(pos, end, size);
      ForwardIsMap(file, pos + size, end, size, g);
      var restLength := (count - 1) * size;
      var first, rest := ReadWindow(file, pos, size), ReadWindow(file, pos + size, restLength);
      MulSplit(1, count - 1, size);
      ReadSplit(file, pos, size, restLength);
      assert window == first + rest;
      assert window[..size] == first && window[size..] == rest;
    }
  }

  /** With a transform that keeps the buffer size, the scratch bytes fill
      whole buffers: `ceil((end - pos) / size) * size` of them. */
  lemma ForwardLength(file: seq<Byte>, pos: nat, end: nat, size: nat, g: seq<Byte> -> seq<Byte>)
    requires size > 0 && KeepsWidth(size, g)
    ensures |ForwardLoop(file, pos, end, size, g)| == BlockCount(pos, end, size) * size
  {
    ForwardIsMap(file, pos, end, size, g);
    MapFramesLength(size, g, ReadWindow(file, pos, BlockCount(pos, end, size) * size));
  }

  /** One buffer of an effect that rewrites samples frame by frame: decode
      the samples, apply `h` to every frame of `w` samples, encode them again.
      A buffer of `bufferSizeBytes` bytes always holds whole frames; any other
      is left as it is. */
  function FrameEffect(f: Format, w: nat, h: seq<int> -> seq<int>): seq<Byte> -> seq<Byte>
  {
    b => if Framed(w, Decode(f, b)) then Encode(f, MapFrames(w, h, Decode(f, b))) else b
  }

  /** A buffer size that is a multiple of the frame size in bytes holds whole
      samples and whole frames. */
  lemma WholeFrames(size: nat, w: nat, k: nat)
    requires w > 0 && k > 0 && size % (k * w) == 0
    ensures size % k == 0 && (size / k) % w == 0
  {
    DivDiv(size, k, w);
  }

  /** Buffer boundaries do not matter to a frame-by-frame effect: mapping
      `FrameEffect` over whole buffers is applying `h` to every frame of the
      samples of the whole window. */
  lemma {:induction false} BlockwiseEffect(f: Format, w: nat, h: seq<int> -> seq<int>, size: nat, s: seq<Byte>)
    requires w > 0 && KeepsWidth(w, h)
    requires size > 0 && size % (BytesPerSample(f) * w) == 0 && Framed(size, s)
    ensures Framed(w, Decode(f, s))
    ensures MapFrames(size, FrameEffect(f, w, h), s) == Encode(f, MapFrames(w, h, Decode(f, s)))
    decreases |s|
  {
    if |s| == 0 {
      assert Decode(f, s) == [];
    } else {
      FrameTail(size, s);
      var x, y := s[..size], s[size..];
      assert s == x + y;
      EffectOnBuffer(f, w, h, size, x);
      BlockwiseEffect(f, w, h, size, y);
      var dx, dy := Decode(f, x), Decode(f, y);
      DecodeAppend(f, x, y);
      MapFramesAppend(w, h, dx, dy);
      EncodeAppend(f, MapFrames(w, h, dx), MapFrames(w, h, dy));
    }
  }

  /** A whole buffer holds whole frames, each rewritten by `h`. */
  lemma EffectOnBuffer(f: Format, w: nat, h: seq<int> -> seq<int>, size: nat, x: seq<Byte>)
    requires w > 0 && size > 0 && size % (BytesPerSample(f) * w) == 0 && |x| == size
    ensures |x| % BytesPerSample(f) == 0 && Framed(w, Decode(f, x))
    ensures FrameEffect(f, w, h)(x) == Encode(f, MapFrames(w, h, Decode(f, x)))
  {
    WholeFrames(size, w, BytesPerSample(f));
  }

  /** The scratch bytes padded with zeros to whole buffers. */
  function Padded(temp: seq<Byte>, size: nat): (p: seq<Byte>)
    requires size > 0
    ensures |p| == CeilDiv(|temp|, size) * size && |p| < |temp| + size
    ensures p[..|temp|] == temp
    ensures forall j :: |temp| <= j < |p| ==> p[j] == 0
  {
    ReadWindow(temp, 0, CeilDiv(|temp|, size) * size)
  }

  /** The copy loop behind the output header: while the scratch cursor is
      before the end of the scratch file, read `size` bytes there (zeros past
      its end) and append them to the output. */
  method CopyBlocks(temp: seq<Byte>, size: nat) returns (out: seq<Byte>)
    requires size > 0
    ensures out == Padded(temp, size)
  {
    var count := CeilDiv(|temp|, size);
    out := [];
    var pos := 0;
    var i := 0;
    while pos < |temp|
      invariant pos == i * size && i <= count
      invariant out == ReadWindow(temp, 0, pos)
      decreases |temp| - pos
    {
      CeilDivAbove(|temp|, size, i);
      var buffer := ReadWindow(temp, pos, size);
      ReadSplit(temp, 0, pos, size);
      out := out + buffer;
      MulSplit(i, 1, size);
      pos := pos + size;
      i := i + 1;
    }
    CeilDivLeast(|temp|, size, i);
  }
}
