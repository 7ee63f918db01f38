/** The Reverse effect: the audio data played backwards, frame by frame. A
    remainder block holding the last `(frames mod 512)` frames is reversed
    first; then whole buffers are read from the end of the data towards its
    start, each with its frames in reverse order. */
module Reverse {
  import opened Arith
  import opened Codec
  import opened Samples
  import opened Frames
  import opened Stream
  import opened Pipeline

  /** `(dataBytes / bytesPerSample / n) mod bufferSizeFrames`: the frames
      left over after the whole buffers. */
  function RemainderFrames(f: Format, n: nat, dataLength: nat): (r: nat)
    requires n > 0
    ensures r < BufferFrames
  {
    (dataLength / BytesPerSample(f) / n) % BufferFrames
  }

  /** Size in bytes of the remainder block. */
  function RemainderBytes(f: Format, n: nat, dataLength: nat): nat
    requires n > 0
  {
    RemainderFrames(f, n, dataLength) * FrameBytes(f, n)
  }

  /** The bytes at the start of the data that do not make a whole frame
      when frames are counted from its end. */
  function StrayBytes(dataLength: nat, frameBytes: nat): (s: nat)
    requires frameBytes > 0
    ensures s < frameBytes && s <= dataLength
    ensures (dataLength - s) % frameBytes == 0
  {
    RoundDownMultiple(dataLength, frameBytes);
    dataLength % frameBytes
  }

  /** The remainder block for frames of `w` bytes: the last
      `(d / w) mod 512` frames of the data. */
  function RemainderOf(d: nat, w: nat): nat
    requires w > 0
  {
    (d / w) % BufferFrames * w
  }

  /** The data of `[begin, end)` after its stray leading bytes: the frames
      the effect plays backwards. */
  function FramedData(file: seq<Byte>, w: nat, begin: nat, end: nat): (s: seq<Byte>)
    requires w > 0 && begin <= end
    ensures Framed(w, s) && |s| == end - begin - StrayBytes(end - begin, w)
  {
    var stray := StrayBytes(end - begin, w);
    ReadWindow(file, begin + stray, end - begin - stray)
  }

  /** For any frame width `w` the data splits into the stray bytes, whole
      buffers of `512 * w` bytes, and the remainder block. */
  lemma ScheduleSizes(d: nat, w: nat, rem: nat)
    requires w > 0 && rem == RemainderOf(d, w)
    ensures StrayBytes(d, w) < BufferFrames * w
    ensures rem % w == 0 && StrayBytes(d, w) + rem <= d
    ensures (d - StrayBytes(d, w) - rem) % (BufferFrames * w) == 0
  {
    BlockSplit(d, w, BufferFrames);
    MulAtLeast(BufferFrames, w);
    MulMod((d / w) % BufferFrames, w);
    MulMod((d / w) / BufferFrames, BufferFrames * w);
  }

  /** Dividing by the sample size and then by the channel count counts the
      frames: the remainder block is `(d / frameBytes) mod 512` frames. */
  lemma RemainderBytesWidth(f: Format, n: nat, dataLength: nat)
    requires n > 0
    ensures FrameBytes(f, n) > 0
    ensures RemainderBytes(f, n, dataLength) == RemainderOf(dataLength, FrameBytes(f, n))
  {
    var k := BytesPerSample(f);
    FrameBytesValue(f, n);
    DivDiv(dataLength, k, n);
    assert k * n == FrameBytes(f, n);
  }

  /** One block as the effect rewrites it: decode the samples, copy frame
      `F - 1 - j` of the input to frame `j` of the output, encode. */
  function ReverseBlock(f: Format, n: nat, b: seq<Byte>): (r: seq<Byte>)
    requires n > 0 && |b| % FrameBytes(f, n) == 0
  {
    FrameBytesValue(f, n);
    WholeFrames(|b|, n, BytesPerSample(f));
    Encode(f, ReverseFrames(n, Decode(f, b)))
  }

  /** Samples are copied unchanged, so reversing the frames of the samples
      reverses the frames of the bytes. */
  lemma ReverseBlockBytes(f: Format, n: nat, b: seq<Byte>)
    requires n > 0 && |b| % FrameBytes(f, n) == 0
    ensures Framed(FrameBytes(f, n), b)
    ensures ReverseBlock(f, n, b) == ReverseFrames(FrameBytes(f, n), b)
  {
    var k := BytesPerSample(f);
    FrameBytesValue(f, n);
    WholeFrames(|b|, n, k);
    EncodeReverseFrames(f, n, Decode(f, b));
    EncodeDecode(f, b);
  }

  /** The buffer transform of the main loop: a buffer of `bufferSizeBytes`
      bytes always holds whole frames and is rewritten by `ReverseBlock`; any
      other is left as it is. */
  function ReverseEffect(f: Format, n: nat): seq<Byte> -> seq<Byte>
  {
    b => if n > 0 && |b| % FrameBytes(f, n) == 0 then ReverseBlock(f, n, b) else b
  }

  /** `g` reverses the frames of width `w` of every buffer of `size` bytes. */
  ghost predicate ReversesBuffers(w: nat, size: nat, g: seq<Byte> -> seq<Byte>)
  {
    forall b: seq<Byte> {:trigger g(b)} :: |b| == size && Framed(w, b) ==> g(b) == ReverseFrames(w, b)
  }

  /** The Reverse buffer transform reverses the frames of every whole buffer. */
  lemma ReverseEffectReverses(f: Format, n: nat, size: nat)
    requires n > 0
    ensures ReversesBuffers(FrameBytes(f, n), size, ReverseEffect(f, n))
  {
    forall b: seq<Byte> | |b| == size && Framed(FrameBytes(f, n), b)
      ensures ReverseEffect(f, n)(b) == ReverseFrames(FrameBytes(f, n), b)
    {
      ReverseBlockBytes(f, n, b);
    }
  }

  /** The main loop: while the read cursor is at or after `begin`, read
      `size` bytes there (zeros past the end of the file), append their
      transform `g` to the scratch bytes and move the cursor back by `size`. */
  function BackwardLoop(file: seq<Byte>, pos: int, begin: nat, size: nat, g: seq<Byte> -> seq<Byte>): seq<Byte>
    requires size > 0
    decreases if pos < begin then 0 else pos - begin + 1
  {
    if pos < begin then []
    else g(ReadWindow(file, pos, size)) + BackwardLoop(file, pos - size, begin, size, g)
  }

  /** The remainder block `first`, then the main loop from `size` bytes
      below it, the remainder block being the last `rem` bytes of the data. */
  function BackwardRun(file: seq<Byte>, size: nat, begin: nat, end: nat, rem: nat,
                       first: seq<Byte>, g: seq<Byte> -> seq<Byte>): seq<Byte>
    requires size > 0 && rem <= end
  {
    first + BackwardLoop(file, end - rem - size, begin, size, g)
  }

  /** The scratch bytes of the effect on a file with data range
      `[begin, end)` and `n` channels: the remainder block read from
      `[end - remainder, end)` and reversed, then the main loop from
      `end - remainder - size`. */
  function ReverseScratch(file: seq<Byte>, f: Format, n: nat, begin: nat, end: nat): seq<Byte>
    requires n > 0 && begin <= end
  {
    var size := BufferFrames * FrameBytes(f, n);
    var rem := RemainderBytes(f, n, end - begin);
    RemainderBytesWidth(f, n, end - begin);
    ScheduleSizes(end - begin, FrameBytes(f, n), rem);
    BackwardRun(file, size, begin, end, rem, ReverseBlock(f, n, ReadWindow(file, end - rem, rem)), ReverseEffect(f, n))
  }

  /** One step of the backward walk. */
  lemma BackwardLoopUnfold(file: seq<Byte>, pos: int, begin: nat, size: nat, g: seq<Byte> -> seq<Byte>)
    requires size > 0 && pos >= begin
    ensures BackwardLoop(file, pos, begin, size, g) == g(ReadWindow(file, pos, size)) + BackwardLoop(file, pos - size, begin, size, g)
  {
  }

  /** The frame reversal of two pieces is the reversal of the second
      followed by the reversal of the first. */
  lemma ReverseJoin(w: nat, below: seq<Byte>, block: seq<Byte>, x: seq<Byte>, y: seq<Byte>)
    requires Framed(w, below) && Framed(w, block)
    requires x == ReverseFrames(w, block) && y == ReverseFrames(w, below)
    ensures Framed(w, below + block) && x + y == ReverseFrames(w, below + block)
  {
    ReverseFramesAppend(w, below, block);
  }

  /** Whole buffers are whole frames. */
  lemma BuffersHoldFrames(len: nat, size: nat, w: nat)
    requires w > 0 && size == BufferFrames * w && len % size == 0
    ensures len % w == 0
  {
    assert len == (len / size) * size;
    MultipleOfMultiple(len / size, BufferFrames, w);
  }

  /** One buffer read by the main loop is reversed frame by frame. */
  lemma BufferReversed(file: seq<Byte>, w: nat, size: nat, g: seq<Byte> -> seq<Byte>, pos: nat)
    requires w > 0 && size == BufferFrames * w && ReversesBuffers(w, size, g)
    ensures Framed(w, ReadWindow(file, pos, size))
    ensures g(ReadWindow(file, pos, size)) == ReverseFrames(w, ReadWindow(file, pos, size))
  {
    MulMod(BufferFrames, w);
  }

  /** The main loop started at `top`, one buffer below `start + len`, with
      `len` a multiple of the buffer size and `start` less than one buffer
      above `begin`, reverses the frames of the `len` bytes from `start`. */
  lemma {:induction false} BackwardLoopReverses(file: seq<Byte>, w: nat, size: nat, g: seq<Byte> -> seq<Byte>,
                                                start: nat, begin: nat, len: nat, top: int)
    requires w > 0 && size == BufferFrames * w && ReversesBuffers(w, size, g)
    requires begin <= start < begin + size && len % size == 0 && top == start + len - size
    ensures Framed(w, ReadWindow(file, start, len))
    ensures BackwardLoop(file, top, begin, size, g) == ReverseFrames(w, ReadWindow(file, start, len))
    decreases len
  {
    BuffersHoldFrames(len, size, w);
    if len > 0 {
      MultipleStep(len, size);
      var t := start + (len - size);
      var below, block := ReadWindow(file, start, len - size), ReadWindow(file, t, size);
      var rest := BackwardLoop(file, t - size, begin, size, g);
      BackwardLoopReverses(file, w, size, g, start, begin, len - size, t - size);
      BufferReversed(file, w, size, g, t);
      BackwardLoopUnfold(file, t, begin, size, g);
      ReadSplitTop(file, start, len, size);
      ReverseJoin(w, below, block, g(block), rest);
    }
  }

  /** The whole schedule for any frame width `w`: a reversed remainder block
      of `RemainderOf(d, w)` bytes at the end of the data, then the main loop
      from just below it, give the frame reversal of the data after its
      stray leading bytes. */
  lemma BackwardSchedule(file: seq<Byte>, w: nat, size: nat, g: seq<Byte> -> seq<Byte>,
                         begin: nat, end: nat, rem: nat, last: seq<Byte>)
    requires w > 0 && size == BufferFrames * w && ReversesBuffers(w, size, g)
    requires begin <= end && rem == RemainderOf(end - begin, w) && rem <= end - begin
    requires Framed(w, ReadWindow(file, end - rem, rem)) && last == ReverseFrames(w, ReadWindow(file, end - rem, rem))
    ensures BackwardRun(file, size, begin, end, rem, last, g) == ReverseFrames(w, FramedData(file, w, begin, end))
  {
    var d := end - begin;
    ScheduleSizes(d, w, rem);
    var stray := StrayBytes(d, w);
    var start := begin + stray;
    var whole := d - stray - rem;
    BackwardLoopReverses(file, w, size, g, start, begin, whole, end - rem - size);
    ScheduleJoin(file, w, begin, end, rem, last, BackwardLoop(file, end - rem - size, begin, size, g));
  }

  /** The reversed remainder block followed by the reversed whole buffers
      below it is the frame reversal of the data after its stray bytes. */
  lemma ScheduleJoin(file: seq<Byte>, w: nat, begin: nat, end: nat, rem: nat, last: seq<Byte>, loop: seq<Byte>)
    requires w > 0 && begin <= end && rem == RemainderOf(end - begin, w) && rem <= end - begin
    requires Framed(w, ReadWindow(file, end - rem, rem)) && last == ReverseFrames(w, ReadWindow(file, end - rem, rem))
    requires var stray := StrayBytes(end - begin, w);
      && stray + rem <= end - begin
      && Framed(w, ReadWindow(file, begin + stray, end - begin - stray - rem))
      && loop == ReverseFrames(w, ReadWindow(file, begin + stray, end - begin - stray - rem))
    ensures last + loop == ReverseFrames(w, FramedData(file, w, begin, end))
  {
    var d := end - begin;
    var stray := StrayBytes(d, w);
    var start, whole := begin + stray, d - stray - rem;
    assert start + whole == end - rem;
    var below, block := ReadWindow(file, start, whole), ReadWindow(file, end - rem, rem);
    ReadSplitTop(file, start, d - stray, rem);
    assert FramedData(file, w, begin, end) == below + block;
    ReverseJoin(w, below, block, last, loop);
  }

  /** The remainder block is whole frames of the data's end, and the
      effect reverses them. */
  lemma RemainderBlock(file: seq<Byte>, f: Format, n: nat, begin: nat, end: nat)
    requires n > 0 && begin <= end
    ensures var w, rem := FrameBytes(f, n), RemainderBytes(f, n, end - begin);
      && w > 0 && rem == RemainderOf(end - begin, w) && rem <= end - begin
      && Framed(w, ReadWindow(file, end - rem, rem))
      && ReverseBlock(f, n, ReadWindow(file, end - rem, rem)) == ReverseFrames(w, ReadWindow(file, end - rem, rem))
  {
    var w, rem := FrameBytes(f, n), RemainderBytes(f, n, end - begin);
    RemainderBytesWidth(f, n, end - begin);
    ScheduleSizes(end - begin, w, rem);
    ReverseBlockBytes(f, n, ReadWindow(file, end - rem, rem));
  }

  /** The scratch bytes are the frame reversal of the data after its stray
      leading bytes: those are dropped and the frames are counted from the
      end of the data. */
  lemma ReverseScratchIsReverse(file: seq<Byte>, f: Format, n: nat, begin: nat, end: nat)
    requires n > 0 && begin <= end
    ensures ReverseScratch(file, f, n, begin, end) == ReverseFrames(FrameBytes(f, n), FramedData(file, FrameBytes(f, n), begin, end))
  {
    var w, rem := FrameBytes(f, n), RemainderBytes(f, n, end - begin);
    RemainderBlock(file, f, n, begin, end);
    ReverseEffectReverses(f, n, BufferFrames * w);
    BackwardSchedule(file, w, BufferFrames * w, ReverseEffect(f, n), begin, end, rem,
                     ReverseBlock(f, n, ReadWindow(file, end - rem, rem)));
  }

  /** For data of whole frames the scratch bytes are the frame reversal of
      the whole data range, and as long as it. */
  lemma ReverseAligned(file: seq<Byte>, f: Format, n: nat, begin: nat, end: nat)
    requires n > 0 && begin <= end && StrayBytes(end - begin, FrameBytes(f, n)) == 0
    ensures Framed(FrameBytes(f, n), ReadWindow(file, begin, end - begin))
    ensures ReverseScratch(file, f, n, begin, end) == ReverseFrames(FrameBytes(f, n), ReadWindow(file, begin, end - begin))
    ensures |ReverseScratch(file, f, n, begin, end)| == end - begin
  {
    ReverseScratchIsReverse(file, f, n, begin, end);
  }

  /** Reversing the frames of the scratch bytes of aligned data once more
      gives the data back. */
  lemma ReverseAlignedTwice(file: seq<Byte>, f: Format, n: nat, begin: nat, end: nat)
    requires n > 0 && begin <= end && StrayBytes(end - begin, FrameBytes(f, n)) == 0
    ensures Framed(FrameBytes(f, n), ReverseScratch(file, f, n, begin, end))
    ensures ReverseFrames(FrameBytes(f, n), ReverseScratch(file, f, n, begin, end)) == ReadWindow(file, begin, end - begin)
  {
    ReverseAligned(file, f, n, begin, end);
    ReverseFramesTwice(FrameBytes(f, n), ReadWindow(file, begin, end - begin));
  }
}
