/** One run of an effect from an input file to an output file: the header
    reader of `initialize`, the buffer sizing, the effect's own guard, its
    scratch loop and the output writer of `rawToWavProc`. */
module Runs {
  import opened Arith
  import opened JavaInt
  import opened Codec
  import opened Samples
  import opened Frames
  import opened Stream
  import opened WavHeader
  import opened WavWriter
  import opened HeaderRoundTrip
  import opened Pipeline
  import opened BitCrush
  import opened ChannelSubtract
  import opened ChannelSwap
  import opened Reverse

  /** The four effects; the bit-crush carries the mask its object holds. */
  datatype Effect = BitCrushing(mask: int) | ChannelSubtracting | ChannelSwapping | Reversing

  /** How a run ends. `Written` holds the bytes of the output file.
      `HeaderFailed` is an `initialize` that does not succeed.
      `TooFewChannels` is the refusal of channel subtract and channel swap on
      a file with fewer than two channels. `NeverEnds` is a forward loop whose
      buffer holds no bytes, so that its cursor never moves. `DivisionByZero`
      is the remainder sizing of Reverse dividing by a channel count of zero. */
  datatype Outcome =
    | Written(output: seq<Byte>)
    | HeaderFailed(error: ParseError)
    | TooFewChannels
    | NeverEnds
    | DivisionByZero

  /** The effects that run the forward loop. */
  predicate Forward(e: Effect)
  {
    !e.Reversing?
  }

  /** The effects that need two channels or more. */
  predicate NeedsStereo(e: Effect)
  {
    e.ChannelSubtracting? || e.ChannelSwapping?
  }

  /** The samples a forward effect rewrites together: one sample for the
      bit-crush, one frame of `n` channels for the others. */
  function FrameWidth(e: Effect, n: nat): nat
  {
    if e.BitCrushing? then 1 else n
  }

  /** What a forward effect does to one group of `FrameWidth` samples. */
  function FrameRewrite(e: Effect, f: Format): seq<int> -> seq<int>
    requires Forward(e)
  {
    match e
    case BitCrushing(mask) => CrushEffect(mask)
    case ChannelSubtracting => SubtractEffect(f)
    case ChannelSwapping => SwapFrame
  }

  /** What a forward effect does to one buffer it has read. */
  function BufferEffect(e: Effect, f: Format, n: nat): seq<Byte> -> seq<Byte>
    requires Forward(e)
  {
    FrameEffect(f, FrameWidth(e, n), FrameRewrite(e, f))
  }

  /** The scratch bytes of an effect whose buffers hold `size` bytes. */
  function Scratch(file: seq<Byte>, e: Effect, info: WavInfo, size: nat): seq<Byte>
    requires size > 0 && info.dataBegin <= info.dataEnd && (e.Reversing? ==> info.nChannels > 0)
  {
    if e.Reversing? then ReverseScratch(file, info.format, info.nChannels, info.dataBegin, info.dataEnd)
    else ForwardLoop(file, info.dataBegin, info.dataEnd, size, BufferEffect(e, info.format, info.nChannels))
  }

  /** The output file: the header for `temp`, then `temp` copied in whole
      buffers of `size` bytes. */
  function Output(info: WavInfo, temp: seq<Byte>, size: nat): (out: seq<Byte>)
    requires size > 0
    ensures |out| == HeaderSize + CeilDiv(|temp|, size) * size
    ensures out[..HeaderSize] == WriteHeader(info, |temp|)
    ensures out[HeaderSize..HeaderSize + |temp|] == temp
  {
    WriteHeader(info, |temp|) + Padded(temp, size)
  }

  /** What `initialize` guarantees about the parameters it records: a
      16-bit channel count, an `int` sample rate and a data range that does
      not run backwards. */
  predicate Readable(info: WavInfo)
  {
    info.nChannels < 0x1_0000 && IsInt(info.sampleRate) && info.dataBegin <= info.dataEnd
  }

  /** A whole run: the header read of `initialize`, then the rest. */
  function Run(file: seq<Byte>, e: Effect): (o: Outcome)
    ensures o.HeaderFailed? <==> ParseHeader(file).Failed?
    ensures ParseHeader(file).Failed? ==> o == HeaderFailed(ParseHeader(file).error)
  {
    match ParseHeader(file)
    case Failed(error) => HeaderFailed(error)
    case Parsed(info) => Process(file, e, info)
  }

  /** A run after a successful `initialize`: the channel guard of the
      effect, the buffer size, the scratch loop and the output writer. A file
      with no channels gets buffers of zero bytes: the forward loop then
      never moves unless there is no data, and Reverse divides by zero. */
  function Process(file: seq<Byte>, e: Effect, info: WavInfo): (o: Outcome)
    requires Readable(info)
    ensures !o.HeaderFailed?
    ensures o.Written? ==> |o.output| >= HeaderSize
    ensures o.Written? ==> exists t: nat {:trigger WriteHeader(info, t)} ::
      HeaderSize + t <= |o.output| && o.output[..HeaderSize] == WriteHeader(info, t)
  {
    var f, n := info.format, info.nChannels;
    if NeedsStereo(e) && n < 2 then TooFewChannels
    else if e.Reversing? && n == 0 then DivisionByZero
    else
      BufferSizesExact(f, n);
      var size: nat := BufferBytes(f, n);
      if size == 0 then
        if info.dataBegin < info.dataEnd then NeverEnds else Written(WriteHeader(info, 0))
      else Written(Output(info, Scratch(file, e, info, size), size))
  }

  /** Every header the reader accepts is `Readable`. */
  lemma ParsedReadable(file: seq<Byte>)
    ensures ParseHeader(file).Parsed? ==> Readable(ParseHeader(file).info)
  {
  }

  /** The buffer size is zero exactly when there are no channels. */
  lemma BufferBytesZero(f: Format, n: nat)
    requires n < 0x1_0000
    ensures BufferBytes(f, n) == BufferFrames * FrameBytes(f, n)
    ensures BufferBytes(f, n) == 0 <==> n == 0
  {
    BufferSizesExact(f, n);
  }

  /** The outcome of every run past `initialize` that does not produce an
      output: the two-channel guard, the division by zero of Reverse and the
      endless forward loop; every other run writes its output. */
  lemma ProcessRefusals(file: seq<Byte>, e: Effect, info: WavInfo)
    requires Readable(info)
    ensures Process(file, e, info) == TooFewChannels <==> NeedsStereo(e) && info.nChannels < 2
    ensures Process(file, e, info) == DivisionByZero <==> e.Reversing? && info.nChannels == 0
    ensures Process(file, e, info) == NeverEnds <==> e.BitCrushing? && info.nChannels == 0 && info.dataBegin < info.dataEnd
    ensures Process(file, e, info).Written? <==>
      (NeedsStereo(e) ==> info.nChannels >= 2) && (info.nChannels == 0 ==> e.BitCrushing? && info.dataBegin == info.dataEnd)
  {
    BufferBytesZero(info.format, info.nChannels);
  }

  /** A run the guards let through writes the header and the padded
      scratch bytes, with buffers of `BufferFrames` frames. */
  lemma ProcessWritten(file: seq<Byte>, e: Effect, info: WavInfo)
    requires Readable(info)
    requires info.nChannels > 0 && (NeedsStereo(e) ==> info.nChannels >= 2)
    ensures BufferFrames * FrameBytes(info.format, info.nChannels) > 0
    ensures var size := BufferFrames * FrameBytes(info.format, info.nChannels);
      Process(file, e, info) == Written(Output(info, Scratch(file, e, info, size), size))
  {
    BufferBytesZero(info.format, info.nChannels);
  }

  /** A buffer of `BufferFrames` frames holds whole groups of the effect. */
  lemma BufferHoldsGroups(e: Effect, f: Format, n: nat)
    requires n > 0
    ensures BufferFrames * FrameBytes(f, n) > 0
    ensures (BufferFrames * FrameBytes(f, n)) % (BytesPerSample(f) * FrameWidth(e, n)) == 0
  {
    var k := BytesPerSample(f);
    FrameBytesValue(f, n);
    assert BufferFrames * FrameBytes(f, n) == (BufferFrames * n) * k;
    if e.BitCrushing? {
      MulMod(BufferFrames * n, k * 1);
    } else {
      assert (BufferFrames * n) * k == BufferFrames * (k * n);
      MulMod(BufferFrames, k * n);
    }
  }

  /** Every forward frame rewrite keeps the width of a frame. */
  lemma RewriteKeepsWidth(e: Effect, f: Format, n: nat)
    requires Forward(e)
    ensures KeepsWidth(FrameWidth(e, n), FrameRewrite(e, f))
  {
    match e
    case BitCrushing(mask) => CrushAsFrames(mask, []);
    case ChannelSubtracting => SubtractKeepsWidth(f, n);
    case ChannelSwapping => SwapKeepsWidth(n);
  }

  /** Whole buffers need no padding. */
  lemma PaddedWhole(temp: seq<Byte>, size: nat)
    requires size > 0 && |temp| % size == 0
    ensures Padded(temp, size) == temp
  {
    var q := |temp| / size;
    assert |temp| == q * size;
    CeilDivLeast(|temp|, size, q);
    if CeilDiv(|temp|, size) < q {
      MulMono(CeilDiv(|temp|, size), q - 1, size);
    }
    assert CeilDiv(|temp|, size) == q;
    ReadInside(temp, 0, |temp|);
  }

  /** The window of the data the forward loop reads, rounded up to whole
      buffers of `size` bytes and padded with zeros past the end of the file. */
  function DataWindow(file: seq<Byte>, info: WavInfo, size: nat): (w: seq<Byte>)
    requires size > 0
    ensures |w| % size == 0
    ensures info.dataBegin < info.dataEnd ==> info.dataEnd - info.dataBegin <= |w| < info.dataEnd - info.dataBegin + size
    ensures info.dataBegin >= info.dataEnd ==> w == []
  {
    var count := BlockCount(info.dataBegin, info.dataEnd, size);
    MulMod(count, size);
    ReadWindow(file, info.dataBegin, count * size)
  }

  /** The scratch bytes of a forward effect: its rewrite applied to every
      group of samples of the data window, which fills whole buffers. */
  lemma ForwardScratch(file: seq<Byte>, e: Effect, info: WavInfo)
    requires Forward(e) && info.nChannels > 0
    ensures var size, w := BufferFrames * FrameBytes(info.format, info.nChannels), FrameWidth(e, info.nChannels);
      var samples := Decode(info.format, DataWindow(file, info, size));
      && size > 0 && Framed(w, samples)
      && ForwardLoop(file, info.dataBegin, info.dataEnd, size, BufferEffect(e, info.format, info.nChannels))
         == Encode(info.format, MapFrames(w, FrameRewrite(e, info.format), samples))
      && |Encode(info.format, MapFrames(w, FrameRewrite(e, info.format), samples))| == |DataWindow(file, info, size)|
  {
    var f, n := info.format, info.nChannels;
    var size, w, h := BufferFrames * FrameBytes(f, n), FrameWidth(e, n), FrameRewrite(e, f);
    var window := DataWindow(file, info, size);
    BufferHoldsGroups(e, f, n);
    RewriteKeepsWidth(e, f, n);
    ForwardIsMap(file, info.dataBegin, info.dataEnd, size, BufferEffect(e, f, n));
    BlockwiseEffect(f, w, h, size, window);
    EncodedLength(f, w, h, size, window);
  }

  /** Rewriting the samples of whole buffers keeps their length in bytes. */
  lemma EncodedLength(f: Format, w: nat, h: seq<int> -> seq<int>, size: nat, window: seq<Byte>)
    requires w > 0 && KeepsWidth(w, h) && size > 0 && size % (BytesPerSample(f) * w) == 0
    requires |window| % size == 0
    ensures Framed(w, Decode(f, window))
    ensures |Encode(f, MapFrames(w, h, Decode(f, window)))| == |window|
  {
    var k := BytesPerSample(f);
    WholeFrames(size, w, k);
    var m := |window| / size;
    assert |window| == m * size;
    var j := size / k;
    assert size == j * k;
    assert |window| == (m * j) * k;
    MulMod(m * j, k);
    DivDiv(|window|, k, w);
    MulMod(m, size);
    assert |window| % (k * w) == 0 by {
      var l := size / (k * w);
      assert size == l * (k * w);
      assert |window| == (m * l) * (k * w);
      MulMod(m * l, k * w);
    }
    MapFramesLength(w, h, Decode(f, window));
  }

  /** The output of a forward effect on a file with channels: the header for
      the rewritten data window, then that window. */
  lemma ForwardProcess(file: seq<Byte>, e: Effect, info: WavInfo)
    requires Forward(e) && Readable(info)
    requires info.nChannels > 0 && (NeedsStereo(e) ==> info.nChannels >= 2)
    ensures var size, w := BufferFrames * FrameBytes(info.format, info.nChannels), FrameWidth(e, info.nChannels);
      var samples := Decode(info.format, DataWindow(file, info, size));
      && size > 0 && Framed(w, samples)
      && var temp := Encode(info.format, MapFrames(w, FrameRewrite(e, info.format), samples));
      Process(file, e, info) == Written(WriteHeader(info, |temp|) + temp)
  {
    var f, n := info.format, info.nChannels;
    var size := BufferFrames * FrameBytes(f, n);
    ProcessWritten(file, e, info);
    ForwardScratch(file, e, info);
    var temp := Scratch(file, e, info, size);
    PaddedWhole(temp, size);
  }

  /** The bit-crush writes the masked samples of the data window. */
  lemma BitCrushRun(file: seq<Byte>, mask: int, info: WavInfo)
    requires Readable(info) && info.nChannels > 0
    ensures var samples := Decode(info.format, DataWindow(file, info, BufferFrames * FrameBytes(info.format, info.nChannels)));
      var temp := Encode(info.format, CrushBlock(mask, samples));
      Process(file, BitCrushing(mask), info) == Written(WriteHeader(info, |temp|) + temp)
  {
    var size := BufferFrames * FrameBytes(info.format, info.nChannels);
    ForwardProcess(file, BitCrushing(mask), info);
    CrushAsFrames(mask, Decode(info.format, DataWindow(file, info, size)));
  }

  /** Channel subtract writes every frame of the data window with the mean
      of its channels taken out. */
  lemma ChannelSubtractRun(file: seq<Byte>, info: WavInfo)
    requires Readable(info) && info.nChannels >= 2
    ensures var samples := Decode(info.format, DataWindow(file, info, BufferFrames * FrameBytes(info.format, info.nChannels)));
      && Framed(info.nChannels, samples)
      && var temp := Encode(info.format, SubtractChannels(info.format, info.nChannels, samples));
      Process(file, ChannelSubtracting, info) == Written(WriteHeader(info, |temp|) + temp)
  {
    ForwardProcess(file, ChannelSubtracting, info);
  }

  /** Channel swap writes every frame of the data window with its channels
      in the opposite order. */
  lemma ChannelSwapRun(file: seq<Byte>, info: WavInfo)
    requires Readable(info) && info.nChannels >= 2
    ensures var samples := Decode(info.format, DataWindow(file, info, BufferFrames * FrameBytes(info.format, info.nChannels)));
      && Framed(info.nChannels, samples)
      && var temp := Encode(info.format, SwapChannels(info.nChannels, samples));
      Process(file, ChannelSwapping, info) == Written(WriteHeader(info, |temp|) + temp)
  {
    var size := BufferFrames * FrameBytes(info.format, info.nChannels);
    ForwardProcess(file, ChannelSwapping, info);
    var samples := Decode(info.format, DataWindow(file, info, size));
    assert FrameRewrite(ChannelSwapping, info.format) == SwapFrame;
    assert SwapChannels(info.nChannels, samples) == MapFrames(info.nChannels, SwapFrame, samples);
  }

  /** Reverse writes the whole frames of the data, counted from its end, in
      the opposite order, padded with zeros to whole buffers. */
  lemma ReverseRun(file: seq<Byte>, info: WavInfo)
    requires Readable(info) && info.nChannels > 0
    ensures var w := FrameBytes(info.format, info.nChannels);
      var temp := ReverseFrames(w, FramedData(file, w, info.dataBegin, info.dataEnd));
      Process(file, Reversing, info) == Written(Output(info, temp, BufferFrames * w))
  {
    ProcessWritten(file, Reversing, info);
    ReverseScratchIsReverse(file, info.format, info.nChannels, info.dataBegin, info.dataEnd);
  }

  /** The header of an output reads back as the parameters of the input,
      with the data right behind the header and as long as the scratch bytes
      (modulo 2^32, the width of the size field). */
  lemma OutputReadsBack(info: WavInfo, tempSize: nat, rest: seq<Byte>)
    requires info.nChannels < 0x1_0000 && IsInt(info.sampleRate)
    ensures ParseHeader(WriteHeader(info, tempSize) + rest)
      == Parsed(WavInfo(info.format, info.nChannels, info.sampleRate, HeaderSize, HeaderSize + Unsigned(tempSize)))
  {
    ParseWrittenHeader(info, tempSize, rest);
    DivModUnique(info.nChannels, 0x1_0000, 0, info.nChannels);
  }

  /** Any bytes that begin with a header the writer emitted for `info` read
      back as `info`'s format, channel count and sample rate, with the data
      right after the header. */
  lemma HeaderedReadsBack(info: WavInfo, t: nat, out: seq<Byte>)
    requires info.nChannels < 0x1_0000 && IsInt(info.sampleRate)
    requires HeaderSize + t <= |out| && out[..HeaderSize] == WriteHeader(info, t)
    ensures ParseHeader(out).Parsed?
    ensures ParseHeader(out).info.format == info.format
    ensures ParseHeader(out).info.nChannels == info.nChannels
    ensures ParseHeader(out).info.sampleRate == info.sampleRate
    ensures ParseHeader(out).info.dataBegin == HeaderSize
  {
    var rest := out[HeaderSize..];
    assert out == WriteHeader(info, t) + rest;
    OutputReadsBack(info, t, rest);
    assert ParseHeader(out) == Parsed(WavInfo(info.format, info.nChannels, info.sampleRate, HeaderSize, HeaderSize + Unsigned(t)));
  }

  /** Every output a run writes declares the format, channel count and
      sample rate of its input, and its data starts right after the header. */
  lemma ProcessKeepsParameters(file: seq<Byte>, e: Effect, info: WavInfo)
    requires Readable(info)
    requires NeedsStereo(e) ==> info.nChannels >= 2
    requires info.nChannels == 0 ==> e.BitCrushing? && info.dataBegin == info.dataEnd
    ensures Process(file, e, info).Written?
    ensures var out := Process(file, e, info).output;
      && ParseHeader(out).Parsed?
      && ParseHeader(out).info.format == info.format
      && ParseHeader(out).info.nChannels == info.nChannels
      && ParseHeader(out).info.sampleRate == info.sampleRate
      && ParseHeader(out).info.dataBegin == HeaderSize
  {
    ProcessRefusals(file, e, info);
    var out := Process(file, e, info).output;
    var t: nat :| HeaderSize + t <= |out| && out[..HeaderSize] == WriteHeader(info, t);
    HeaderedReadsBack(info, t, out);
  }
}
