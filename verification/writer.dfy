/** The writer of the canonical 44-byte PCM header (WAVE form definition of
    the Microsoft/IBM Multimedia Programming Interface and Data
    Specifications 1.0): a 12-byte RIFF descriptor, a 24-byte `fmt ` chunk
    and the 8-byte head of the `data` chunk. */
module WavWriter {
  import opened Arith
  import opened JavaInt
  import opened Codec
  import opened Samples
  import opened Stream
  import opened WavHeader

  /** `sampleRate * nChannels * bitDepth / 8`, evaluated in Java `int` arithmetic. */
  function ByteRate(info: WavInfo): int
  {
    Div(Wrap(Wrap(info.sampleRate * info.nChannels) * BitDepth(info.format)), 8)
  }

  /** `nChannels * bitDepth / 8`, evaluated in Java `int` arithmetic. */
  function BlockAlign(info: WavInfo): int
  {
    Div(Wrap(info.nChannels * BitDepth(info.format)), 8)
  }

  /** "RIFF", the RIFF size (the scratch length plus 36, cast to `int`) and "WAVE". */
  function RiffDescriptor(tempSize: int): (d: seq<Byte>)
    ensures |d| == 12
  {
    [0x52, 0x49, 0x46, 0x46] + LeBytes(Wrap(tempSize + 36), 4) + [0x57, 0x41, 0x56, 0x45]
  }

  /** "fmt ", chunk size 16, format 1 (integer PCM), then the channel count,
      sample rate, byte rate, block align and bit depth; a 16-bit field keeps
      the low 16 bits of its value, as the `(short)` casts do. */
  function FmtLayout(channels: int, rate: int, byteRate: int, align: int, depth: int): (d: seq<Byte>)
    ensures |d| == 24
  {
    [0x66, 0x6d, 0x74, 0x20] + [16, 0, 0, 0] + [1, 0] + LeBytes(channels, 2)
    + LeBytes(rate, 4) + LeBytes(byteRate, 4) + LeBytes(align, 2) + LeBytes(depth, 2)
  }

  /** The `fmt ` chunk the writer emits for `info`. */
  function FmtChunk(info: WavInfo): (d: seq<Byte>)
    ensures |d| == 24
  {
    FmtLayout(info.nChannels, info.sampleRate, ByteRate(info), BlockAlign(info), BitDepth(info.format))
  }

  /** "data" and the data size, the scratch length cast to `int`. */
  function DataChunkHead(tempSize: int): (d: seq<Byte>)
    ensures |d| == 8
  {
    [0x64, 0x61, 0x74, 0x61] + LeBytes(Wrap(tempSize), 4)
  }

  /** The 44 bytes written at the start of the output file, for audio
      parameters `info` and `tempSize` bytes of processed audio. */
  function WriteHeader(info: WavInfo, tempSize: int): (w: seq<Byte>)
    ensures |w| == HeaderSize
  {
    RiffDescriptor(tempSize) + FmtChunk(info) + DataChunkHead(tempSize)
  }

  /** Where each part sits in the header. */
  lemma HeaderLayout(info: WavInfo, tempSize: int)
    ensures var w := WriteHeader(info, tempSize);
      && (forall j :: 0 <= j < 12 ==> w[j] == RiffDescriptor(tempSize)[j])
      && (forall j :: 12 <= j < 36 ==> w[j] == FmtChunk(info)[j - 12])
      && (forall j :: 36 <= j < 44 ==> w[j] == DataChunkHead(tempSize)[j - 36])
  {
    var r, f, d := RiffDescriptor(tempSize), FmtChunk(info), DataChunkHead(tempSize);
    assert WriteHeader(info, tempSize) == (r + f) + d;
  }

  /** Two bytes keep a value modulo 2^16. */
  lemma LeBytes2(v: int)
    ensures var b := LeBytes(v, 2); b[0] as int + 256 * b[1] as int == v % 0x1_0000
  {
    var b := LeBytes(v, 2);
    Pow256Values();
    assert LeValue(b[1..]) == b[1] + 256 * LeValue(b[2..]);
  }

  /** Four bytes keep a value modulo 2^32. */
  lemma LeBytes4(v: int)
    ensures var b := LeBytes(v, 4);
      b[0] as int + 256 * (b[1] as int + 256 * (b[2] as int + 256 * b[3] as int)) == v % 0x1_0000_0000
  {
    U32RoundTrip(v);
    assert LeBytes(v, 4)[0..4] == LeBytes(v, 4);
  }

  /** The RIFF descriptor reads back. */
  lemma RiffFields(tempSize: int)
    ensures var d := RiffDescriptor(tempSize);
      && CompareSignature("RIFF", d, 0) && CompareSignature("WAVE", d, 8)
      && U32At(d, 4) == Unsigned(tempSize + 36)
  {
    LeBytes4(Wrap(tempSize + 36));
    UnsignedWrap(tempSize + 36);
  }

  /** The `fmt ` tag, chunk size and audio format read back. */
  lemma FmtTagFields(channels: int, rate: int, byteRate: int, align: int, depth: int)
    ensures var d := FmtLayout(channels, rate, byteRate, align, depth);
      && CompareSignature("fmt ", d, 0) && U32At(d, 4) == 16 && U16At(d, 8) == 1
  {
  }

  /** The channel count and sample rate read back. */
  lemma FmtChannelFields(channels: int, rate: int, byteRate: int, align: int, depth: int)
    ensures var d := FmtLayout(channels, rate, byteRate, align, depth);
      && U16At(d, 10) == channels % 0x1_0000 && U32At(d, 12) == Unsigned(rate)
  {
    LeBytes2(channels);
    LeBytes4(rate);
  }

  /** The byte rate and block align read back. */
  lemma FmtRateFields(channels: int, rate: int, byteRate: int, align: int, depth: int)
    ensures var d := FmtLayout(channels, rate, byteRate, align, depth);
      U32At(d, 16) == Unsigned(byteRate) && U16At(d, 20) == align % 0x1_0000
  {
    LeBytes4(byteRate);
    LeBytes2(align);
  }

  /** The bit depth reads back. */
  lemma FmtDepthField(channels: int, rate: int, byteRate: int, align: int, depth: int)
    ensures U16At(FmtLayout(channels, rate, byteRate, align, depth), 22) == depth % 0x1_0000
  {
    LeBytes2(depth);
  }

  /** The head of the `data` chunk reads back. */
  lemma DataFields(tempSize: int)
    ensures var d := DataChunkHead(tempSize);
      && CompareSignature("data", d, 0) && U32At(d, 4) == Unsigned(tempSize)
  {
    LeBytes4(Wrap(tempSize));
    UnsignedWrap(tempSize);
  }

  /** The `int` evaluation of the byte rate is exact when the product stays
      inside `int`. */
  lemma ByteRateExact(info: WavInfo)
    requires 0 <= info.sampleRate
    requires IsInt(info.sampleRate * info.nChannels * BitDepth(info.format))
    ensures ByteRate(info) == info.sampleRate * info.nChannels * BytesPerSample(info.format)
    ensures 0 <= ByteRate(info) < TwoTo31
  {
    var k, d := BytesPerSample(info.format), BitDepth(info.format);
    var x := info.sampleRate * info.nChannels;
    MulMono(1, d, x);
    assert Wrap(x) == x;
    assert x * d == (x * k) * 8;
    MulMono(0, x, k);
  }

  /** So is the block align when a frame is narrower than 2^16 bytes. */
  lemma BlockAlignExact(info: WavInfo)
    requires info.nChannels * BytesPerSample(info.format) < 0x1_0000
    ensures BlockAlign(info) == info.nChannels * BytesPerSample(info.format)
    ensures 0 <= BlockAlign(info) < 0x1_0000
  {
    var n, k := info.nChannels, BytesPerSample(info.format);
    MulMono(0, n, k);
    assert n * BitDepth(info.format) == (n * k) * 8;
    assert IsInt(n * BitDepth(info.format));
  }

  /** The header carries the byte rate and the block align at offsets 28 and 32. */
  lemma HeaderRateFields(info: WavInfo, tempSize: int)
    ensures U32At(WriteHeader(info, tempSize), 28) == Unsigned(ByteRate(info))
    ensures U16At(WriteHeader(info, tempSize), 32) == BlockAlign(info) % 0x1_0000
  {
    var w, f := WriteHeader(info, tempSize), FmtChunk(info);
    HeaderLayout(info, tempSize);
    assert w[28] == f[16] && w[29] == f[17] && w[30] == f[18] && w[31] == f[19];
    assert w[32] == f[20] && w[33] == f[21];
    FmtRateFields(info.nChannels, info.sampleRate, ByteRate(info), BlockAlign(info), BitDepth(info.format));
  }

  /** Where the rate is non-negative and the product of rate, channels and
      bit depth stays inside `int`, the byte-rate field of the header (offset
      28) holds the bytes per second: rate times channels times bytes per
      sample. */
  lemma HeaderByteRate(info: WavInfo, tempSize: int)
    requires 0 <= info.sampleRate
    requires IsInt(info.sampleRate * info.nChannels * BitDepth(info.format))
    ensures U32At(WriteHeader(info, tempSize), 28) == info.sampleRate * info.nChannels * BytesPerSample(info.format)
  {
    ByteRateExact(info);
    HeaderRateFields(info, tempSize);
    UnsignedOfSmall(ByteRate(info));
  }

  /** Where a frame is narrower than 2^16 bytes, the block-align field of the
      header (offset 32) holds the bytes per frame: channels times bytes per
      sample. */
  lemma HeaderBlockAlign(info: WavInfo, tempSize: int)
    requires info.nChannels * BytesPerSample(info.format) < 0x1_0000
    ensures U16At(WriteHeader(info, tempSize), 32) == info.nChannels * BytesPerSample(info.format)
  {
    BlockAlignExact(info);
    HeaderRateFields(info, tempSize);
    DivModUnique(BlockAlign(info), 0x1_0000, 0, BlockAlign(info));
  }
}
