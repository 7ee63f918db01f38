/** What the reader makes of a header the writer produced. */
module HeaderRoundTrip {
  import opened JavaInt
  import opened Codec
  import opened Samples
  import opened Stream
  import opened WavHeader
  import opened WavWriter

  /** The reader's 4096-byte window over a file that starts with `w` begins with `w`. */
  lemma WindowStartsWith(w: seq<Byte>, rest: seq<Byte>)
    requires |w| <= HeaderWindow
    ensures forall j :: 0 <= j < |w| ==> ReadWindow(w + rest, 0, HeaderWindow)[j] == w[j]
  {
  }

  /** The window carries `RIFF` at 0 and `WAVE` at 8 when it starts with a written header. */
  lemma WindowRiffFields(info: WavInfo, tempSize: int, h: seq<Byte>)
    requires |h| == HeaderWindow
    requires forall j :: 0 <= j < HeaderSize ==> h[j] == WriteHeader(info, tempSize)[j]
    ensures CompareSignature("RIFF", h, 0) && CompareSignature("WAVE", h, 8)
  {
    HeaderLayout(info, tempSize);
    var d := RiffDescriptor(tempSize);
    RiffFields(tempSize);
    assert forall j :: 0 <= j < 12 ==> h[j] == d[j];
  }

  /** The window agrees with the written `fmt ` chunk at offsets 12 to 35. */
  lemma WindowFmt(info: WavInfo, tempSize: int, h: seq<Byte>)
    requires |h| == HeaderWindow
    requires forall j :: 0 <= j < HeaderSize ==> h[j] == WriteHeader(info, tempSize)[j]
    ensures var d := FmtLayout(info.nChannels, info.sampleRate, ByteRate(info), BlockAlign(info), BitDepth(info.format));
      forall j :: 12 <= j < 36 ==> h[j] == d[j - 12]
  {
    HeaderLayout(info, tempSize);
  }

  /** The `fmt ` tag at 12, chunk size 16 and audio format 1 read back. */
  lemma WindowFmtTags(info: WavInfo, tempSize: int, h: seq<Byte>)
    requires |h| == HeaderWindow
    requires forall j :: 0 <= j < HeaderSize ==> h[j] == WriteHeader(info, tempSize)[j]
    ensures CompareSignature("fmt ", h, 12) && U32At(h, 16) == 16 && U16At(h, 20) == 1
  {
    var ch, rate, br, al, bd := info.nChannels, info.sampleRate, ByteRate(info), BlockAlign(info), BitDepth(info.format);
    WindowFmt(info, tempSize, h);
    FmtTagFields(ch, rate, br, al, bd);
  }

  /** The channel count at 22 and the sample rate at 24 read back. */
  lemma WindowFmtChannels(info: WavInfo, tempSize: int, h: seq<Byte>)
    requires |h| == HeaderWindow
    requires forall j :: 0 <= j < HeaderSize ==> h[j] == WriteHeader(info, tempSize)[j]
    ensures U16At(h, 22) == info.nChannels % 0x1_0000 && U32At(h, 24) == Unsigned(info.sampleRate)
  {
    var ch, rate, br, al, bd := info.nChannels, info.sampleRate, ByteRate(info), BlockAlign(info), BitDepth(info.format);
    WindowFmt(info, tempSize, h);
    FmtChannelFields(ch, rate, br, al, bd);
  }

  /** The bit depth at 34 reads back. */
  lemma WindowFmtDepth(info: WavInfo, tempSize: int, h: seq<Byte>)
    requires |h| == HeaderWindow
    requires forall j :: 0 <= j < HeaderSize ==> h[j] == WriteHeader(info, tempSize)[j]
    ensures U16At(h, 34) == BitDepth(info.format)
  {
    var ch, rate, br, al, bd := info.nChannels, info.sampleRate, ByteRate(info), BlockAlign(info), BitDepth(info.format);
    WindowFmt(info, tempSize, h);
    FmtDepthField(ch, rate, br, al, bd);
    BitDepthFits(info.format);
  }

  /** The `data` tag at 36 and the scratch length at 40 read back. */
  lemma WindowDataFields(info: WavInfo, tempSize: int, h: seq<Byte>)
    requires |h| == HeaderWindow
    requires forall j :: 0 <= j < HeaderSize ==> h[j] == WriteHeader(info, tempSize)[j]
    ensures CompareSignature("data", h, 36) && U32At(h, 40) == Unsigned(tempSize)
  {
    HeaderLayout(info, tempSize);
    var d := DataChunkHead(tempSize);
    DataFields(tempSize);
    assert forall j :: 36 <= j < 44 ==> h[j] == d[j - 36];
  }

  /** A window with `fmt ` at 12, a 16-byte `fmt ` chunk of format 1 and
      `data` at 36, whose fields hold the values recorded in `info`, with
      the data starting right after the 44 header bytes. */
  predicate Canonical(h: seq<Byte>, info: WavInfo)
  {
    && |h| == HeaderWindow
    && CompareSignature("RIFF", h, 0) && CompareSignature("WAVE", h, 8)
    && CompareSignature("fmt ", h, 12) && U32At(h, 16) == 16 && U16At(h, 20) == 1
    && CompareSignature("data", h, 36) && U16At(h, 34) == BitDepth(info.format)
    && U16At(h, 22) == info.nChannels && Wrap(U32At(h, 24)) == info.sampleRate
    && info.dataBegin == HeaderSize && info.dataEnd == HeaderSize + U32At(h, 40)
  }

  /** A canonical window parses to the values its fields hold. */
  lemma ParseCanonicalWindow(h: seq<Byte>, info: WavInfo)
    requires Canonical(h, info)
    ensures ParseWindow(h) == Parsed(info)
  {
    assert Walk(h, "fmt ", 12, {}) == Found(12);
    assert NextChunk(h, 12) == 36;
    assert Walk(h, "data", 36, {}) == Found(36);
  }

  /** A canonical window parses to the values its fields hold. */
  lemma ParseCanonical(file: seq<Byte>, info: WavInfo)
    ensures Canonical(ReadWindow(file, 0, HeaderWindow), info) ==> ParseHeader(file) == Parsed(info)
  {
    var h := ReadWindow(file, 0, HeaderWindow);
    if Canonical(h, info) {
      ParseCanonicalWindow(h, info);
    }
  }

  /** What the reader records for a header written from `info` and `tempSize`. */
  function ReadBack(info: WavInfo, tempSize: int): (r: WavInfo)
    ensures r.format == info.format && r.dataBegin == HeaderSize
  {
    WavInfo(info.format, info.nChannels % 0x1_0000, Wrap(info.sampleRate),
            HeaderSize, HeaderSize + Unsigned(tempSize))
  }

  /** The reader's window over a written header is canonical. */
  lemma WrittenWindow(info: WavInfo, tempSize: int, rest: seq<Byte>)
    ensures Canonical(ReadWindow(WriteHeader(info, tempSize) + rest, 0, HeaderWindow), ReadBack(info, tempSize))
  {
    var w := WriteHeader(info, tempSize);
    var h := ReadWindow(w + rest, 0, HeaderWindow);
    WindowStartsWith(w, rest);
    WindowRiffFields(info, tempSize, h);
    WindowFmtTags(info, tempSize, h);
    WindowFmtChannels(info, tempSize, h);
    WindowFmtDepth(info, tempSize, h);
    WindowDataFields(info, tempSize, h);
    WrapUnsigned(info.sampleRate);
  }

  /** Reading back a written header, whatever follows it, gives the format
      and sample rate written, the channel count modulo 2^16, and the data
      range [44, 44 + tempSize mod 2^32). */
  lemma ParseWrittenHeader(info: WavInfo, tempSize: int, rest: seq<Byte>)
    ensures ParseHeader(WriteHeader(info, tempSize) + rest)
      == Parsed(WavInfo(info.format, info.nChannels % 0x1_0000, Wrap(info.sampleRate),
                        HeaderSize, HeaderSize + Unsigned(tempSize)))
  {
    WrittenWindow(info, tempSize, rest);
    ParseCanonical(WriteHeader(info, tempSize) + rest, ReadBack(info, tempSize));
  }
}
