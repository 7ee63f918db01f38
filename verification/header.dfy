/** The RIFF/WAVE header: the reader that walks the sub-chunks of the first
    4096 bytes looking for `fmt ` and `data`, and the writer of the canonical
    44-byte PCM header (WAVE form definition of the Microsoft/IBM Multimedia
    Programming Interface and Data Specifications 1.0). */
module WavHeader {
  import opened Arith
  import opened JavaInt
  import opened Codec
  import opened Samples
  import opened Stream

  /** Size of the window the reader loads from offset 0. */
  const HeaderWindow: nat := 4096
  /** The chunk walk gives up once its cursor is past this offset. */
  const WalkLimit: int := 4088
  /** Size of the header the writer emits. */
  const HeaderSize: nat := 44

  /** Why a header is refused. The first three are the status codes the
      reader sets; the last two are what the Java code does instead of
      returning: an uncaught array-index exception, and a chunk walk whose
      cursor comes back to an offset it has already visited and so loops forever. */
  datatype ParseError =
    | FileNotSupported
    | BrokenHeader
    | FormatNotSupported
    | IndexOutOfBounds
    | NeverTerminates

  /** What a successful parse records: the sample format, the channel count
      (an unsigned 16-bit field), the sample rate (a 32-bit field read into a
      Java `int`) and the half-open byte range of the audio data. */
  datatype WavInfo = WavInfo(format: Format, nChannels: nat, sampleRate: int, dataBegin: nat, dataEnd: nat)

  datatype ParseResult = Parsed(info: WavInfo) | Failed(error: ParseError)

  /** Java's signed reading of a byte. */
  function SignedByte(b: Byte): (v: int)
    ensures -128 <= v < 128 && (b < 128 ==> v == b)
  {
    ToSigned(b, 256)
  }

  /** The tag check: false for a negative offset, a tag shorter than four
      characters or fewer than four bytes left; otherwise each of the four
      characters is compared with the signed value of its byte. */
  function CompareSignature(tag: string, buf: seq<Byte>, offset: int): (r: bool)
    ensures r ==> 0 <= offset && offset + 4 <= |buf| && |tag| >= 4
  {
    if offset < 0 then false
    else if |tag| < 4 then false
    else if |buf| < offset + 4 then false
    else
      tag[0] as int == SignedByte(buf[offset]) && tag[1] as int == SignedByte(buf[offset + 1]) &&
      tag[2] as int == SignedByte(buf[offset + 2]) && tag[3] as int == SignedByte(buf[offset + 3])
  }

  predicate IsAscii(tag: string)
  {
    forall j :: 0 <= j < |tag| ==> tag[j] as int < 128
  }

  /** For an ASCII tag of four characters the check is plain byte equality
      with the tag's bytes, whatever the signedness of the comparison. */
  lemma CompareSignatureBytes(tag: string, buf: seq<Byte>, offset: int)
    requires |tag| == 4 && IsAscii(tag)
    ensures CompareSignature(tag, buf, offset) <==>
      0 <= offset && offset + 4 <= |buf| && buf[offset..offset + 4] == Ascii(tag)
  {
    if 0 <= offset && offset + 4 <= |buf| {
      var w := buf[offset..offset + 4];
      if w == Ascii(tag) {
        assert forall j :: 0 <= j < 4 ==> buf[offset + j] == w[j];
      } else if CompareSignature(tag, buf, offset) {
        assert forall j :: 0 <= j < 4 ==> w[j] == buf[offset + j] == Ascii(tag)[j];
      }
    }
  }

  /** Offsets the walk can be at when it reads a chunk size: the read at
      `pos + 4` needs `pos >= -4`, and the walk stops past `WalkLimit`. */
  predicate InWalkRange(pos: int)
  {
    -4 <= pos <= WalkLimit
  }

  datatype WalkResult = Found(pos: int) | Stopped(error: ParseError)

  /** The chunk walk. From `pos`, stop with a broken header once past
      `WalkLimit`; succeed where the tag matches; otherwise read the chunk
      size at `pos + 4` and jump by size + 8, with the 32-bit wrap-around of
      `bytepos += (int) (num + 8L)`. `visited` holds the offsets already
      left behind: coming back to one means the Java loop runs forever. */
  function Walk(h: seq<Byte>, tag: string, pos: int, visited: set<int>): (r: WalkResult)
    requires |h| == HeaderWindow && IsInt(pos)
    requires forall v :: v in visited ==> InWalkRange(v)
    ensures r.Found? ==> 0 <= r.pos <= WalkLimit && CompareSignature(tag, h, r.pos)
    ensures pos > WalkLimit ==> r == Stopped(BrokenHeader)
    ensures pos <= WalkLimit && CompareSignature(tag, h, pos) ==> r == Found(pos)
    ensures pos <= WalkLimit && !CompareSignature(tag, h, pos) && pos + 4 < 0 ==> r == Stopped(IndexOutOfBounds)
    ensures InWalkRange(pos) && !CompareSignature(tag, h, pos) && pos in visited ==> r == Stopped(NeverTerminates)
    decreases WalkLimit + 5 - |visited|
  {
    if pos > WalkLimit then Stopped(BrokenHeader)
    else if CompareSignature(tag, h, pos) then Found(pos)
    else if pos + 4 < 0 then Stopped(IndexOutOfBounds)
    else if pos in visited then Stopped(NeverTerminates)
    else
      assert forall v :: v in visited + {pos} ==> InWalkRange(v);
      BoundedSetSize(visited + {pos}, -4, WalkLimit);
      Walk(h, tag, NextChunk(h, pos), visited + {pos})
  }

  /** A cursor inside the walk range whose chunk does not carry the tag, and
      that has not been visited, moves on to the next chunk: the walk from
      there decides. Together with the exits above this fixes the result as
      the first match along the chain of chunks. */
  lemma WalkSkips(h: seq<Byte>, tag: string, pos: int, visited: set<int>)
    requires |h| == HeaderWindow && InWalkRange(pos) && pos !in visited
    requires forall v :: v in visited ==> InWalkRange(v)
    requires !CompareSignature(tag, h, pos)
    ensures forall v :: v in visited + {pos} ==> InWalkRange(v)
    ensures Walk(h, tag, pos, visited) == Walk(h, tag, NextChunk(h, pos), visited + {pos})
  {
  }

  /** The cursor after skipping the chunk at `pos`. */
  function NextChunk(h: seq<Byte>, pos: int): (next: int)
    requires |h| == HeaderWindow && InWalkRange(pos)
    ensures IsInt(next)
    ensures (next - pos - U32At(h, pos + 4) - 8) % TwoTo32 == 0
  {
    WrapSumCongruent(pos, U32At(h, pos + 4) + 8);
    Wrap(pos + Wrap(U32At(h, pos + 4) + 8))
  }

  /** The reader: loads the first 4096 bytes of the file (zeros past its
      end) and parses them. */
  function ParseHeader(file: seq<Byte>): (r: ParseResult)
    ensures r.Parsed? ==> r.info.dataBegin <= r.info.dataEnd && 8 <= r.info.dataBegin <= WalkLimit + 8
    ensures r.Parsed? ==> r.info.nChannels < 0x1_0000 && IsInt(r.info.sampleRate)
    ensures !CompareSignature("RIFF", ReadWindow(file, 0, HeaderWindow), 0) ==> r == Failed(FileNotSupported)
    ensures !CompareSignature("WAVE", ReadWindow(file, 0, HeaderWindow), 8) ==> r == Failed(FileNotSupported)
  {
    ParseWindow(ReadWindow(file, 0, HeaderWindow))
  }

  /** The parse of the header window. Checks `RIFF` at 0 and `WAVE` at 8,
      walks from 12 to `fmt `, requires audio format 1 at +8, takes the
      channel count at +10, the sample rate at +12 and the bit depth at +22,
      walks on from the end of the `fmt ` chunk to `data`, and sets the data
      range from the `data` chunk's size. A bit depth other than 16 or 24 is
      refused last. */
  function ParseWindow(h: seq<Byte>): (r: ParseResult)
    requires |h| == HeaderWindow
    ensures r.Parsed? ==> r.info.dataBegin <= r.info.dataEnd && 8 <= r.info.dataBegin <= WalkLimit + 8
    ensures r.Parsed? ==> r.info.nChannels < 0x1_0000 && IsInt(r.info.sampleRate)
    ensures !CompareSignature("RIFF", h, 0) ==> r == Failed(FileNotSupported)
    ensures !CompareSignature("WAVE", h, 8) ==> r == Failed(FileNotSupported)
  {
    if !CompareSignature("RIFF", h, 0) || !CompareSignature("WAVE", h, 8) then Failed(FileNotSupported)
    else match Walk(h, "fmt ", 12, {})
      case Stopped(e) => Failed(e)
      case Found(p) =>
        if p + 10 > HeaderWindow then Failed(IndexOutOfBounds)
        else if U16At(h, p + 8) != 1 then Failed(FormatNotSupported)
        else if p + 24 > HeaderWindow then Failed(IndexOutOfBounds)
        else
          var nChannels := U16At(h, p + 10);
          var sampleRate := Wrap(U32At(h, p + 12));
          var bitDepth := U16At(h, p + 22);
          match Walk(h, "data", NextChunk(h, p), {})
          case Stopped(e) => Failed(e)
          case Found(q) =>
            var begin := q + 8;
            var end := begin + U32At(h, q + 4);
            if bitDepth == 16 then Parsed(WavInfo(I16, nChannels, sampleRate, begin, end))
            else if bitDepth == 24 then Parsed(WavInfo(I24, nChannels, sampleRate, begin, end))
            else Failed(FormatNotSupported)
  }

  /** The offset of the `fmt ` chunk the reader finds. */
  function FmtAt(h: seq<Byte>): (r: WalkResult)
    requires |h| == HeaderWindow
  {
    Walk(h, "fmt ", 12, {})
  }

  /** A window parses exactly when it carries `RIFF` and `WAVE`, the walk
      from 12 finds `fmt ` at `p` with its fields inside the window, the
      audio format at p+8 is 1, the walk from the end of that chunk finds
      `data` at `q` and the bit depth at p+22 is 16 or 24. The parse then
      holds the channel count at p+10, the sample rate at p+12 cast to
      `int`, the format of that bit depth, and the data range from q+8 for
      the size at q+4. */
  lemma ParseWindowFields(h: seq<Byte>)
    requires |h| == HeaderWindow
    ensures ParseWindow(h).Parsed? <==>
      && CompareSignature("RIFF", h, 0) && CompareSignature("WAVE", h, 8)
      && FmtAt(h).Found? && FmtAt(h).pos + 24 <= HeaderWindow
      && U16At(h, FmtAt(h).pos + 8) == 1
      && Walk(h, "data", NextChunk(h, FmtAt(h).pos), {}).Found?
      && (U16At(h, FmtAt(h).pos + 22) == 16 || U16At(h, FmtAt(h).pos + 22) == 24)
    ensures ParseWindow(h).Parsed? ==>
      var p, info := FmtAt(h).pos, ParseWindow(h).info;
      var q := Walk(h, "data", NextChunk(h, p), {}).pos;
      && BitDepth(info.format) == U16At(h, p + 22)
      && info.nChannels == U16At(h, p + 10)
      && info.sampleRate == Wrap(U32At(h, p + 12))
      && info.dataBegin == q + 8
      && info.dataEnd == q + 8 + U32At(h, q + 4)
  {
  }

  /** The failures after the signatures: the error of a walk that stops, an
      index error when the `fmt ` fields run past the window, and an
      unsupported format for an audio format other than 1 or, once both
      chunks are found, a bit depth other than 16 or 24. */
  lemma ParseWindowFailures(h: seq<Byte>)
    requires |h| == HeaderWindow && CompareSignature("RIFF", h, 0) && CompareSignature("WAVE", h, 8)
    ensures FmtAt(h).Stopped? ==> ParseWindow(h) == Failed(FmtAt(h).error)
    ensures FmtAt(h).Found? && FmtAt(h).pos + 10 > HeaderWindow ==> ParseWindow(h) == Failed(IndexOutOfBounds)
    ensures FmtAt(h).Found? && FmtAt(h).pos + 10 <= HeaderWindow && U16At(h, FmtAt(h).pos + 8) != 1 ==>
      ParseWindow(h) == Failed(FormatNotSupported)
    ensures FmtAt(h).Found? && FmtAt(h).pos + 24 <= HeaderWindow && U16At(h, FmtAt(h).pos + 8) == 1 ==>
      var data := Walk(h, "data", NextChunk(h, FmtAt(h).pos), {});
      && (data.Stopped? ==> ParseWindow(h) == Failed(data.error))
      && (data.Found? && U16At(h, FmtAt(h).pos + 22) != 16 && U16At(h, FmtAt(h).pos + 22) != 24 ==>
          ParseWindow(h) == Failed(FormatNotSupported))
  {
  }

  /** The first 64 bytes of a stereo 16-bit file at 44100 Hz whose `fmt `
      chunk comes after a 4-byte `LIST` chunk, with 8 bytes of audio data. */
  predicate ListFirst(b: seq<Byte>)
  {
    && |b| >= 64
    && b[0..12] == [0x52, 0x49, 0x46, 0x46, 56, 0, 0, 0, 0x57, 0x41, 0x56, 0x45]
    && b[12..24] == [0x4c, 0x49, 0x53, 0x54, 4, 0, 0, 0, 0x49, 0x4e, 0x46, 0x4f]
    && b[24..32] == [0x66, 0x6d, 0x74, 0x20, 16, 0, 0, 0]
    && b[32..40] == [1, 0, 2, 0, 0x44, 0xac, 0, 0]
    && b[40..48] == [0x10, 0xb1, 0x02, 0, 4, 0, 16, 0]
    && b[48..56] == [0x64, 0x61, 0x74, 0x61, 8, 0, 0, 0]
  }

  /** Both signatures are in place. */
  lemma ListFirstSignatures(h: seq<Byte>)
    requires ListFirst(h)
    ensures CompareSignature("RIFF", h, 0) && CompareSignature("WAVE", h, 8)
  {
    assert h[0] == h[0..12][0] && h[1] == h[0..12][1] && h[2] == h[0..12][2] && h[3] == h[0..12][3];
    assert h[8] == h[0..12][8] && h[9] == h[0..12][9] && h[10] == h[0..12][10] && h[11] == h[0..12][11];
  }

  /** The walk for `fmt ` passes over the `LIST` chunk at 12, whose size is
      4, and stops at 24. */
  lemma ListFirstFmt(h: seq<Byte>)
    requires |h| == HeaderWindow && ListFirst(h)
    ensures FmtAt(h) == Found(24)
  {
    var list, fmt := h[12..24], h[24..32];
    assert h[12] == list[0] && h[16] == list[4] && h[17] == list[5] && h[18] == list[6] && h[19] == list[7];
    assert h[24] == fmt[0] && h[25] == fmt[1] && h[26] == fmt[2] && h[27] == fmt[3];
    assert !CompareSignature("fmt ", h, 12);
    assert NextChunk(h, 12) == 24;
    WalkSkips(h, "fmt ", 12, {});
  }

  /** The walk for `data` starts after the 16-byte `fmt ` chunk and stops at 48. */
  lemma ListFirstData(h: seq<Byte>)
    requires |h| == HeaderWindow && ListFirst(h)
    ensures NextChunk(h, 24) == 48 && Walk(h, "data", 48, {}) == Found(48)
  {
    var fmt, data := h[24..32], h[48..56];
    assert h[28] == fmt[4] && h[29] == fmt[5] && h[30] == fmt[6] && h[31] == fmt[7];
    assert h[48] == data[0] && h[49] == data[1] && h[50] == data[2] && h[51] == data[3];
    assert U32At(h, 28) == 16;
    assert CompareSignature("data", h, 48);
  }

  /** The audio format, channel count, sample rate, bit depth and data size fields. */
  lemma ListFirstFields(h: seq<Byte>)
    requires ListFirst(h)
    ensures U16At(h, 32) == 1 && U16At(h, 34) == 2 && U32At(h, 36) == 44100
    ensures U16At(h, 46) == 16 && U32At(h, 52) == 8
  {
    var a, b, c := h[32..40], h[40..48], h[48..56];
    assert h[32] == a[0] && h[33] == a[1] && h[34] == a[2] && h[35] == a[3];
    assert h[36] == a[4] && h[37] == a[5] && h[38] == a[6] && h[39] == a[7];
    assert h[46] == b[6] && h[47] == b[7];
    assert h[52] == c[4] && h[53] == c[5] && h[54] == c[6] && h[55] == c[7];
  }

  /** A window that begins with these bytes parses to their parameters. */
  lemma ListFirstWindow(h: seq<Byte>)
    requires |h| == HeaderWindow && ListFirst(h)
    ensures ParseWindow(h) == Parsed(WavInfo(I16, 2, 44100, 56, 64))
  {
    ListFirstSignatures(h);
    ListFirstFmt(h);
    ListFirstData(h);
    ListFirstFields(h);
    ParseWindowFields(h);
  }

  /** The bytes are a property of the first 64 bytes alone. */
  lemma ListFirstPrefix(a: seq<Byte>, b: seq<Byte>)
    requires ListFirst(a) && |b| >= 64 && b[..64] == a[..64]
    ensures ListFirst(b)
  {
    var p := a[..64];
    assert a[0..12] == p[0..12] == b[0..12] && a[12..24] == p[12..24] == b[12..24];
    assert a[24..32] == p[24..32] == b[24..32] && a[32..40] == p[32..40] == b[32..40];
    assert a[40..48] == p[40..48] == b[40..48] && a[48..56] == p[48..56] == b[48..56];
  }

  /** The reader's window over such a file starts with the same bytes. */
  lemma ListFirstRead(file: seq<Byte>)
    requires ListFirst(file)
    ensures ListFirst(ReadWindow(file, 0, HeaderWindow))
  {
    var h := ReadWindow(file, 0, HeaderWindow);
    assert forall j :: 0 <= j < 64 ==> h[..64][j] == h[j] == file[j] == file[..64][j];
    ListFirstPrefix(file, h);
  }

  /** The reader skips the foreign `LIST` chunk before `fmt ` and finds the
      audio data at 56 to 64. */
  lemma ForeignChunkSkipped(file: seq<Byte>)
    requires ListFirst(file)
    ensures ParseHeader(file) == Parsed(WavInfo(I16, 2, 44100, 56, 64))
  {
    ListFirstRead(file);
    ListFirstWindow(ReadWindow(file, 0, HeaderWindow));
  }
}
