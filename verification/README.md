# JRE_AudioFXColl 1.0 in Dafny

A model of the byte-level and sample-level core of JRE_AudioFXColl 1.0, a
Java tool that applies one of four effects to a PCM WAV file:

- **bit-crush** clears the low bits of every sample;
- **channel subtract** removes the mean of all channels from each channel;
- **channel swap** reverses the channel order inside each frame;
- **reverse** plays the audio backwards.

Each effect has the same life cycle. `initialize` reads the RIFF/WAVE header
and sizes a buffer of 512 frames. `runDSP` streams the audio data through
the buffer into a scratch file. `rawToWavProc` writes a fresh 44-byte header
to the output, then copies the scratch file behind it in whole buffers.

Files are byte sequences. A read of `len` bytes at `pos` returns the file's
bytes there and zeros past its end, because every loop ignores the
end-of-file exception of a short read. The scratch file is the concatenation
of the blocks written to it.

Modules, one per file:

| module | file | models |
|---|---|---|
| `Arith`, `JavaInt` | arith.dfy, javaint.dfy | arithmetic facts, and 32-bit `int` wrap-around, truncating division and bitwise `&`, `~`, `\|`, `<<` |
| `Codec` | codec.dfy | little-endian u16/u32/i16/i24 decode and encode |
| `Samples`, `Frames` | samples.dfy, frames.dfy | blocks of bytes as samples, and samples as frames |
| `Stream` | stream.dfy | zero-padded reads |
| `WavHeader`, `WavWriter`, `HeaderRoundTrip` | header.dfy, writer.dfy, roundtrip.dfy | `fileInGetParams`, `compareSignature`, `fileOutWriteHeader`, and the round trip between them |
| `Pipeline` | pipeline.dfy | buffer sizing in `initialize`, the forward loop the three forward effects share, `rawToWavProcLoop` |
| `BitCrush`, `ChannelSubtract`, `ChannelSwap`, `Reverse` | bitcrush.dfy, subtract.dfy, swap.dfy, reverse.dfy | the four effects |
| `Runs` | runs.dfy | one whole run: header, guards, scratch loop, output |

Where the code and its description disagree, the model follows the code:

- The forward effects process whole zero-padded buffers. The last buffer may
  take bytes past the end of the `data` chunk, for example a trailing chunk,
  and those bytes are transformed and written as audio (`Runs.DataWindow`).
- Reverse counts frames from the end of the data. When the data length is
  not a multiple of the frame size, the leading stray bytes are dropped; no
  partial frame is kept at the end (`Reverse.FramedData`).
- The output is padded with zeros to whole buffers. The `data` size field
  says the scratch length, which may be shorter than the bytes written
  (`Runs.Output`).
- A failed write inside the copy loop is ignored. The model has no write
  failures, so the copy loop always succeeds.

## Model

| member | source | states |
|---|---|---|
| WavHeader.CompareSignature | v1.0/AudioBaseClass.java:484-499 | a tag matches only at a non-negative offset with at least four bytes left and a tag of four characters or more |
| WavHeader.CompareSignatureBytes | v1.0/AudioBaseClass.java:493-496 | for an ASCII tag the comparison with Java's signed bytes is plain equality of the four bytes with the tag's bytes |
| WavHeader.Walk | v1.0/AudioBaseClass.java:361-373 | a chunk walk that succeeds only at an offset in [0, 4088] where the tag matches; a cursor past 4088 gives a broken header, a cursor in range where the tag matches is the result, one below -4 gives an index error, and one already left behind means the loop never ends |
| WavHeader.WalkSkips | v1.0/AudioBaseClass.java:369-372 | a cursor in range whose chunk does not carry the tag moves on by the chunk size plus 8, so the walk returns the first match along the chain of chunks |
| WavHeader.NextChunk | v1.0/AudioBaseClass.java:371-372 | the next cursor is an `int`, congruent modulo 2^32 to the cursor plus the chunk size plus 8 |
| WavHeader.ParseHeader | v1.0/AudioBaseClass.java:323-423 | without `RIFF` at 0 or `WAVE` at 8 of the first 4096 bytes the file is not supported; a parse that succeeds gives a 16-bit channel count, an `int` sample rate and a data range that starts at 8 to 4096 and does not run backwards |
| WavHeader.ParseWindow | v1.0/AudioBaseClass.java:347-422 | the same guarantees for the 4096-byte window the reader loads |
| WavHeader.ParseWindowFields | v1.0/AudioBaseClass.java:347-422 | a window parses exactly when both signatures are there, the walk finds `fmt ` with its fields inside the window, the audio format is 1, the walk finds `data` and the bit depth is 16 or 24; the parse then holds the channel count at fmt+10, the sample rate at fmt+12 cast to `int`, the format of the bit depth at fmt+22, and data from data+8 for the size at data+4 |
| WavHeader.ParseWindowFailures | v1.0/AudioBaseClass.java:361-422 | after the signatures, a stopped walk passes its error on, `fmt ` fields past the window give an index error, an audio format other than 1 and, once both chunks are found, a bit depth other than 16 or 24 give an unsupported format |
| WavHeader.ForeignChunkSkipped | v1.0/AudioBaseClass.java:359-406 | a file with a 4-byte `LIST` chunk before a stereo 16-bit 44100 Hz `fmt ` chunk parses with its data at bytes 56 to 64 |
| WavWriter.WriteHeader | v1.0/AudioBaseClass.java:427-465 | the written header is 44 bytes long |
| WavWriter.HeaderLayout | v1.0/AudioBaseClass.java:427-465 | bytes 0-11 are the RIFF descriptor, bytes 12-35 the `fmt ` chunk and bytes 36-43 the head of the `data` chunk |
| WavWriter.RiffFields | v1.0/AudioBaseClass.java:429-439 | the descriptor holds `RIFF`, the scratch length plus 36 as an unsigned 32-bit value, and `WAVE` |
| WavWriter.FmtTagFields | v1.0/AudioBaseClass.java:441-448 | the `fmt ` chunk holds its tag, chunk size 16 and audio format 1 |
| WavWriter.FmtChannelFields | v1.0/AudioBaseClass.java:450-452 | it holds the channel count modulo 2^16 and the sample rate as an unsigned 32-bit value |
| WavWriter.FmtRateFields | v1.0/AudioBaseClass.java:454-456 | it holds the byte rate as an unsigned 32-bit value and the block align modulo 2^16 |
| WavWriter.ByteRateExact | v1.0/AudioBaseClass.java:454 | rate times channels times bit depth over 8, evaluated in `int`, is the bytes per second when the product fits in `int` |
| WavWriter.BlockAlignExact | v1.0/AudioBaseClass.java:456 | channels times bit depth over 8 is the bytes per frame when that is below 2^16 |
| WavWriter.HeaderRateFields | v1.0/AudioBaseClass.java:454-456 | the header holds the byte rate at offset 28 and the block align at offset 32 |
| WavWriter.HeaderByteRate | v1.0/AudioBaseClass.java:454 | for a non-negative rate whose product with channels and bit depth fits in `int`, offset 28 holds rate times channels times bytes per sample |
| WavWriter.HeaderBlockAlign | v1.0/AudioBaseClass.java:456 | for frames narrower than 2^16 bytes, offset 32 holds channels times bytes per sample |
| WavWriter.FmtDepthField | v1.0/AudioBaseClass.java:458 | it holds the bit depth modulo 2^16 |
| WavWriter.DataFields | v1.0/AudioBaseClass.java:460-465 | the `data` head holds its tag and the scratch length as an unsigned 32-bit value |
| HeaderRoundTrip.ParseCanonical | v1.0/AudioBaseClass.java:347-422 | a file whose first 4096 bytes hold a canonical 44-byte header for given parameters parses to exactly those parameters |
| HeaderRoundTrip.ParseWrittenHeader | v1.0/AudioBaseClass.java:323-465 | reading a written header back, whatever follows it, gives the format, the channel count modulo 2^16, the sample rate, data start 44 and data end 44 plus the scratch length modulo 2^32 |
| Codec.LeBytesOfValue | v1.0/AudioBaseClass.java:371 | encoding the little-endian value of k bytes in k bytes gives the same bytes |
| Codec.LeBytesCongruent | v1.0/AudioBaseClass.java:434 | the encoder keeps only the low k bytes: congruent values give equal bytes |
| Codec.U16At | v1.0/AudioBaseClass.java:375 | an unsigned 16-bit field is its two bytes, low byte first |
| Codec.U32At | v1.0/AudioBaseClass.java:371 | an unsigned 32-bit field is its four bytes, low byte first |
| Codec.I16At | v1.0/AudioBitCrush.java:136 | a signed 16-bit sample is in [-2^15, 2^15) and congruent to the unsigned field modulo 2^16 |
| Codec.I24At | v1.0/AudioBitCrush.java:187 | a signed 24-bit sample is in [-2^23, 2^23) and congruent to the unsigned field modulo 2^24 |
| Codec.I16RoundTrip | v1.0/AudioBitCrush.java:136-138 | every 16-bit sample value is read back unchanged after it is written |
| Codec.I24RoundTrip | v1.0/AudioBitCrush.java:187-189 | every 24-bit sample value is read back unchanged after it is written |
| Codec.U32RoundTrip | v1.0/AudioBaseClass.java:434 | a 32-bit field reads back as the written value modulo 2^32 |
| Samples.DecodeEncode | v1.0/AudioChannelSwap.java:103-128 | in-range samples written to a block and read back are the same samples |
| Samples.EncodeDecode | v1.0/AudioChannelSwap.java:103-128 | a block of whole samples read and written back is the same block |
| Samples.DecodeAppend | v1.0/AudioChannelSwap.java:103-108 | reading two blocks, the first of whole samples, gives the samples of each in order |
| Samples.EncodeReverseFrames | v1.0/AudioReverse.java:280-304 | reversing the frames of samples and then encoding them is reversing the byte frames of the encoding |
| Frames.ReverseFramesTwice | v1.0/AudioReverse.java:287-297 | reversing the frames of a block twice gives the block back |
| Frames.ReverseFramesIndex | v1.0/AudioReverse.java:287-297 | item c of frame f of the result is item c of frame F-1-f of the input |
| Frames.ReverseFramesAppend | v1.0/AudioReverse.java:259-317 | reversing the frames of two pieces puts the reversed second piece first |
| Frames.MapFramesAppend | v1.0/AudioChannelSwap.java:110-121 | a frame-by-frame effect on two runs of whole frames is the effect on each |
| Frames.MapFramesIndex | v1.0/AudioChannelSwap.java:110-121 | item c of frame k of the result is item c of the effect on frame k |
| Frames.MapFramesTwice | v1.0/AudioChannelSwap.java:110-121 | a frame map of an involution, applied twice, gives the input back |
| Frames.MapFramesMultiset | v1.0/AudioChannelSwap.java:116-119 | a frame map that only rearranges each frame rearranges the whole block |
| Stream.ReadWindow | v1.0/AudioBitCrush.java:115-125 | a read gives the file's byte at every position inside the file and zero past its end |
| Stream.ReadSplit | v1.0/AudioBitCrush.java:113-132 | two adjacent reads give the bytes of one longer read |
| Pipeline.BufferSizesExact | v1.0/AudioBaseClass.java:100-101 | for every 16-bit channel count the `int` sizing does not wrap: a buffer holds 512 × n samples and 512 whole frames of bytes |
| Pipeline.BlockCount | v1.0/AudioBitCrush.java:113-132 | the forward loop reads at least one buffer when there is data, and just enough buffers to pass the end |
| Pipeline.ForwardIsMap | v1.0/AudioBitCrush.java:113-153 | the forward loop's scratch bytes are its buffer transform mapped over the data window rounded up to whole buffers |
| Pipeline.ForwardLength | v1.0/AudioBitCrush.java:113-153 | with a size-keeping transform the scratch holds ceil((end - begin) / B) × B bytes |
| Pipeline.BlockwiseEffect | v1.0/AudioChannelSwap.java:82-142 | buffer boundaries do not matter to a frame-by-frame effect: it acts on every frame of the whole window |
| Pipeline.Padded | v1.0/AudioBaseClass.java:559-598 | the copied scratch is ceil(S / B) × B bytes long, starts with the scratch bytes and is zero after them |
| Pipeline.CopyBlocks | v1.0/AudioBaseClass.java:559-598 | the copy loop writes exactly the scratch bytes padded with zeros to whole buffers |
| BitCrush.SetCutoff | v1.0/AudioBitCrush.java:26-67 | the call succeeds exactly when the format is known and 0 <= level < 15 (16-bit) or 23 (24-bit); on failure the mask is unchanged, on success it is 2^level - 1 |
| BitCrush.MaskUpToValue | v1.0/AudioBitCrush.java:57-64 | setting bits 0 to c - 1 one at a time gives 2^c - 1 |
| BitCrush.CrushRoundsDown | v1.0/AudioBitCrush.java:134-139 | `sample & ~(2^c - 1)` is the largest multiple of 2^c not above the sample |
| BitCrush.CrushDefault | v1.0/AudioBitCrush.java:14 | the default mask leaves every sample as it is |
| BitCrush.CrushIdempotent | v1.0/AudioBitCrush.java:185-190 | masking twice is masking once |
| BitCrush.CrushInRange | v1.0/AudioBitCrush.java:185-190 | with an accepted level a masked sample stays in the sample range |
| BitCrush.CrushBlock | v1.0/AudioBitCrush.java:134-139 | every sample of the block is masked and the length is kept |
| BitCrush.CrushBlockLossless | v1.0/AudioBitCrush.java:185-190 | with an accepted level, masked samples written and read back are unchanged |
| BitCrush.CrushBlockDefault | v1.0/AudioBitCrush.java:14 | with the default mask the block is unchanged |
| BitCrush.CrushAsFrames | v1.0/AudioBitCrush.java:134-139 | the masking is a frame map over frames of one sample |
| ChannelSubtract.MonoSumWraps | v1.0/AudioChannelSubtract.java:115-120 | the running `int` sum of a frame is its exact sum wrapped to 32 bits |
| ChannelSubtract.Clamp | v1.0/AudioChannelSubtract.java:131-133 | the result is in the sample range; in-range values are kept and values outside go to the nearer limit |
| ChannelSubtract.SubtractEach | v1.0/AudioChannelSubtract.java:122-134 | every channel of the frame is replaced by its own clamped `(s·n - mono) / n` |
| ChannelSubtract.SubtractFrameAt | v1.0/AudioChannelSubtract.java:113-135 | channel c of the new frame is computed from channel c and the `int` sum of the frame |
| ChannelSubtract.SubtractInRange | v1.0/AudioChannelSubtract.java:223-224 | every sample the effect writes is in range, whatever the input |
| ChannelSubtract.ExactChannels | v1.0/AudioChannelSubtract.java:219-221 | the largest channel count `n` with `n` times the width of the sample range below 2^31 (32768 for 16-bit, 128 for 24-bit), a count up to which no `int` step of the formula wraps |
| ChannelSubtract.SubtractExact | v1.0/AudioChannelSubtract.java:207-224 | up to that count each channel is the clamped truncating quotient `(s·n - Σ) / n` of exact integers |
| ChannelSubtract.EqualFrameSilent | v1.0/AudioChannelSubtract.java:122-134 | a frame whose channels are all equal becomes all zeros |
| ChannelSubtract.Stereo | v1.0/AudioChannelSubtract.java:113-135 | for stereo the new left is `(L - R) / 2` truncated and the new right is its negation, with no clamping |
| ChannelSubtract.StereoExample | v1.0/AudioChannelSubtract.java:113-135 | L = 100, R = 40 gives 30, -30 |
| ChannelSubtract.SubtractIndex | v1.0/AudioChannelSubtract.java:113-135 | channel c of frame k of the block is the effect on that channel with its own frame's sum: frames are independent |
| ChannelSwap.SwapFrameIsReverse | v1.0/AudioChannelSwap.java:112-120 | a swapped frame is the frame in reverse order |
| ChannelSwap.SwapIndex | v1.0/AudioChannelSwap.java:110-121 | sample c of frame k of the output is sample n - 1 - c of frame k of the input |
| ChannelSwap.SwapTwice | v1.0/AudioChannelSwap.java:189-200 | swapping twice gives the input back |
| ChannelSwap.SwapPermutes | v1.0/AudioChannelSwap.java:116-119 | the output is a permutation of the input and stays in range |
| ChannelSwap.SwapStereo | v1.0/AudioChannelSwap.java:114-119 | for stereo left and right are exchanged |
| ChannelSwap.SwapKeepsMiddle | v1.0/AudioChannelSwap.java:114-119 | for an odd channel count the middle channel is unchanged |
| Reverse.RemainderFrames | v1.0/AudioReverse.java:77-81 | the frames left over after whole buffers, fewer than 512 |
| Reverse.ScheduleSizes | v1.0/AudioReverse.java:77-99 | the data splits into stray bytes, whole buffers of 512 frames and the remainder block of whole frames |
| Reverse.RemainderBytesWidth | v1.0/AudioReverse.java:162-168 | the remainder size in bytes is the same whether computed from samples or from frame bytes |
| Reverse.ReverseBlockBytes | v1.0/AudioReverse.java:118-142 | a block's samples with their frames reversed, re-encoded, are its byte frames reversed |
| Reverse.ReverseEffectReverses | v1.0/AudioReverse.java:280-304 | the loop's buffer transform reverses the frames of every buffer |
| Reverse.BackwardLoopReverses | v1.0/AudioReverse.java:259-317 | walking whole buffers backwards from the top writes the frame reversal of the region they cover |
| Reverse.BackwardSchedule | v1.0/AudioReverse.java:99-155 | the remainder block followed by the backward walk is the frame reversal of the data after its stray bytes |
| Reverse.RemainderBlock | v1.0/AudioReverse.java:99-142 | the remainder block is whole frames at the end of the data, and the effect reverses them |
| Reverse.ReverseScratchIsReverse | v1.0/AudioReverse.java:75-321 | the scratch bytes are the frame reversal of the data after its stray leading bytes |
| Reverse.ReverseAligned | v1.0/AudioReverse.java:75-321 | for data of whole frames the scratch bytes are the frame reversal of all the data, and as long |
| Reverse.ReverseAlignedTwice | v1.0/AudioReverse.java:287-297 | reversing those scratch bytes once more gives the data back |
| Runs.Process | v1.0/AudioReverse.java:25-73 | a run past `initialize` never reports a header failure, and a written output starts with the 44-byte header the writer emits for the input's parameters, which declares no more data than follows it |
| Runs.ProcessRefusals | v1.0/AudioChannelSubtract.java:29-39 | subtract and swap refuse exactly the files with fewer than two channels; Reverse divides by zero exactly with no channels; only the bit-crush of data with no channels loops forever; every other run writes an output, mono included for Reverse |
| Runs.Run | v1.0/AudioBaseClass.java:80-104 | a run fails at the header exactly when the reader refuses the file, with the reader's error |
| Runs.BufferBytesZero | v1.0/AudioBaseClass.java:100-101 | the buffer is 512 frames of bytes, empty exactly when there are no channels |
| Runs.ProcessWritten | v1.0/AudioBaseClass.java:518-557 | a run the guards accept writes the header for the scratch bytes, then the scratch bytes padded to whole buffers |
| Runs.PaddedWhole | v1.0/AudioBaseClass.java:563-595 | scratch bytes of whole buffers are copied without padding |
| Runs.DataWindow | v1.0/AudioBitCrush.java:113-132 | the window the forward loop reads is whole buffers covering the data range, less than one buffer past its end |
| Runs.ForwardProcess | v1.0/AudioChannelSwap.java:82-142 | the output of a forward effect is the header for the rewritten window, then every frame of the window's samples rewritten |
| Runs.BitCrushRun | v1.0/AudioBitCrush.java:70-156 | the bit-crush writes the masked samples of the data window |
| Runs.ChannelSubtractRun | v1.0/AudioChannelSubtract.java:25-159 | channel subtract writes the data window with the mean taken out of every frame |
| Runs.ChannelSwapRun | v1.0/AudioChannelSwap.java:25-145 | channel swap writes the data window with every frame's channels reversed |
| Runs.ReverseRun | v1.0/AudioReverse.java:25-73 | Reverse writes the frame reversal of the data after its stray bytes, padded to whole buffers |
| Runs.OutputReadsBack | v1.0/AudioBaseClass.java:425-465 | an output header reads back as the input's format, channel count and sample rate, with the data right after it |
| Runs.HeaderedReadsBack | v1.0/AudioBaseClass.java:323-465 | any bytes that begin with a header written for the input's parameters read back as that format, channel count and sample rate, with data at 44 |
| Runs.ProcessKeepsParameters | v1.0/AudioBaseClass.java:518-557 | every run the guards let through is written, and its output declares the input's format, channel count and sample rate, with data at offset 44 |

## Left out

- `Main.java` and `FileManager.java`: the interactive menu and file-system calls; no audio logic.
- `fileExtCheck`: it prompts on standard input.
- Opening, closing, seeking and measuring files, and every I/O error (`ERROR_NOFILE`, `ERROR_GENERIC`): files are byte sequences, so reads and writes cannot fail.
- The swallowed write failure in the copy loop: with no write failures there is nothing to swallow.
- The `status` field across calls (`initialize` twice, `deinitialize`, `runDSP` before `initialize`): a run is one pure function of the input file. For `setCutoff` only the sample format it needs is modelled, as `BitCrush.FormatState`.
- Error message texts.
- `NumUtils` is not part of this model. The decoders and encoders are the conventional little-endian two's-complement ones, defined in `Codec`. An index outside the 4096-byte header window is an `IndexOutOfBounds` outcome, as a Java array access would throw.
- Pipeline.FrameEffect: a buffer whose byte count is not whole frames is left unchanged. Every buffer the loops read has `bufferSizeBytes` bytes, which is whole frames, so that branch is unreachable.
