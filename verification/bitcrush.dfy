/** The bit-crush effect: a mask of the `c` lowest bits, chosen once by
    `setCutoff`, is cleared from every sample of the audio data. */
module BitCrush {
  import opened Arith
  import opened JavaInt
  import opened Samples
  import opened Frames

  /** What the effect knows of the input when the cut-off is set: nothing
      before a successful initialisation, the sample format after it. */
  datatype FormatState = Uninitialized | Initialized(format: Format)

  /** The mask the effect starts with: no bit is cleared. */
  const DefaultMask: int := 0

  /** The first refused cut-off level: 15 for 16-bit and 23 for 24-bit samples,
      one below the bit depth. */
  function CutoffLimit(f: Format): (limit: nat)
    ensures limit == BitDepth(f) - 1
  {
    match f
    case I16 => 15
    case I24 => 23
  }

  /** The mask after setting bits 0 to c - 1 one at a time with `mask |= 1 << b`. */
  function MaskUpTo(c: nat): int
  {
    if c == 0 then 0 else Or(MaskUpTo(c - 1), ShiftLeft(1, c - 1))
  }

  /** The loop builds the run of `c` low one bits, 2^c - 1. */
  lemma {:induction false} MaskUpToValue(c: nat)
    requires c <= 31
    ensures MaskUpTo(c) == Pow2(c) - 1
  {
    if c > 0 {
      var b := c - 1;
      MaskUpToValue(b);
      Pow2Of31();
      Pow2Monotone(c, 31);
      assert ShiftLeft(1, b) == Pow2(b) by {
        DivModUnique(b, 32, 0, b);
      }
      var p := Pow2(b);
      assert p < TwoTo31;
      UnsignedOfSmall(p - 1);
      UnsignedOfSmall(p);
      assert Pow2(c) == 2 * p;
      OrNextBit(b);
    }
  }

  /** What `setCutoff` returns and the mask it leaves behind. */
  datatype CutoffResult = CutoffResult(ok: bool, mask: int)

  /** Sets the cut-off level: refused without a known format, for a negative
      level, or for a level at or above the format's limit, in which case the
      mask is left as it was; otherwise the mask becomes 2^level - 1. */
  function SetCutoff(state: FormatState, level: int, mask: int): (r: CutoffResult)
    ensures r.ok <==> state.Initialized? && 0 <= level < CutoffLimit(state.format)
    ensures !r.ok ==> r.mask == mask
    ensures r.ok ==> r.mask == Pow2(level) - 1
  {
    match state
    case Uninitialized => CutoffResult(false, mask)
    case Initialized(f) =>
      if level < 0 then CutoffResult(false, mask)
      else if level >= CutoffLimit(f) then CutoffResult(false, mask)
      else
        MaskUpToValue(level);
        CutoffResult(true, MaskUpTo(level))
  }

  /** One sample after `sample &= ~mask`. */
  function Crush(mask: int, s: int): int
  {
    And(s, Not(mask))
  }

  /** With the mask of `c` low bits, a sample becomes the largest multiple of
      2^c not above it: its low `c` bits are cleared and the rest kept. */
  lemma CrushRoundsDown(c: nat, s: int)
    requires IsInt(s) && c <= 31
    ensures Crush(Pow2(c) - 1, s) == s - s % Pow2(c)
    ensures Crush(Pow2(c) - 1, s) % Pow2(c) == 0
    ensures Crush(Pow2(c) - 1, s) <= s < Crush(Pow2(c) - 1, s) + Pow2(c)
  {
    AndNotLowOnes(s, c);
    RoundDownMultiple(s, Pow2(c));
  }

  /** The default mask leaves every sample as it is. */
  lemma CrushDefault(s: int)
    requires IsInt(s)
    ensures Crush(DefaultMask, s) == s
  {
    CrushRoundsDown(0, s);
    assert Pow2(0) - 1 == DefaultMask;
    assert s % Pow2(0) == 0;
  }

  /** Crushing twice with the same mask is crushing once. */
  lemma CrushIdempotent(c: nat, s: int)
    requires IsInt(s) && c <= 31
    ensures Crush(Pow2(c) - 1, Crush(Pow2(c) - 1, s)) == Crush(Pow2(c) - 1, s)
  {
    var r := Crush(Pow2(c) - 1, s);
    CrushRoundsDown(c, s);
    RoundDownStaysInt(s, c);
    CrushRoundsDown(c, r);
  }

  /** A crushed sample of an accepted level stays in the sample range, so it
      is written back without loss. */
  lemma CrushInRange(f: Format, c: nat, s: int)
    requires InRange(f, s) && c < CutoffLimit(f)
    ensures InRange(f, Crush(Pow2(c) - 1, s))
  {
    var k := BitDepth(f) - 1;
    Pow2Values();
    assert MinSample(f) == -(Pow2(k) as int) by {
      match f
      case I16 =>
      case I24 =>
    }
    NegPow2Multiple(c, k);
    Pow2Monotone(k, 31);
    CrushRoundsDown(c, s);
    RoundDownAtLeast(s, MinSample(f), Pow2(c));
  }

  /** The samples of a block after the per-sample AND. */
  function CrushBlock(mask: int, xs: seq<int>): (ys: seq<int>)
    ensures |ys| == |xs|
    ensures forall i :: 0 <= i < |xs| ==> ys[i] == Crush(mask, xs[i])
  {
    if |xs| == 0 then [] else [Crush(mask, xs[0])] + CrushBlock(mask, xs[1..])
  }

  /** Crushing a block at an accepted level keeps it in range, so encoding
      and decoding it again gives back the crushed samples. */
  lemma CrushBlockLossless(f: Format, c: nat, xs: seq<int>)
    requires AllInRange(f, xs) && c < CutoffLimit(f)
    ensures AllInRange(f, CrushBlock(Pow2(c) - 1, xs))
    ensures Decode(f, Encode(f, CrushBlock(Pow2(c) - 1, xs))) == CrushBlock(Pow2(c) - 1, xs)
  {
    var ys := CrushBlock(Pow2(c) - 1, xs);
    forall i | 0 <= i < |xs|
      ensures InRange(f, ys[i])
    {
      CrushInRange(f, c, xs[i]);
    }
    DecodeEncode(f, ys);
  }

  /** The per-sample AND as a rewrite of frames of one sample. */
  function CrushEffect(mask: int): seq<int> -> seq<int>
  {
    xs => CrushBlock(mask, xs)
  }

  /** Cutting the samples into frames of one sample and crushing each frame
      crushes the whole block. */
  lemma {:induction false} CrushAsFrames(mask: int, xs: seq<int>)
    ensures Framed(1, xs) && KeepsWidth(1, CrushEffect(mask))
    ensures MapFrames(1, CrushEffect(mask), xs) == CrushBlock(mask, xs)
    decreases |xs|
  {
    if |xs| > 0 {
      FrameTail(1, xs);
      CrushAsFrames(mask, xs[1..]);
      assert CrushBlock(mask, xs[..1]) == [Crush(mask, xs[0])];
      assert CrushBlock(mask, xs) == [Crush(mask, xs[0])] + CrushBlock(mask, xs[1..]);
    }
  }

  /** With the default mask a block comes out unchanged. */
  lemma CrushBlockDefault(f: Format, xs: seq<int>)
    requires AllInRange(f, xs)
    ensures CrushBlock(DefaultMask, xs) == xs
  {
    forall i | 0 <= i < |xs|
      ensures CrushBlock(DefaultMask, xs)[i] == xs[i]
    {
      CrushDefault(xs[i]);
    }
  }
}
