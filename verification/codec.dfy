/** The little-endian integer codec the effects rely on: unsigned 16/32-bit
    reads, signed 16/24-bit reads, and writers that keep the low 16, 24 or 32
    bits of a Java `int`. Bytes are unsigned numbers 0..255. */
module Codec {
  import opened Arith

  type Byte = b: int | 0 <= b < 256

  function Pow256(k: nat): (p: nat)
    ensures p >= 1
    ensures k > 0 ==> p % 2 == 0
  {
    if k == 0 then 1 else 256 * Pow256(k - 1)
  }

  /** The powers of 256 the field readers use. */
  lemma Pow256Values()
    ensures Pow256(2) == 0x1_0000 && Pow256(3) == 0x100_0000 && Pow256(4) == 0x1_0000_0000
  {
  }

  /** The unsigned value of a byte string read least significant byte first. */
  function LeValue(s: seq<Byte>): (v: nat)
    ensures v < Pow256(|s|)
  {
    if |s| == 0 then 0 else s[0] + 256 * LeValue(s[1..])
  }

  /** The `k` lowest bytes of the two's-complement pattern of `v`, least
      significant first: what a Java writer stores for a 16-, 24- or 32-bit field. */
  function LeBytes(v: int, k: nat): (s: seq<Byte>)
    ensures |s| == k
    ensures LeValue(s) == v % Pow256(k)
    decreases k
  {
    if k == 0 then []
    else
      DivDiv(v, 256, Pow256(k - 1));
      [v % 256] + LeBytes(v / 256, k - 1)
  }

  /** Writing back the value of a byte string gives the same bytes. */
  lemma {:induction false} LeBytesOfValue(s: seq<Byte>)
    ensures LeBytes(LeValue(s), |s|) == s
  {
    if |s| > 0 {
      var v := LeValue(s);
      DivModUnique(v, 256, LeValue(s[1..]), s[0]);
      LeBytesOfValue(s[1..]);
      assert LeBytes(v, |s|) == [s[0]] + s[1..];
    }
  }

  /** Byte strings of one length with one value are the same string. */
  lemma LeValueInjective(s: seq<Byte>, t: seq<Byte>)
    requires |s| == |t| && LeValue(s) == LeValue(t)
    ensures s == t
  {
    LeBytesOfValue(s);
    LeBytesOfValue(t);
  }

  /** Two values that agree modulo 256^k are written as the same `k` bytes. */
  lemma LeBytesCongruent(v: int, w: int, k: nat)
    requires (v - w) % Pow256(k) == 0
    ensures LeBytes(v, k) == LeBytes(w, k)
  {
    var m := Pow256(k);
    ModAddMultiple(w, (v - w) / m, m);
    assert v == w + (v - w) / m * m;
    LeValueInjective(LeBytes(v, k), LeBytes(w, k));
  }

  /** A two's-complement reading of an unsigned field of modulus `m`. */
  function ToSigned(u: int, m: int): (v: int)
    requires m > 0 && m % 2 == 0 && 0 <= u < m
    ensures -(m / 2) <= v < m / 2
    ensures (u - v) % m == 0
  {
    if u >= m / 2 then u - m else u
  }

  /** Unsigned 16-bit field at byte `i`. */
  function U16At(b: seq<Byte>, i: int): (v: int)
    requires 0 <= i && i + 2 <= |b|
    ensures 0 <= v < 0x1_0000
    ensures v == b[i] as int + 256 * b[i + 1] as int
  {
    var s := b[i..i + 2];
    assert LeValue(s[1..]) == s[1] + 256 * LeValue(s[2..]);
    LeValue(s)
  }

  /** Unsigned 32-bit field at byte `i`. */
  function U32At(b: seq<Byte>, i: int): (v: int)
    requires 0 <= i && i + 4 <= |b|
    ensures 0 <= v < 0x1_0000_0000
    ensures v == b[i] as int + 256 * (b[i + 1] as int + 256 * (b[i + 2] as int + 256 * b[i + 3] as int))
  {
    var s := b[i..i + 4];
    assert LeValue(s[3..]) == s[3] + 256 * LeValue(s[4..]);
    assert LeValue(s[2..]) == s[2] + 256 * LeValue(s[3..]);
    assert LeValue(s[1..]) == s[1] + 256 * LeValue(s[2..]);
    LeValue(s)
  }

  /** Signed 16-bit sample at byte `i`. */
  function I16At(b: seq<Byte>, i: int): (v: int)
    requires 0 <= i && i + 2 <= |b|
    ensures -0x8000 <= v < 0x8000
    ensures (v - U16At(b, i)) % 0x1_0000 == 0
  {
    ToSigned(U16At(b, i), 0x1_0000)
  }

  /** Signed 24-bit sample at byte `i`. */
  function I24At(b: seq<Byte>, i: int): (v: int)
    requires 0 <= i && i + 3 <= |b|
    ensures -0x80_0000 <= v < 0x80_0000
    ensures (v - LeValue(b[i..i + 3])) % 0x100_0000 == 0
  {
    ToSigned(LeValue(b[i..i + 3]), 0x100_0000)
  }

  /** Reading back what a writer stored recovers any value of the field's range. */
  lemma {:induction false} SignedRoundTrip(v: int, k: nat)
    requires 1 <= k && -(Pow256(k) / 2) <= v < Pow256(k) / 2
    ensures ToSigned(LeValue(LeBytes(v, k)), Pow256(k)) == v
  {
    var m := Pow256(k);
    assert m == 256 * Pow256(k - 1);
    if v < 0 {
      DivModUnique(v, m, -1, v + m);
    } else {
      DivModUnique(v, m, 0, v);
    }
  }

  /** A 16-bit sample reads back from its two bytes. */
  lemma I16RoundTrip(v: int)
    requires -0x8000 <= v < 0x8000
    ensures I16At(LeBytes(v, 2), 0) == v
  {
    Pow256Values();
    SignedRoundTrip(v, 2);
    assert LeBytes(v, 2)[0..2] == LeBytes(v, 2);
  }

  /** A 24-bit sample reads back from its three bytes. */
  lemma I24RoundTrip(v: int)
    requires -0x80_0000 <= v < 0x80_0000
    ensures I24At(LeBytes(v, 3), 0) == v
  {
    Pow256Values();
    SignedRoundTrip(v, 3);
    assert LeBytes(v, 3)[0..3] == LeBytes(v, 3);
  }

  /** An unsigned 16-bit value reads back from its two bytes. */
  lemma U16RoundTrip(v: int)
    requires 0 <= v < 0x1_0000
    ensures U16At(LeBytes(v, 2), 0) == v
  {
    Pow256Values();
    assert LeBytes(v, 2)[0..2] == LeBytes(v, 2);
  }

  /** Four bytes keep a value modulo 2^32. */
  lemma U32RoundTrip(v: int)
    ensures U32At(LeBytes(v, 4), 0) == v % 0x1_0000_0000
  {
    Pow256Values();
    assert LeBytes(v, 4)[0..4] == LeBytes(v, 4);
  }

  /** Decoding a 16-bit sample and writing it back gives the same two bytes. */
  lemma I16Rewrite(b: seq<Byte>, i: int)
    requires 0 <= i && i + 2 <= |b|
    ensures LeBytes(I16At(b, i), 2) == b[i..i + 2]
  {
    Pow256Values();
    LeBytesCongruent(I16At(b, i), U16At(b, i), 2);
    LeBytesOfValue(b[i..i + 2]);
  }

  /** Decoding a 24-bit sample and writing it back gives the same three bytes. */
  lemma I24Rewrite(b: seq<Byte>, i: int)
    requires 0 <= i && i + 3 <= |b|
    ensures LeBytes(I24At(b, i), 3) == b[i..i + 3]
  {
    Pow256Values();
    LeBytesCongruent(I24At(b, i), LeValue(b[i..i + 3]), 3);
    LeBytesOfValue(b[i..i + 3]);
  }

  /** The bytes of a character string whose characters are all ASCII. */
  function Ascii(t: string): (r: seq<Byte>)
    requires forall j :: 0 <= j < |t| ==> t[j] as int < 128
    ensures |r| == |t|
    ensures forall j :: 0 <= j < |t| ==> r[j] == t[j] as int
  {
    if |t| == 0 then [] else [t[0] as int] + Ascii(t[1..])
  }
}
