/** Files as byte sequences. A read of `len` bytes at `pos` into a zeroed
    buffer returns what the file holds there and zeros past its end, because
    the end-of-file exception of a short read is ignored. */
module Stream {
  import opened Arith
  import opened Codec

  function Zeros(n: nat): (z: seq<Byte>)
    ensures |z| == n
    ensures forall j :: 0 <= j < n ==> z[j] == 0
  {
    seq(n, j => 0)
  }

  /** The buffer after reading `len` bytes of `file` from offset `pos`. */
  function ReadWindow(file: seq<Byte>, pos: nat, len: nat): (w: seq<Byte>)
    ensures |w| == len
    ensures forall j :: 0 <= j < len ==> w[j] == if pos + j < |file| then file[pos + j] else 0
    decreases len
  {
    if len == 0 then [] else [if pos < |file| then file[pos] else 0] + ReadWindow(file, pos + 1, len - 1)
  }

  /** A read that stays inside the file is a plain slice. */
  lemma ReadInside(file: seq<Byte>, pos: nat, len: nat)
    requires pos + len <= |file|
    ensures ReadWindow(file, pos, len) == file[pos..pos + len]
  {
    assert forall j :: 0 <= j < len ==> ReadWindow(file, pos, len)[j] == file[pos..pos + len][j];
  }

  /** Two adjacent reads give the same bytes as one longer read. */
  lemma ReadSplit(file: seq<Byte>, pos: nat, a: nat, b: nat)
    ensures ReadWindow(file, pos, a + b) == ReadWindow(file, pos, a) + ReadWindow(file, pos + a, b)
  {
    var whole, left, right := ReadWindow(file, pos, a + b), ReadWindow(file, pos, a), ReadWindow(file, pos + a, b);
    forall j | 0 <= j < a + b
      ensures whole[j] == (left + right)[j]
    {
      if j >= a {
        assert right[j - a] == if pos + a + (j - a) < |file| then file[pos + a + (j - a)] else 0;
      }
    }
  }

  /** The same, cut `b` bytes before the end of a read of `total` bytes. */
  lemma ReadSplitTop(file: seq<Byte>, pos: nat, total: nat, b: nat)
    requires b <= total
    ensures ReadWindow(file, pos, total) == ReadWindow(file, pos, total - b) + ReadWindow(file, pos + (total - b), b)
  {
    ReadSplit(file, pos, total - b, b);
  }

  /** Blocks of `d` needed to cover `x` items: the ceiling of `x / d`. */
  function CeilDiv(x: nat, d: nat): (q: nat)
    requires d > 0
    ensures q * d >= x
    ensures q == 0 || (q - 1) * d < x
  {
    var r := (x + d - 1) / d;
    assert x + d - 1 == r * d + (x + d - 1) % d;
    r
  }

  /** Fewer than `CeilDiv(x, d)` blocks do not cover `x` items ... */
  lemma CeilDivAbove(x: nat, d: nat, i: nat)
    requires d > 0 && i * d < x
    ensures i < CeilDiv(x, d)
  {
    var q := CeilDiv(x, d);
    if i >= q {
      MulMono(q, i, d);
    }
  }

  /** ... and `CeilDiv(x, d)` is the least number of blocks that does. */
  lemma CeilDivLeast(x: nat, d: nat, i: nat)
    requires d > 0 && i * d >= x
    ensures CeilDiv(x, d) <= i
  {
    var q := CeilDiv(x, d);
    if q > i {
      MulMono(i, q - 1, d);
    }
  }
}
