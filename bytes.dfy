/** Bytes, fixed-width unsigned integers and the little-endian encoding the
    ArtworkDB builder writes them in. */
module Bytes {

  type byte = x: int | 0 <= x < 0x100
  type u32 = x: int | 0 <= x < 0x1_0000_0000
  type u64 = x: int | 0 <= x < 0x1_0000_0000_0000_0000

  const U32Limit: nat := 0x1_0000_0000

  /** 256 to the power k: the number of values that fit in k bytes. */
  function Pow256(k: nat): (r: nat)
    ensures r > 0
  {
    if k == 0 then 1 else 256 * Pow256(k - 1)
  }

  lemma Pow256Widths()
    ensures Pow256(4) == U32Limit
    ensures Pow256(8) == 0x1_0000_0000_0000_0000
  {
  }

  /** The value of a byte sequence read little-endian: the first byte is the
      least significant one. */
  function DecodeLE(s: seq<byte>): nat
  {
    if s == [] then 0 else s[0] + 256 * DecodeLE(s[1..])
  }

  /** A k-byte run reads as a value below 256^k. */
  lemma {:induction false} DecodeBound(s: seq<byte>)
    ensures DecodeLE(s) < Pow256(|s|)
  {
    if s != [] {
      DecodeBound(s[1..]);
    }
  }

  /** The `width` least significant bytes of `v`, least significant first. */
  function EncodeLE(v: nat, width: nat): (r: seq<byte>)
    requires v < Pow256(width)
    ensures |r| == width
  {
    if width == 0 then [] else [v % 256] + EncodeLE(v / 256, width - 1)
  }

  /** Decoding undoes encoding. */
  lemma {:induction false} EncodeDecode(v: nat, width: nat)
    requires v < Pow256(width)
    ensures DecodeLE(EncodeLE(v, width)) == v
  {
    if width > 0 {
      EncodeDecode(v / 256, width - 1);
      assert EncodeLE(v, width)[1..] == EncodeLE(v / 256, width - 1);
    }
  }

  /** The four bytes `Data.append(uint32LE:)` writes for `v`. */
  function LE32(v: u32): (r: seq<byte>)
    ensures |r| == 4
  {
    Pow256Widths();
    EncodeLE(v, 4)
  }

  /** The eight bytes `Data.append(uint64LE:)` writes for `v`. */
  function LE64(v: u64): (r: seq<byte>)
    ensures |r| == 8
  {
    Pow256Widths();
    EncodeLE(v, 8)
  }

  lemma LE32Decodes(v: u32)
    ensures DecodeLE(LE32(v)) == v
  {
    Pow256Widths();
    EncodeDecode(v, 4);
  }

  lemma LE64Decodes(v: u64)
    ensures DecodeLE(LE64(v)) == v
  {
    Pow256Widths();
    EncodeDecode(v, 8);
  }

  /** Appending a 32-bit field adds exactly four bytes, they read back as
      the value, and the bytes before them are unchanged. */
  lemma AppendedLE32(p: seq<byte>, v: u32)
    ensures |p + LE32(v)| == |p| + 4
    ensures (p + LE32(v))[..|p|] == p
    ensures DecodeLE((p + LE32(v))[|p|..]) == v
  {
    assert (p + LE32(v))[|p|..] == LE32(v);
    LE32Decodes(v);
  }

  /** The same for a 64-bit field and eight bytes. */
  lemma AppendedLE64(p: seq<byte>, v: u64)
    ensures |p + LE64(v)| == |p| + 8
    ensures (p + LE64(v))[..|p|] == p
    ensures DecodeLE((p + LE64(v))[|p|..]) == v
  {
    assert (p + LE64(v))[|p|..] == LE64(v);
    LE64Decodes(v);
  }

  /** The buffer `Data(count: n)` appends: n zero bytes. */
  function Zeros(n: nat): (r: seq<byte>)
    ensures |r| == n
    ensures forall k | 0 <= k < n :: r[k] == 0
  {
    seq(n, _ => 0)
  }

  /** The bytes of an ASCII string, as `String.utf8` yields them. */
  function AsciiBytes(s: string): (r: seq<byte>)
    requires forall k | 0 <= k < |s| :: s[k] < 128 as char
    ensures |r| == |s|
    ensures forall k | 0 <= k < |s| :: r[k] == s[k] as int
  {
    seq(|s|, k requires 0 <= k < |s| => s[k] as int)
  }

  /** Concatenation is associative; stated for whole runs so that proofs can
      regroup long concatenations without comparing them byte by byte. */
  lemma ConcatAssoc(a: seq<byte>, b: seq<byte>, c: seq<byte>)
    ensures a + b + c == a + (b + c)
  {
  }

  // Slicing concatenations, stated once over plain runs so that larger
  // proofs can use them without comparing sequences element by element.

  lemma SliceLeft(x: seq<byte>, y: seq<byte>, i: nat, j: nat)
    requires i <= j <= |x|
    ensures (x + y)[i..j] == x[i..j]
  {
  }

  lemma SliceRight(x: seq<byte>, y: seq<byte>, i: nat, j: nat)
    requires i <= j <= |y|
    ensures (x + y)[|x| + i .. |x| + j] == y[i..j]
  {
  }

  lemma SliceOfSlice(s: seq<byte>, off: nat, len: nat, i: nat, j: nat)
    requires off + len <= |s| && i <= j <= len
    ensures s[off..off + len][i..j] == s[off + i .. off + j]
  {
    var a, b := s[off..off + len][i..j], s[off + i .. off + j];
    assert forall k | 0 <= k < |a| :: a[k] == b[k];
  }

  /** A suffix of `s`, cut again at `h`. */
  lemma SuffixSplit(s: seq<byte>, off: nat, h: nat)
    requires off + h <= |s|
    ensures s[off..][..h] == s[off..off + h]
    ensures s[off..][h..] == s[off + h..]
  {
  }

  /** Six pieces written one after the other, regrouped to the right. */
  lemma Regroup(a: seq<byte>, b: seq<byte>, c: seq<byte>, d: seq<byte>, e: seq<byte>, f: seq<byte>)
    ensures a + b + c + d + e + f == a + (b + (c + (d + (e + f))))
  {
    ConcatAssoc(a + b + c + d, e, f);
    ConcatAssoc(a + b + c, d, e + f);
    ConcatAssoc(a + b, c, d + (e + f));
    ConcatAssoc(a, b, c + (d + (e + f)));
  }

  /** Reading the concatenation of two byte runs: the second run carries the
      weight of the first run's width. */
  lemma {:induction false} DecodeAppend(a: seq<byte>, b: seq<byte>)
    ensures DecodeLE(a + b) == DecodeLE(a) + Pow256(|a|) * DecodeLE(b)
  {
    if a == [] {
      assert a + b == b;
    } else {
      assert (a + b)[1..] == a[1..] + b;
      DecodeAppend(a[1..], b);
      var x, p, y := DecodeLE(a[1..]), Pow256(|a| - 1), DecodeLE(b);
      assert DecodeLE(a + b) == a[0] + 256 * (x + p * y);
      ShiftDistributes(x, p, y);
    }
  }

  lemma ShiftDistributes(x: int, p: int, y: int)
    ensures 256 * (x + p * y) == 256 * x + (256 * p) * y
  {
  }

  /** Two byte runs of one width with the same little-endian value are equal. */
  lemma {:induction false} DecodeInjective(a: seq<byte>, b: seq<byte>)
    requires |a| == |b|
    requires DecodeLE(a) == DecodeLE(b)
    ensures a == b
  {
    if a != [] {
      assert a[0] == b[0];
      DecodeInjective(a[1..], b[1..]);
      assert a == [a[0]] + a[1..] && b == [b[0]] + b[1..];
    }
  }

  /** A 64-bit little-endian field is its low 32-bit word followed by its high
      32-bit word. */
  lemma LE64Split(v: u64)
    ensures LE64(v) == LE32(v % U32Limit) + LE32(v / U32Limit)
  {
    var lo, hi := LE32(v % U32Limit), LE32(v / U32Limit);
    LE32Decodes(v % U32Limit);
    LE32Decodes(v / U32Limit);
    LE64Decodes(v);
    DecodeAppend(lo, hi);
    Pow256Widths();
    DecodeInjective(LE64(v), lo + hi);
  }

  /** Reading a 32-bit little-endian field out of a byte buffer. */
  function U32At(s: seq<byte>, off: nat): (r: nat)
    requires off + 4 <= |s|
    ensures r < U32Limit
  {
    s[off] as nat + 0x100 * s[off + 1] as nat + 0x1_0000 * s[off + 2] as nat + 0x100_0000 * s[off + 3] as nat
  }

  /** A 64-bit field: its low word, then its high word. */
  function U64At(s: seq<byte>, off: nat): nat
    requires off + 8 <= |s|
  {
    U32At(s, off) + U32Limit * U32At(s, off + 4)
  }

  /** A 64-bit value is its low word plus 2^32 times its high word. */
  lemma WordSplit(v: u64)
    ensures v % U32Limit + U32Limit * (v / U32Limit) == v
  {
  }

  /** U32At reads the four bytes at `off` little-endian. */
  lemma U32AtDecode(s: seq<byte>, off: nat)
    requires off + 4 <= |s|
    ensures U32At(s, off) == DecodeLE(s[off..off + 4])
  {
    var w := s[off..off + 4];
    var w1, w2, w3 := w[1..], w[1..][1..], w[1..][1..][1..];
    assert w3[1..] == [];
    assert DecodeLE(w3) == w[3];
    assert DecodeLE(w2) == w[2] as int + 256 * w[3] as int;
    assert DecodeLE(w1) == w[1] as int + 256 * (w[2] as int + 256 * w[3] as int);
  }

  /** The four bytes written for `v` read back as `v` wherever they are. */
  lemma ReadLE32(s: seq<byte>, off: nat, v: u32)
    requires off + 4 <= |s| && s[off..off + 4] == LE32(v)
    ensures U32At(s, off) == v
  {
    U32AtDecode(s, off);
    LE32Decodes(v);
  }

  /** The eight bytes written for `v` read back as `v` wherever they are. */
  lemma ReadLE64(s: seq<byte>, off: nat, v: u64)
    requires off + 8 <= |s| && s[off..off + 8] == LE64(v)
    ensures U64At(s, off) == v
  {
    var lo, hi := LE32(v % U32Limit), LE32(v / U32Limit);
    LE64Split(v);
    assert s[off..off + 4] == (lo + hi)[0..4];
    assert s[off + 4..off + 8] == (lo + hi)[4..8];
    ReadLE32(s, off, v % U32Limit);
    ReadLE32(s, off + 4, v / U32Limit);
  }

  /** A growable byte buffer, as Foundation's `Data` is used by the builder:
      every operation appends at the end and leaves the existing bytes alone. */
  class ByteBuffer {
    var bytes: seq<byte>

    constructor ()
      ensures bytes == []
    {
      bytes := [];
    }

    /** `append(contentsOf:)` */
    method AppendBytes(s: seq<byte>)
      modifies this
      ensures bytes == old(bytes) + s
    {
      bytes := bytes + s;
    }

    /** `append(Data(count: n))` */
    method AppendZeros(n: nat)
      modifies this
      ensures bytes == old(bytes) + Zeros(n)
    {
      bytes := bytes + Zeros(n);
    }

    /** `append(uint32LE:)`; AppendedLE32 states what this does to the buffer. */
    method AppendU32LE(value: u32)
      modifies this
      ensures bytes == old(bytes) + LE32(value)
    {
      bytes := bytes + LE32(value);
    }

    /** `append(uint64LE:)`; AppendedLE64 states what this does to the buffer. */
    method AppendU64LE(value: u64)
      modifies this
      ensures bytes == old(bytes) + LE64(value)
    {
      bytes := bytes + LE64(value);
    }
  }
}
