/** Byte-level building blocks shared by the HIS and MPX codecs: the byte type, the opaque
    4-byte float cell, reads that stop at end of file, little-endian integers, ASCII text
    fields and the right-strip applied to fixed-width names. */
module Bytes {

  newtype byte = x: int | 0 <= x < 256

  /** One float32 cell, kept as its four bytes in file order; no float arithmetic is modelled. */
  datatype Word = Word(b0: byte, b1: byte, b2: byte, b3: byte)

  const TWO16: int := 0x1_0000
  const TWO31: int := 0x8000_0000
  const TWO32: int := 0x1_0000_0000

  /** A value that struct's "i" format can hold. */
  predicate IsI32(x: int) { -TWO31 <= x < TWO31 }

  function Clamp(i: int, n: nat): (r: nat)
    ensures r <= n
    ensures 0 <= i <= n ==> r == i
  {
    if i < 0 then 0 else if i > n then n else i
  }

  /** What a read of the bytes from `lo` up to `hi` returns: it stops at end of file, so it
      may be shorter than asked, or empty. */
  function Slice(f: seq<byte>, lo: int, hi: int): (r: seq<byte>)
    requires lo <= hi
    ensures 0 <= lo <= hi <= |f| ==> r == f[lo..hi]
    ensures 0 <= lo <= |f| <= hi ==> r == f[lo..]
  {
    f[Clamp(lo, |f|)..Clamp(hi, |f|)]
  }

  /** A read of `k` bytes at a cursor that stopped at end of file is the read at the position
      the cursor would have reached; the cursor then advances to the same clamped place. */
  lemma ReadAtCursor(f: seq<byte>, x: int, k: nat)
    requires 0 <= x
    ensures Slice(f, Clamp(x, |f|), Clamp(x, |f|) + k) == Slice(f, x, x + k)
    ensures Clamp(Clamp(x, |f|) + k, |f|) == Clamp(x + k, |f|)
  {
  }

  /** Unsigned little-endian 16-bit value at `off`. */
  function U16At(f: seq<byte>, off: int): (r: int)
    requires 0 <= off && off + 2 <= |f|
    ensures 0 <= r < TWO16
  {
    f[off] as int + 0x100 * f[off + 1] as int
  }

  /** struct's "h": signed little-endian 16-bit value at `off`. */
  function I16At(f: seq<byte>, off: int): (r: int)
    requires 0 <= off && off + 2 <= |f|
    ensures -0x8000 <= r < 0x8000
    ensures r == U16At(f, off) || r == U16At(f, off) - TWO16
  {
    var u := U16At(f, off);
    if u >= 0x8000 then u - TWO16 else u
  }

  /** Unsigned little-endian 32-bit value at `off`. */
  function U32At(f: seq<byte>, off: int): (r: int)
    requires 0 <= off && off + 4 <= |f|
    ensures 0 <= r < TWO32
  {
    f[off] as int + 0x100 * f[off + 1] as int + 0x1_0000 * f[off + 2] as int
      + 0x100_0000 * f[off + 3] as int
  }

  /** struct's "i": signed little-endian 32-bit value at `off`. */
  function I32At(f: seq<byte>, off: int): (r: int)
    requires 0 <= off && off + 4 <= |f|
    ensures IsI32(r)
  {
    var u := U32At(f, off);
    if u >= TWO31 then u - TWO32 else u
  }

  /** The float32 cell whose bytes start at `off`. */
  function WordAt(f: seq<byte>, off: int): (w: Word)
    requires 0 <= off && off + 4 <= |f|
    ensures WordBytes(w) == f[off..off + 4]
  {
    Word(f[off], f[off + 1], f[off + 2], f[off + 3])
  }

  function WordBytes(w: Word): (r: seq<byte>)
    ensures |r| == 4
  {
    [w.b0, w.b1, w.b2, w.b3]
  }

  /** struct.pack("i", x): the four little-endian bytes of a 32-bit two's-complement value
      (the low 32 bits of x; pack itself refuses an x that is not a 32-bit value, and the
      writer checks for that first). */
  function EncodeI32(x: int): (r: seq<byte>)
    ensures |r| == 4
  {
    var u := x % TWO32;
    [(u % 0x100) as byte, (u / 0x100 % 0x100) as byte, (u / 0x1_0000 % 0x100) as byte,
     (u / 0x100_0000) as byte]
  }

  /** Packing a 32-bit value and unpacking it at any position gives the value back. */
  lemma I32RoundTrip(x: int, f: seq<byte>, off: nat)
    requires IsI32(x)
    requires off + 4 <= |f| && f[off..off + 4] == EncodeI32(x)
    ensures I32At(f, off) == x
  {
    var u := x % TWO32;
    assert u == if x < 0 then x + TWO32 else x;
    var b := EncodeI32(x);
    assert f[off] == b[0] && f[off + 1] == b[1] && f[off + 2] == b[2] && f[off + 3] == b[3] by {
      assert f[off..off + 4][0] == f[off] && f[off..off + 4][1] == f[off + 1];
      assert f[off..off + 4][2] == f[off + 2] && f[off..off + 4][3] == f[off + 3];
    }
    var q1 := u / 0x100;
    var q2 := q1 / 0x100;
    var q3 := q2 / 0x100;
    assert u == u % 0x100 + 0x100 * q1;
    assert q1 == q1 % 0x100 + 0x100 * q2;
    assert q2 == q2 % 0x100 + 0x100 * q3;
    assert u / 0x1_0000 == q2;
    assert u / 0x100_0000 == q3;
    assert U32At(f, off) == u;
  }

  /** bytes.isspace(): the ASCII whitespace that bytes.rstrip() removes. */
  predicate IsByteSpace(b: byte) { b == 32 || 9 <= b <= 13 }

  /** bytes.rstrip(): the longest prefix that does not end in whitespace, with only whitespace
      after it. */
  function RStrip(b: seq<byte>): seq<byte>
    decreases |b|
  {
    if b != [] && IsByteSpace(b[|b| - 1]) then RStrip(b[..|b| - 1]) else b
  }

  lemma {:induction false} RStripFacts(b: seq<byte>)
    ensures RStrip(b) <= b
    ensures RStrip(b) == [] || !IsByteSpace(RStrip(b)[|RStrip(b)| - 1])
    ensures forall i :: |RStrip(b)| <= i < |b| ==> IsByteSpace(b[i])
    decreases |b|
  {
    if b != [] && IsByteSpace(b[|b| - 1]) {
      RStripFacts(b[..|b| - 1]);
    }
  }

  predicate IsAscii(b: seq<byte>) { forall i :: 0 <= i < |b| ==> b[i] < 128 }

  predicate IsAsciiText(s: string) { forall i :: 0 <= i < |s| ==> s[i] as int < 128 }

  /** Bytes read as text, one character per byte (the decoding of ASCII bytes). */
  function ToText(b: seq<byte>): (s: string)
    ensures |s| == |b|
    ensures IsAscii(b) ==> IsAsciiText(s)
    ensures forall i :: 0 <= i < |b| ==> s[i] as int == b[i] as int
  {
    seq(|b|, i requires 0 <= i < |b| => (b[i] as int) as char)
  }

  /** str.encode("ascii") of text that is ASCII (on other text encode() raises, and the
      callers check for that first; the low byte of each code point stands in there). */
  function ToBytes(s: string): (b: seq<byte>)
    ensures |b| == |s|
    ensures IsAsciiText(s) ==> IsAscii(b)
    ensures IsAsciiText(s) ==> forall i :: 0 <= i < |s| ==> b[i] as int == s[i] as int
  {
    seq(|s|, i requires 0 <= i < |s| => (s[i] as int % 256) as byte)
  }

  /** Encoding ASCII text and decoding it again gives the text back. */
  lemma TextRoundTrip(s: string)
    requires IsAsciiText(s)
    ensures ToText(ToBytes(s)) == s
  {
  }
}
