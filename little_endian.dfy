/**
 * Little-endian integer fields, as the header of a BMP file stores them.
 * The source reads and writes them with `fread`/`fwrite` of a host `unsigned int`
 * or `short`, which assumes a little-endian host; the model spells the byte order out.
 */
module LittleEndian {

  /** One byte of a file or of a pixel buffer. */
  type byte = x: int | 0 <= x < 256

  const TwoTo16: nat := 0x1_0000
  const TwoTo32: nat := 0x1_0000_0000

  /** The unsigned 16-bit value stored at `s[at]` (low byte) and `s[at + 1]`. */
  function Le16(s: seq<byte>, at: nat): (v: nat)
    requires at + 2 <= |s|
    ensures v < TwoTo16
  {
    s[at] as int + 0x100 * (s[at + 1] as int)
  }

  /** The unsigned 32-bit value stored at `s[at .. at + 4]`, lowest byte first. */
  function Le32(s: seq<byte>, at: nat): (v: nat)
    requires at + 4 <= |s|
    ensures v < TwoTo32
  {
    s[at] as int + 0x100 * (s[at + 1] as int) + 0x1_0000 * (s[at + 2] as int) + 0x100_0000 * (s[at + 3] as int)
  }

  /** The two bytes that store `v`; reading them back gives `v`. */
  function Le16Bytes(v: nat): (b: seq<byte>)
    requires v < TwoTo16
    ensures |b| == 2 && Le16(b, 0) == v
  {
    [v % 0x100, v / 0x100]
  }

  /** The four bytes that store `v`; reading them back gives `v`. */
  function Le32Bytes(v: nat): (b: seq<byte>)
    requires v < TwoTo32
    ensures |b| == 4 && Le32(b, 0) == v
  {
    var q1 := v / 0x100;
    var q2 := q1 / 0x100;
    [v % 0x100, q1 % 0x100, q2 % 0x100, q2 / 0x100]
  }

  /** The other direction: the two bytes at `at` are exactly the encoding of the value read there. */
  lemma Le16BytesOfLe16(s: seq<byte>, at: nat)
    requires at + 2 <= |s|
    ensures Le16Bytes(Le16(s, at)) == s[at .. at + 2]
  {
  }

  /** The other direction: the four bytes at `at` are exactly the encoding of the value read there. */
  lemma Le32BytesOfLe32(s: seq<byte>, at: nat)
    requires at + 4 <= |s|
    ensures Le32Bytes(Le32(s, at)) == s[at .. at + 4]
  {
    var v := Le32(s, at);
    var q2 := s[at + 2] as int + 0x100 * (s[at + 3] as int);
    var q1 := s[at + 1] as int + 0x100 * q2;
    assert v == s[at] as int + 0x100 * q1;
    assert v / 0x100 == q1 && v % 0x100 == s[at];
    assert q1 / 0x100 == q2 && q1 % 0x100 == s[at + 1];
    assert q2 / 0x100 == s[at + 3] && q2 % 0x100 == s[at + 2];
  }

  /** A 32-bit field read inside a larger sequence is the field read from its four bytes. */
  lemma Le32At(s: seq<byte>, at: nat, b: seq<byte>)
    requires at + 4 <= |s| && s[at .. at + 4] == b
    ensures Le32(s, at) == Le32(b, 0)
  {
    assert s[at] == b[0] && s[at + 1] == b[1] && s[at + 2] == b[2] && s[at + 3] == b[3];
  }

  /** A 16-bit field read inside a larger sequence is the field read from its two bytes. */
  lemma Le16At(s: seq<byte>, at: nat, b: seq<byte>)
    requires at + 2 <= |s| && s[at .. at + 2] == b
    ensures Le16(s, at) == Le16(b, 0)
  {
    assert s[at] == b[0] && s[at + 1] == b[1];
  }

  /** Appending bytes after a 32-bit field does not change it. */
  lemma Le32Prefix(s: seq<byte>, t: seq<byte>, at: nat)
    requires at + 4 <= |s|
    ensures Le32(s + t, at) == Le32(s, at)
  {
    assert (s + t)[at .. at + 4] == s[at .. at + 4];
    Le32At(s + t, at, s[at .. at + 4]);
    Le32At(s, at, s[at .. at + 4]);
  }

  /** Appending bytes after a 16-bit field does not change it. */
  lemma Le16Prefix(s: seq<byte>, t: seq<byte>, at: nat)
    requires at + 2 <= |s|
    ensures Le16(s + t, at) == Le16(s, at)
  {
    assert (s + t)[at .. at + 2] == s[at .. at + 2];
    Le16At(s + t, at, s[at .. at + 2]);
    Le16At(s, at, s[at .. at + 2]);
  }

  /** Prepending bytes moves a 32-bit field along by their count. */
  lemma Le32Shift(s: seq<byte>, t: seq<byte>, at: nat)
    requires at + 4 <= |t|
    ensures Le32(s + t, |s| + at) == Le32(t, at)
  {
    assert (s + t)[|s| + at .. |s| + at + 4] == t[at .. at + 4];
    Le32At(s + t, |s| + at, t[at .. at + 4]);
    Le32At(t, at, t[at .. at + 4]);
  }

  /** Prepending bytes moves a 16-bit field along by their count. */
  lemma Le16Shift(s: seq<byte>, t: seq<byte>, at: nat)
    requires at + 2 <= |t|
    ensures Le16(s + t, |s| + at) == Le16(t, at)
  {
    assert (s + t)[|s| + at .. |s| + at + 2] == t[at .. at + 2];
    Le16At(s + t, |s| + at, t[at .. at + 2]);
    Le16At(t, at, t[at .. at + 2]);
  }
}
