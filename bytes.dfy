/**
 * Byte-level encodings used by every SerializeToBuffer of the engine: a
 * memcpy of an integer onto a little-endian host, and a length-prefixed
 * string (4-byte int length followed by the characters).
 */
module Bytes {
  import opened Wrappers
  import opened Configuration

  newtype byte = x: int | 0 <= x < 256

  /** A std::string viewed as its bytes. */
  type Text = seq<byte>

  function Pow256(n: nat): (r: nat)
    ensures r >= 1
  {
    if n == 0 then 1 else 256 * Pow256(n - 1)
  }

  /** The n bytes, least significant first, of an unsigned value. */
  function EncodeUnsigned(x: nat, n: nat): (s: seq<byte>)
    requires x < Pow256(n)
    ensures |s| == n
  {
    if n == 0 then [] else [(x % 256) as byte] + EncodeUnsigned(x / 256, n - 1)
  }

  /** Reads bytes, least significant first, as an unsigned value. */
  function DecodeUnsigned(s: seq<byte>): (x: nat)
    ensures x < Pow256(|s|)
  {
    if |s| == 0 then 0 else s[0] as nat + 256 * DecodeUnsigned(s[1..])
  }

  lemma {:induction false} DecodeEncodeUnsigned(x: nat, n: nat)
    requires x < Pow256(n)
    ensures DecodeUnsigned(EncodeUnsigned(x, n)) == x
  {
    if n > 0 {
      var s := EncodeUnsigned(x, n);
      assert s[1..] == EncodeUnsigned(x / 256, n - 1);
      DecodeEncodeUnsigned(x / 256, n - 1);
    }
  }

  /** Range of an n-byte two's complement integer. */
  predicate FitsSigned(x: int, n: nat) {
    n >= 1 && -(Pow256(n) / 2) <= x < Pow256(n) / 2
  }

  /** Two's complement representation of x in n bytes, little-endian. */
  function EncodeSigned(x: int, n: nat): (s: seq<byte>)
    requires FitsSigned(x, n)
    ensures |s| == n
  {
    EncodeUnsigned(if x < 0 then x + Pow256(n) else x, n)
  }

  function DecodeSigned(s: seq<byte>): int {
    var u := DecodeUnsigned(s);
    if u >= Pow256(|s|) / 2 then u - Pow256(|s|) else u
  }

  lemma DecodeEncodeSigned(x: int, n: nat)
    requires FitsSigned(x, n)
    ensures DecodeSigned(EncodeSigned(x, n)) == x
  {
    DecodeEncodeUnsigned(if x < 0 then x + Pow256(n) else x, n);
  }

  lemma Pow256Widths()
    ensures Pow256(4) == 0x1_0000_0000
    ensures Pow256(8) == 0x1_0000_0000_0000_0000
  {
    assert Pow256(1) == 256;
    assert Pow256(2) == 65536;
    assert Pow256(3) == 16777216;
    assert Pow256(4) == 0x1_0000_0000;
    assert Pow256(5) == 0x100_0000_0000;
    assert Pow256(6) == 0x1_0000_0000_0000;
    assert Pow256(7) == 0x100_0000_0000_0000;
  }

  /** What memcpy of an int64_t writes. */
  function EncodeInt64(x: int): (s: seq<byte>)
    requires IsInt64(x)
    ensures |s| == INT64_T_LENGTH
  {
    Pow256Widths();
    EncodeSigned(x, INT64_T_LENGTH)
  }

  /** What `*((int64_t *) p)` reads. */
  function DecodeInt64(s: seq<byte>): int
    requires |s| == INT64_T_LENGTH
  {
    DecodeSigned(s)
  }

  /** What memcpy of a 4-byte int writes. */
  function EncodeInt32(x: int): (s: seq<byte>)
    requires -INT32_MAX - 1 <= x <= INT32_MAX
    ensures |s| == INT_LENGTH
  {
    Pow256Widths();
    EncodeSigned(x, INT_LENGTH)
  }

  function DecodeInt32(s: seq<byte>): int
    requires |s| == INT_LENGTH
  {
    DecodeSigned(s)
  }

  lemma Int64RoundTrip(x: int)
    requires IsInt64(x)
    ensures DecodeInt64(EncodeInt64(x)) == x
  {
    Pow256Widths();
    DecodeEncodeSigned(x, INT64_T_LENGTH);
  }

  lemma Int32RoundTrip(x: int)
    requires -INT32_MAX - 1 <= x <= INT32_MAX
    ensures DecodeInt32(EncodeInt32(x)) == x
  {
    Pow256Widths();
    DecodeEncodeSigned(x, INT_LENGTH);
  }

  /** A bool as memcpy writes it on the engine's hosts. */
  function EncodeBool(b: bool): (s: seq<byte>)
    ensures |s| == BOOL_LENGTH
  {
    [if b then 1 else 0]
  }

  /** A string written as its 4-byte length followed by its bytes. */
  function EncodeText(t: Text): (s: seq<byte>)
    requires |t| <= INT32_MAX
    ensures |s| == INT_LENGTH + |t|
  {
    EncodeInt32(|t|) + t
  }

  /**
   * Reads a length-prefixed string at the start of s and returns it with the
   * number of bytes consumed; absent when the length is negative or runs past
   * the end of s (the source would read out of bounds).
   */
  function DecodeText(s: seq<byte>): (r: Option<(Text, nat)>)
    ensures r.Some? ==> r.value.1 == INT_LENGTH + |r.value.0| <= |s|
  {
    if |s| < INT_LENGTH then None
    else
      var n := DecodeInt32(s[..INT_LENGTH]);
      if n < 0 || INT_LENGTH + n > |s| then None
      else Some((s[INT_LENGTH..INT_LENGTH + n], INT_LENGTH + n))
  }

  lemma TextRoundTrip(t: Text, rest: seq<byte>)
    requires |t| <= INT32_MAX
    ensures DecodeText(EncodeText(t) + rest) == Some((t, INT_LENGTH + |t|))
  {
    var s := EncodeText(t) + rest;
    assert s[..INT_LENGTH] == EncodeInt32(|t|);
    Int32RoundTrip(|t|);
    assert s[INT_LENGTH..INT_LENGTH + |t|] == t;
  }

  /**
   * memcpy(buffer + offset, s, |s|) followed by `offset += |s|`: the bytes at
   * [offset, offset + |s|) become s and nothing else in the buffer changes.
   */
  method Write(buffer: array<byte>, offset: nat, s: seq<byte>) returns (newOffset: nat)
    requires offset + |s| <= buffer.Length
    modifies buffer
    ensures newOffset == offset + |s|
    ensures buffer[..] == old(buffer[..offset]) + s + old(buffer[newOffset..])
  {
    var i := 0;
    while i < |s|
      invariant 0 <= i <= |s|
      invariant buffer[..offset] == old(buffer[..offset])
      invariant buffer[offset..offset + i] == s[..i]
      invariant buffer[offset + i..] == old(buffer[offset + i..])
    {
      buffer[offset + i] := s[i];
      i := i + 1;
    }
    newOffset := offset + |s|;
    assert buffer[..] == buffer[..offset] + buffer[offset..newOffset] + buffer[newOffset..];
  }

  /** Two consecutive writes at offset leave the same buffer as one write of their concatenation. */
  lemma SpliceTwice(o: seq<byte>, b1: seq<byte>, b2: seq<byte>, off: nat, s1: seq<byte>, s2: seq<byte>)
    requires off + |s1| + |s2| <= |o|
    requires b1 == o[..off] + s1 + o[off + |s1|..]
    requires b2 == b1[..off + |s1|] + s2 + b1[off + |s1| + |s2|..]
    ensures b2 == o[..off] + (s1 + s2) + o[off + |s1| + |s2|..]
  {
    assert b1[..off + |s1|] == o[..off] + s1;
    assert b1[off + |s1| + |s2|..] == o[off + |s1| + |s2|..];
  }

  /** Writes s1 then s2 at offset with two memcpy calls, advancing offset past both. */
  method WriteBoth(buffer: array<byte>, offset: nat, s1: seq<byte>, s2: seq<byte>) returns (newOffset: nat)
    requires offset + |s1| + |s2| <= buffer.Length
    modifies buffer
    ensures newOffset == offset + |s1| + |s2|
    ensures buffer[..] == old(buffer[..offset]) + (s1 + s2) + old(buffer[newOffset..])
  {
    ghost var b0 := buffer[..];
    var mid := Write(buffer, offset, s1);
    ghost var b1 := buffer[..];
    newOffset := Write(buffer, mid, s2);
    SpliceTwice(b0, b1, buffer[..], offset, s1, s2);
    assert b0[..offset] == old(buffer[..offset]);
  }
}
