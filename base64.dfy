/**
 * Base64 with the URL- and filename-safe alphabet of section 5 of RFC 4648,
 * as Python's `base64.urlsafe_b64encode` computes it: 3 bytes become 4
 * characters, and a final group of 1 or 2 bytes is padded with `=`.
 */
module Base64 {
  import opened Text

  type byte = x: int | 0 <= x < 256

  /** The 64 characters of the URL-safe alphabet: A-Z, a-z, 0-9, `-` and `_`. */
  predicate IsUrlSafeChar(c: char)
  {
    'A' <= c <= 'Z' || 'a' <= c <= 'z' || '0' <= c <= '9' || c == '-' || c == '_'
  }

  predicate IsUrlSafe(s: string)
  {
    forall i :: 0 <= i < |s| ==> IsUrlSafeChar(s[i])
  }

  /** The character that encodes the 6-bit value `v` (Table 2 of RFC 4648). */
  function Sextet(v: nat): (c: char)
    requires v < 64
    ensures IsUrlSafeChar(c)
  {
    if v < 26 then (('A' as int) + v) as char
    else if v < 52 then (('a' as int) + (v - 26)) as char
    else if v < 62 then (('0' as int) + (v - 52)) as char
    else if v == 62 then '-'
    else '_'
  }

  /** The 6-bit value an alphabet character encodes. */
  function SextetValue(c: char): (v: nat)
    requires IsUrlSafeChar(c)
    ensures v < 64
  {
    if 'A' <= c <= 'Z' then (c as int) - ('A' as int)
    else if 'a' <= c <= 'z' then (c as int) - ('a' as int) + 26
    else if '0' <= c <= '9' then (c as int) - ('0' as int) + 52
    else if c == '-' then 62
    else 63
  }

  lemma SextetRoundTrip(v: nat)
    requires v < 64
    ensures SextetValue(Sextet(v)) == v
  {
  }

  /** The 4 characters of a full group of 3 bytes: 24 bits read as four sextets. */
  function EncodeGroup(b0: byte, b1: byte, b2: byte): (s: string)
    ensures |s| == 4 && IsUrlSafe(s)
  {
    [Sextet(b0 / 4), Sextet(b0 % 4 * 16 + b1 / 16), Sextet(b1 % 16 * 4 + b2 / 64), Sextet(b2 % 64)]
  }

  /** The characters of a final group of 1 or 2 bytes, whose missing bits are zero. */
  function EncodeTail(b: seq<byte>): (s: string)
    requires 1 <= |b| <= 2
    ensures |s| == |b| + 1 && IsUrlSafe(s)
  {
    if |b| == 1 then [Sextet(b[0] / 4), Sextet(b[0] % 4 * 16)]
    else [Sextet(b[0] / 4), Sextet(b[0] % 4 * 16 + b[1] / 16), Sextet(b[1] % 16 * 4)]
  }

  /** The encoding without its padding: one group of 4 characters per 3 bytes. */
  function EncodeNoPad(b: seq<byte>): (s: string)
    ensures |s| == (4 * |b| + 2) / 3
    ensures IsUrlSafe(s)
    decreases |b|
  {
    if |b| == 0 then []
    else if |b| <= 2 then EncodeTail(b)
    else EncodeGroup(b[0], b[1], b[2]) + EncodeNoPad(b[3..])
  }

  /** The `=` characters that complete the last group of 4. */
  function Padding(n: nat): (p: string)
    ensures forall i :: 0 <= i < |p| ==> p[i] == '='
  {
    if n % 3 == 1 then "==" else if n % 3 == 2 then "=" else ""
  }

  /** The padding fills the unpadded encoding of `n` bytes up to whole groups of 4. */
  lemma PaddedLength(n: nat)
    ensures (4 * n + 2) / 3 + |Padding(n)| == 4 * ((n + 2) / 3)
  {
    var q, r := n / 3, n % 3;
    assert n == 3 * q + r;
    assert 4 * n + 2 == 3 * (4 * q + r) + (r + 2);
  }

  /** `base64.urlsafe_b64encode(b)`. */
  function UrlSafeEncode(b: seq<byte>): (s: string)
    ensures |s| == 4 * ((|b| + 2) / 3)
  {
    PaddedLength(|b|);
    EncodeNoPad(b) + Padding(|b|)
  }

  /** The bytes of a group of 2, 3 or 4 characters. */
  function DecodeGroup(s: string): (b: seq<byte>)
    requires IsUrlSafe(s) && 2 <= |s| <= 4
    ensures |b| == |s| - 1
  {
    var v0, v1 := SextetValue(s[0]), SextetValue(s[1]);
    if |s| == 2 then [v0 * 4 + v1 / 16]
    else
      var v2 := SextetValue(s[2]);
      if |s| == 3 then [v0 * 4 + v1 / 16, v1 % 16 * 16 + v2 / 4]
      else [v0 * 4 + v1 / 16, v1 % 16 * 16 + v2 / 4, v2 % 4 * 64 + SextetValue(s[3])]
  }

  /** Reads a padding-free encoding back into bytes; a lone trailing character,
      which no encoding produces, is ignored. */
  function DecodeNoPad(s: string): seq<byte>
    requires IsUrlSafe(s)
    decreases |s|
  {
    if |s| <= 1 then []
    else if |s| <= 4 then DecodeGroup(s)
    else DecodeGroup(s[..4]) + DecodeNoPad(s[4..])
  }

  /** The four sextets of a group put back together give its three bytes. */
  lemma RepackGroup(b0: byte, b1: byte, b2: byte)
    ensures var v0, v1, v2, v3 := b0 / 4, b0 % 4 * 16 + b1 / 16, b1 % 16 * 4 + b2 / 64, b2 % 64;
            && v0 * 4 + v1 / 16 == b0
            && v1 % 16 * 16 + v2 / 4 == b1
            && v2 % 4 * 64 + v3 == b2
  {
  }

  lemma GroupRoundTrip(b0: byte, b1: byte, b2: byte)
    ensures DecodeGroup(EncodeGroup(b0, b1, b2)) == [b0, b1, b2]
  {
    SextetRoundTrip(b0 / 4);
    SextetRoundTrip(b0 % 4 * 16 + b1 / 16);
    SextetRoundTrip(b1 % 16 * 4 + b2 / 64);
    SextetRoundTrip(b2 % 64);
    RepackGroup(b0, b1, b2);
  }

  lemma TailRoundTrip(b: seq<byte>)
    requires 1 <= |b| <= 2
    ensures DecodeGroup(EncodeTail(b)) == b
  {
    SextetRoundTrip(b[0] / 4);
    if |b| == 1 {
      SextetRoundTrip(b[0] % 4 * 16);
    } else {
      SextetRoundTrip(b[0] % 4 * 16 + b[1] / 16);
      SextetRoundTrip(b[1] % 16 * 4);
    }
  }

  /** Decoding reads a leading full group on its own. */
  lemma DecodeFirstGroup(g: string, rest: string)
    requires |g| == 4 && IsUrlSafe(g) && IsUrlSafe(rest)
    ensures IsUrlSafe(g + rest)
    ensures DecodeNoPad(g + rest) == DecodeGroup(g) + DecodeNoPad(rest)
  {
    var s := g + rest;
    assert s[..4] == g && s[4..] == rest;
    if rest == [] {
      assert s == g;
    }
  }

  /** The encoding of three bytes or more is a group that decodes to the first
      three, followed by the encoding of the rest. */
  lemma FirstGroup(b: seq<byte>) returns (g: string)
    requires |b| >= 3
    ensures |g| == 4 && IsUrlSafe(g) && DecodeGroup(g) == b[..3]
    ensures EncodeNoPad(b) == g + EncodeNoPad(b[3..])
  {
    g := EncodeGroup(b[0], b[1], b[2]);
    GroupRoundTrip(b[0], b[1], b[2]);
  }

  /** When the bytes after the first three decode back, so do all of them. */
  lemma DecodeEncodeStep(b: seq<byte>)
    requires |b| >= 3
    requires DecodeNoPad(EncodeNoPad(b[3..])) == b[3..]
    ensures DecodeNoPad(EncodeNoPad(b)) == b
  {
    var g := FirstGroup(b);
    DecodeFirstGroup(g, EncodeNoPad(b[3..]));
    assert b == b[..3] + b[3..];
  }

  /** Decoding the encoding of one or two bytes gives them back. */
  lemma DecodeEncodeTail(b: seq<byte>)
    requires 1 <= |b| <= 2
    ensures DecodeNoPad(EncodeNoPad(b)) == b
  {
    TailRoundTrip(b);
  }

  /** Decoding an encoding gives the bytes back: the encoding loses nothing. */
  lemma {:induction false} DecodeEncode(b: seq<byte>)
    ensures DecodeNoPad(EncodeNoPad(b)) == b
    decreases |b|
  {
    if |b| >= 3 {
      DecodeEncode(b[3..]);
      DecodeEncodeStep(b);
    } else if |b| >= 1 {
      DecodeEncodeTail(b);
    }
  }

  /** Stripping the `=` padding from an encoding leaves exactly the unpadded encoding. */
  lemma StripPadding(b: seq<byte>)
    ensures RStrip(UrlSafeEncode(b), '=') == EncodeNoPad(b)
  {
    var s := EncodeNoPad(b);
    assert s == [] || s[|s| - 1] != '=' by {
      if s != [] { assert IsUrlSafeChar(s[|s| - 1]); }
    }
    RStripTrailing(s, Padding(|b|), '=');
  }
}
