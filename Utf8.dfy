/** The rune decoder shared by the three `PeekRune` methods. It follows the
    bit layout of UTF-8 (section 3 of RFC 3629) but validates nothing: every
    lead byte at or above 0xC0 announces continuation bytes, and their top two
    bits are masked away unchecked. Go's `c & 0x1F`, `<< 6` and `|` are written
    here as `% 0x20`, `* 0x40` and `+`, which agree on these non-negative,
    non-overlapping bit fields. */
module Utf8 {
  import opened Bytes

  /** What `PeekRune` returns: a code point and its length in bytes. */
  datatype Rune = Rune(cp: int, size: nat)

  /** The length a lead byte announces: 1 below 0xC0 (ASCII, and also a stray
      continuation byte), 2 below 0xE0, 3 below 0xF0, otherwise 4. */
  function RuneLen(lead: byte): nat {
    if lead < 0xC0 then 1 else if lead < 0xE0 then 2 else if lead < 0xF0 then 3 else 4
  }

  /** Decodes the lead byte `s[0]` and the continuation bytes after it into a
      (code point, length) pair. */
  function Decode(s: seq<byte>): (r: Rune)
    requires |s| > 0 && |s| == RuneLen(s[0])
    ensures r.size == |s|
    ensures 0 <= r.cp < 0x200000
    ensures |s| == 1 ==> r.cp == s[0]
  {
    var c: int := s[0];
    if c < 0xC0 then
      Rune(c, 1)
    else if c < 0xE0 then
      Rune((c % 0x20) * 0x40 + (s[1] as int) % 0x40, 2)
    else if c < 0xF0 then
      Rune((c % 0x10) * 0x1000 + ((s[1] as int) % 0x40) * 0x40 + (s[2] as int) % 0x40, 3)
    else
      Rune((c % 0x08) * 0x40000 + ((s[1] as int) % 0x40) * 0x1000 + ((s[2] as int) % 0x40) * 0x40 + (s[3] as int) % 0x40, 4)
  }

  /** The UTF-8 encoding of a code point, as section 3 of RFC 3629 lays it out;
      the reference the decoder is checked against. */
  function Encode(cp: int): (e: seq<byte>)
    requires 0 <= cp < 0x110000
    ensures 1 <= |e| <= 4 && |e| == RuneLen(e[0])
    ensures forall k | 1 <= k < |e| :: 0x80 <= e[k] < 0xC0
  {
    if cp < 0x80 then
      [cp]
    else if cp < 0x800 then
      [0xC0 + cp / 0x40, 0x80 + cp % 0x40]
    else if cp < 0x10000 then
      [0xE0 + cp / 0x1000, 0x80 + (cp / 0x40) % 0x40, 0x80 + cp % 0x40]
    else
      [0xF0 + cp / 0x40000, 0x80 + (cp / 0x1000) % 0x40, 0x80 + (cp / 0x40) % 0x40, 0x80 + cp % 0x40]
  }

  /** The byte sequences section 4 of RFC 3629 admits as one character:
      shortest form, no surrogates, nothing above U+10FFFF. */
  predicate WellFormed(s: seq<byte>) {
    && |s| > 0
    && (forall k | 1 <= k < |s| :: 0x80 <= s[k] < 0xC0)
    && match |s|
       case 1 => s[0] < 0x80
       case 2 => 0xC2 <= s[0] < 0xE0
       case 3 => 0xE0 <= s[0] < 0xF0 && (s[0] == 0xE0 ==> 0xA0 <= s[1]) && (s[0] == 0xED ==> s[1] < 0xA0)
       case 4 => 0xF0 <= s[0] <= 0xF4 && (s[0] == 0xF0 ==> 0x90 <= s[1]) && (s[0] == 0xF4 ==> s[1] < 0x90)
       case _ => false
  }

  /** `x` split into a quotient and a remainder by one of the bit-field
      widths the encoding uses. */
  lemma Split(x: int, q: int, r: int, k: int)
    requires k in {0x08, 0x10, 0x20, 0x40, 0x1000, 0x40000}
    requires 0 <= r < k && x == q * k + r
    ensures x / k == q && x % k == r
  {
    if k == 0x08 {
    } else if k == 0x10 {
    } else if k == 0x20 {
    } else if k == 0x40 {
    } else if k == 0x1000 {
    } else {
    }
  }

  /** Decoding an encoded code point gives it back, with the encoded length. */
  lemma DecodeEncode(cp: int)
    requires 0 <= cp < 0x110000
    ensures Decode(Encode(cp)) == Rune(cp, |Encode(cp)|)
  {
    var e := Encode(cp);
    var r0, q0 := cp % 0x40, cp / 0x40;
    var r1, q1 := q0 % 0x40, q0 / 0x40;
    var r2, q2 := q1 % 0x40, q1 / 0x40;
    if cp < 0x80 {
    } else if cp < 0x800 {
      Split(e[0], 6, q0, 0x20);
      Split(e[1], 2, r0, 0x40);
    } else if cp < 0x10000 {
      Split(cp, q1, r1 * 0x40 + r0, 0x1000);
      Split(e[0], 14, q1, 0x10);
      Split(e[1], 2, r1, 0x40);
      Split(e[2], 2, r0, 0x40);
    } else {
      Split(cp, q2, (r2 * 0x40 + r1) * 0x40 + r0, 0x40000);
      Split(cp, q1, r1 * 0x40 + r0, 0x1000);
      Split(e[0], 30, q2, 0x08);
      Split(e[1], 2, r2, 0x40);
      Split(e[2], 2, r1, 0x40);
      Split(e[3], 2, r0, 0x40);
    }
  }

  /** On well-formed input the decoder is exact: re-encoding what it decodes
      gives the same bytes, and the code point is a Unicode scalar value. */
  lemma EncodeDecode(s: seq<byte>)
    requires WellFormed(s)
    ensures |s| == RuneLen(s[0])
    ensures var cp := Decode(s).cp;
      && cp < 0x110000 && !(0xD800 <= cp < 0xE000)
      && Encode(cp) == s
  {
    if |s| == 2 {
      EncodeDecode2(s[0], s[1]);
    } else if |s| == 3 {
      EncodeDecode3(s[0], s[1], s[2]);
    } else if |s| == 4 {
      EncodeDecode4(s[0], s[1], s[2], s[3]);
    }
  }

  lemma EncodeDecode2(s0: byte, s1: byte)
    requires 0xC2 <= s0 < 0xE0 && 0x80 <= s1 < 0xC0
    ensures var cp := Decode([s0, s1]).cp; 0x80 <= cp < 0x800 && Encode(cp) == [s0, s1]
  {
    var cp := Decode([s0, s1]).cp;
    var a, b := s0 % 0x20, s1 % 0x40;
    Split(s0, 6, a, 0x20);
    Split(s1, 2, b, 0x40);
    Split(cp, a, b, 0x40);
  }

  lemma EncodeDecode3(s0: byte, s1: byte, s2: byte)
    requires 0xE0 <= s0 < 0xF0 && 0x80 <= s1 < 0xC0 && 0x80 <= s2 < 0xC0
    requires s0 == 0xE0 ==> 0xA0 <= s1
    requires s0 == 0xED ==> s1 < 0xA0
    ensures var cp := Decode([s0, s1, s2]).cp;
      0x800 <= cp < 0x10000 && !(0xD800 <= cp < 0xE000) && Encode(cp) == [s0, s1, s2]
  {
    var cp := Decode([s0, s1, s2]).cp;
    var a, b, c := s0 % 0x10, s1 % 0x40, s2 % 0x40;
    Split(s0, 14, a, 0x10);
    Split(s1, 2, b, 0x40);
    Split(s2, 2, c, 0x40);
    Split(cp, a * 0x40 + b, c, 0x40);
    Split(a * 0x40 + b, a, b, 0x40);
    Split(cp, a, b * 0x40 + c, 0x1000);
  }

  lemma EncodeDecode4(s0: byte, s1: byte, s2: byte, s3: byte)
    requires 0xF0 <= s0 <= 0xF4 && 0x80 <= s1 < 0xC0 && 0x80 <= s2 < 0xC0 && 0x80 <= s3 < 0xC0
    requires s0 == 0xF0 ==> 0x90 <= s1
    requires s0 == 0xF4 ==> s1 < 0x90
    ensures var cp := Decode([s0, s1, s2, s3]).cp;
      0x10000 <= cp < 0x110000 && Encode(cp) == [s0, s1, s2, s3]
  {
    var cp := Decode([s0, s1, s2, s3]).cp;
    var a, b, c, d := s0 % 0x08, s1 % 0x40, s2 % 0x40, s3 % 0x40;
    Split(s0, 30, a, 0x08);
    Split(s1, 2, b, 0x40);
    Split(s2, 2, c, 0x40);
    Split(s3, 2, d, 0x40);
    Split(cp, (a * 0x40 + b) * 0x40 + c, d, 0x40);
    Split((a * 0x40 + b) * 0x40 + c, a * 0x40 + b, c, 0x40);
    Split(cp, a * 0x40 + b, c * 0x40 + d, 0x1000);
    Split(a * 0x40 + b, a, b, 0x40);
    Split(cp, a, (b * 0x40 + c) * 0x40 + d, 0x40000);
  }

  /** The decoder does not reject malformed input: a stray continuation byte
      decodes as itself, and an overlong two-byte form decodes like the one
      byte it spells. */
  lemma DecodeIsLenient()
    ensures Decode([0x80]) == Rune(0x80, 1)
    ensures Decode([0xC0, 0x80]) == Rune(0, 2)
    ensures Decode([0xED, 0xA0, 0x80]) == Rune(0xD800, 3)
  {
  }

  /** The code points of shifter_test.go's rune test: 'a', 'æ', '†' and
      U+100000, from their UTF-8 bytes. */
  lemma DecodeExamples()
    ensures Decode([0x61]) == Rune(0x61, 1)
    ensures Decode([0xC3, 0xA6]) == Rune(0xE6, 2)
    ensures Decode([0xE2, 0x80, 0xA0]) == Rune(0x2020, 3)
    ensures Decode([0xF4, 0x80, 0x80, 0x80]) == Rune(0x100000, 4)
  {
  }
}
