/**
 * UTF-8 validity, as `String::from_utf8` decides it. Two definitions: the
 * well-formed byte-sequence syntax of section 4 of RFC 3629, written from its
 * ABNF, and a left-to-right scanner that looks at the lead byte first, as the
 * Rust validator does. `ValidUtf8IsGrammar` proves they agree.
 */
module Utf8 {
  import opened Bytes

  /** UTF8-tail = %x80-BF */
  predicate IsTail(b: byte) {
    0x80 <= b <= 0xBF
  }

  /** UTF8-3 = %xE0 %xA0-BF UTF8-tail / %xE1-EC 2( UTF8-tail ) / %xED %x80-9F UTF8-tail / %xEE-EF 2( UTF8-tail ) */
  ghost predicate IsUtf8Char3(c: seq<byte>)
    requires |c| == 3
  {
    || (c[0] == 0xE0 && 0xA0 <= c[1] <= 0xBF && IsTail(c[2]))
    || (0xE1 <= c[0] <= 0xEC && IsTail(c[1]) && IsTail(c[2]))
    || (c[0] == 0xED && 0x80 <= c[1] <= 0x9F && IsTail(c[2]))
    || (0xEE <= c[0] <= 0xEF && IsTail(c[1]) && IsTail(c[2]))
  }

  /** UTF8-4 = %xF0 %x90-BF 2( UTF8-tail ) / %xF1-F3 3( UTF8-tail ) / %xF4 %x80-8F 2( UTF8-tail ) */
  ghost predicate IsUtf8Char4(c: seq<byte>)
    requires |c| == 4
  {
    || (c[0] == 0xF0 && 0x90 <= c[1] <= 0xBF && IsTail(c[2]) && IsTail(c[3]))
    || (0xF1 <= c[0] <= 0xF3 && IsTail(c[1]) && IsTail(c[2]) && IsTail(c[3]))
    || (c[0] == 0xF4 && 0x80 <= c[1] <= 0x8F && IsTail(c[2]) && IsTail(c[3]))
  }

  /** UTF8-char = UTF8-1 / UTF8-2 / UTF8-3 / UTF8-4, with UTF8-1 = %x00-7F and UTF8-2 = %xC2-DF UTF8-tail */
  ghost predicate IsUtf8Char(c: seq<byte>) {
    || (|c| == 1 && c[0] <= 0x7F)
    || (|c| == 2 && 0xC2 <= c[0] <= 0xDF && IsTail(c[1]))
    || (|c| == 3 && IsUtf8Char3(c))
    || (|c| == 4 && IsUtf8Char4(c))
  }

  /** UTF8-octets = *( UTF8-char ) */
  ghost predicate IsUtf8Octets(s: seq<byte>)
    decreases |s|
  {
    || |s| == 0
    || exists k | 1 <= k <= 4 && k <= |s| :: IsUtf8Char(s[..k]) && IsUtf8Octets(s[k..])
  }

  /** Width of the character a lead byte announces; 0 for bytes that never start one. */
  function LeadWidth(lead: byte): nat {
    if lead <= 0x7F then 1
    else if 0xC2 <= lead <= 0xDF then 2
    else if 0xE0 <= lead <= 0xEF then 3
    else if 0xF0 <= lead <= 0xF4 then 4
    else 0
  }

  /**
   * The range the second byte must fall in after `lead`: narrower than a plain
   * tail after E0 and F0 (no overlong forms), ED (no surrogates) and F4 (nothing
   * above U+10FFFF).
   */
  predicate SecondByteOk(lead: byte, b: byte) {
    if lead == 0xE0 then 0xA0 <= b <= 0xBF
    else if lead == 0xED then 0x80 <= b <= 0x9F
    else if lead == 0xF0 then 0x90 <= b <= 0xBF
    else if lead == 0xF4 then 0x80 <= b <= 0x8F
    else IsTail(b)
  }

  /**
   * Length of the well-formed character at the head of `s`, 0 if there is none.
   * Since the lead byte fixes the length, no other prefix is a character.
   */
  function CharWidth(s: seq<byte>): (w: nat)
    ensures w <= |s| && w <= 4
    ensures forall k | 1 <= k <= 4 && k <= |s| :: IsUtf8Char(s[..k]) <==> k == w
  {
    if |s| == 0 then 0
    else
      var w := LeadWidth(s[0]);
      if w == 0 || |s| < w then 0
      else if w == 1 then 1
      else if !SecondByteOk(s[0], s[1]) then 0
      else if w >= 3 && !IsTail(s[2]) then 0
      else if w == 4 && !IsTail(s[3]) then 0
      else w
  }

  /** The scanner: consume one character at a time until the input is exhausted. */
  predicate ValidUtf8(s: seq<byte>)
    decreases |s|
  {
    || |s| == 0
    || (var w := CharWidth(s); w > 0 && ValidUtf8(s[w..]))
  }

  /** The scanner accepts exactly the byte sequences the RFC 3629 grammar derives. */
  lemma {:induction false} ValidUtf8IsGrammar(s: seq<byte>)
    ensures ValidUtf8(s) <==> IsUtf8Octets(s)
    decreases |s|
  {
    if |s| > 0 {
      var w := CharWidth(s);
      if w > 0 {
        ValidUtf8IsGrammar(s[w..]);
      }
      if IsUtf8Octets(s) {
        var k :| 1 <= k <= 4 && k <= |s| && IsUtf8Char(s[..k]) && IsUtf8Octets(s[k..]);
        assert k == w;
      }
    }
  }


  predicate IsAsciiBytes(s: seq<byte>) {
    forall b | b in s :: b <= 0x7F
  }

  /** Seven-bit text is valid UTF-8, one byte per character. */
  lemma {:induction false} AsciiIsValidUtf8(s: seq<byte>)
    requires IsAsciiBytes(s)
    ensures ValidUtf8(s)
    decreases |s|
  {
    if |s| > 0 {
      assert s[0] in s;
      assert IsUtf8Char(s[..1]);
      assert CharWidth(s) == 1;
      assert forall b | b in s[1..] :: b in s;
      AsciiIsValidUtf8(s[1..]);
    }
  }

  /** A lone continuation byte, an overlong encoding and a surrogate are all rejected. */
  lemma RejectsMalformed()
    ensures !IsUtf8Octets([0xFF])
    ensures !IsUtf8Octets([0x80])
    ensures !IsUtf8Octets([0xC0, 0x80])
    ensures !IsUtf8Octets([0xED, 0xA0, 0x80])
    ensures !IsUtf8Octets([0xF4, 0x90, 0x80, 0x80])
  {
  }
}
