/**
 Text as the host language stores it: a sequence of UTF-16 code units. String
 length and slicing count code units, so a character outside the Basic
 Multilingual Plane occupies two positions (a surrogate pair).
 */
module Utf16 {

  /** One UTF-16 code unit. */
  newtype CodeUnit = x: int | 0 <= x < 0x1_0000

  /** A string of the host language. */
  type Text = seq<CodeUnit>

  /** The character lies in the Basic Multilingual Plane: one code unit. */
  predicate InBmp(c: char) {
    c as int < 0x1_0000
  }

  /** A high (leading) surrogate code unit. */
  predicate IsHighSurrogate(u: CodeUnit) {
    0xD800 <= u as int < 0xDC00
  }

  /** A low (trailing) surrogate code unit. */
  predicate IsLowSurrogate(u: CodeUnit) {
    0xDC00 <= u as int < 0xE000
  }

  /** The UTF-16 encoding of one character: its own value inside the Basic
      Multilingual Plane, a high surrogate followed by a low one outside. */
  function EncodeChar(c: char): (r: Text)
    ensures InBmp(c) ==> r == [c as int as CodeUnit]
    ensures !InBmp(c) ==> |r| == 2 && IsHighSurrogate(r[0]) && IsLowSurrogate(r[1])
  {
    var v := c as int;
    if v < 0x1_0000 then [v as CodeUnit]
    else
      var u := v - 0x1_0000;
      [(0xD800 + u / 0x400) as CodeUnit, (0xDC00 + u % 0x400) as CodeUnit]
  }

  /** A surrogate pair decodes back to the character it encodes. */
  lemma DecodePair(c: char)
    requires !InBmp(c)
    ensures (EncodeChar(c)[0] as int - 0xD800) * 0x400 + (EncodeChar(c)[1] as int - 0xDC00)
            + 0x1_0000 == c as int
  {
    var u := c as int - 0x1_0000;
    assert EncodeChar(c)[0] as int - 0xD800 == u / 0x400;
    assert EncodeChar(c)[1] as int - 0xDC00 == u % 0x400;
  }

  /** The UTF-16 encoding of a string of characters. */
  function Encode(s: string): (r: Text)
    ensures |r| >= |s|
    decreases |s|
  {
    if s == [] then [] else EncodeChar(s[0]) + Encode(s[1..])
  }

  /** A string that stays inside the Basic Multilingual Plane encodes to one
      code unit per character, each with the character's own value. */
  lemma {:induction false} EncodeBmp(s: string)
    requires forall i :: 0 <= i < |s| ==> InBmp(s[i])
    ensures |Encode(s)| == |s|
    ensures forall i :: 0 <= i < |s| ==> Encode(s)[i] as int == s[i] as int
    decreases |s|
  {
    if s != [] {
      assert InBmp(s[0]);
      EncodeBmp(s[1..]);
      assert Encode(s) == [s[0] as int as CodeUnit] + Encode(s[1..]);
    }
  }

  /** Text made only of Basic Multilingual Plane characters, one code unit
      each. */
  function BmpText(s: string): (r: Text)
    requires forall i :: 0 <= i < |s| ==> InBmp(s[i])
    ensures |r| == |s|
    ensures forall i :: 0 <= i < |s| ==> r[i] as int == s[i] as int
  {
    seq(|s|, i requires 0 <= i < |s| && InBmp(s[i]) => s[i] as int as CodeUnit)
  }

  /** `BmpText` is the UTF-16 encoding of its argument. */
  lemma BmpTextEncodes(s: string)
    requires forall i :: 0 <= i < |s| ==> InBmp(s[i])
    ensures BmpText(s) == Encode(s)
  {
    EncodeBmp(s);
  }
}
