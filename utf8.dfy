/** Strict UTF-8, as Python's `bytes.decode('utf-8')` applies it: the
    well-formed byte sequences of table 3-7 of the Unicode Standard
    (chapter 3, section 3.9) decode, anything else raises. Overlong forms,
    encoded surrogates, values above U+10FFFF and truncated sequences are
    all refused. */
module Utf8 {
  import opened Wrappers

  newtype byte = x: int | 0 <= x < 256

  /** A continuation byte, 10xxxxxx. */
  predicate Cont(b: byte) {
    0x80 <= b <= 0xBF
  }

  /** The range table 3-7 allows for the second byte of a three-byte sequence. */
  predicate Second3(b0: int, b1: byte) {
    if b0 == 0xE0 then 0xA0 <= b1 <= 0xBF
    else if b0 == 0xED then 0x80 <= b1 <= 0x9F
    else Cont(b1)
  }

  /** The range table 3-7 allows for the second byte of a four-byte sequence. */
  predicate Second4(b0: int, b1: byte) {
    if b0 == 0xF0 then 0x90 <= b1 <= 0xBF
    else if b0 == 0xF4 then 0x80 <= b1 <= 0x8F
    else Cont(b1)
  }

  /** The scalar value a one- to four-byte sequence stands for, and its length. */
  function DecodeFirst(b: seq<byte>): (r: Option<(char, nat)>)
    ensures r.Some? ==> 1 <= r.value.1 <= |b| && r.value.1 <= 4
  {
    if |b| == 0 then None
    else
      var b0 := b[0] as int;
      if b0 < 0x80 then Some((b0 as char, 1))
      else if 0xC2 <= b0 <= 0xDF then
        if |b| >= 2 && Cont(b[1]) then
          Some((((b0 - 0xC0) * 64 + (b[1] as int - 0x80)) as char, 2))
        else None
      else if 0xE0 <= b0 <= 0xEF then
        if |b| >= 3 && Second3(b0, b[1]) && Cont(b[2]) then
          Some((((b0 - 0xE0) * 4096 + (b[1] as int - 0x80) * 64 + (b[2] as int - 0x80)) as char, 3))
        else None
      else if 0xF0 <= b0 <= 0xF4 then
        if |b| >= 4 && Second4(b0, b[1]) && Cont(b[2]) && Cont(b[3]) then
          Some((((b0 - 0xF0) * 262144 + (b[1] as int - 0x80) * 4096
                + (b[2] as int - 0x80) * 64 + (b[3] as int - 0x80)) as char, 4))
        else None
      else None
  }

  /** `bytes.decode('utf-8')`: the text, or `None` where Python raises
      `UnicodeDecodeError`. */
  function Decode(b: seq<byte>): Option<string>
    decreases |b|
  {
    if |b| == 0 then Some("")
    else
      match DecodeFirst(b)
      case None => None
      case Some((c, n)) =>
        match Decode(b[n..])
        case None => None
        case Some(rest) => Some([c] + rest)
  }

  /** The shortest encoding of one scalar value. */
  function EncodeChar(c: char): (r: seq<byte>)
    ensures 1 <= |r| <= 4
  {
    var cp := c as int;
    if cp < 0x80 then [cp as byte]
    else if cp < 0x800 then [(0xC0 + cp / 64) as byte, (0x80 + cp % 64) as byte]
    else if cp < 0x10000 then
      [(0xE0 + cp / 4096) as byte, (0x80 + cp / 64 % 64) as byte, (0x80 + cp % 64) as byte]
    else
      [(0xF0 + cp / 262144) as byte, (0x80 + cp / 4096 % 64) as byte,
       (0x80 + cp / 64 % 64) as byte, (0x80 + cp % 64) as byte]
  }

  /** `str.encode('utf-8')`. */
  function Encode(s: string): seq<byte>
    decreases |s|
  {
    if |s| == 0 then [] else EncodeChar(s[0]) + Encode(s[1..])
  }

  // ----- one character -----

  /** Base-64 digits: splitting off the low six bits and putting them back. */
  lemma Digits64(h: int, x: int)
    requires h >= 0 && 0 <= x < 64
    ensures (h * 64 + x) / 64 == h && (h * 64 + x) % 64 == x
  {
  }

  lemma Split64(cp: int)
    requires cp >= 0
    ensures cp == cp / 64 * 64 + cp % 64 && 0 <= cp % 64 < 64 && cp / 64 >= 0
  {
  }

  lemma DivTwice(cp: int)
    requires cp >= 0
    ensures cp / 4096 == cp / 64 / 64 && cp / 262144 == cp / 4096 / 64
  {
  }

  /** The digits of a scalar value, six bits at a time. */
  lemma Digits(cp: int)
    requires cp >= 0
    ensures cp == cp / 64 * 64 + cp % 64
    ensures cp / 64 == cp / 4096 * 64 + cp / 64 % 64
    ensures cp / 4096 == cp / 262144 * 64 + cp / 4096 % 64
    ensures 0 <= cp % 64 < 64 && 0 <= cp / 64 % 64 < 64 && 0 <= cp / 4096 % 64 < 64
  {
    DivTwice(cp);
    Split64(cp);
    Split64(cp / 64);
    Split64(cp / 4096);
  }

  /** Rebuilding a value from its digits recovers the digits. */
  lemma Undigits(h: int, x1: int, x2: int, x3: int)
    requires h >= 0 && 0 <= x1 < 64 && 0 <= x2 < 64 && 0 <= x3 < 64
    ensures var cp := ((h * 64 + x1) * 64 + x2) * 64 + x3;
      cp % 64 == x3 && cp / 64 % 64 == x2 && cp / 4096 % 64 == x1 && cp / 262144 == h
  {
    var cp := ((h * 64 + x1) * 64 + x2) * 64 + x3;
    Digits64(h, x1);
    Digits64(h * 64 + x1, x2);
    Digits64((h * 64 + x1) * 64 + x2, x3);
    DivTwice(cp);
  }

  lemma DecodeEncode2(c: char, rest: seq<byte>)
    requires 0x80 <= c as int < 0x800
    ensures DecodeFirst(EncodeChar(c) + rest) == Some((c, 2))
  {
    var cp := c as int;
    var b := EncodeChar(c) + rest;
    Digits(cp);
    assert b[0] as int == 0xC0 + cp / 64 && b[1] as int == 0x80 + cp % 64;
  }

  lemma DecodeEncode3(c: char, rest: seq<byte>)
    requires 0x800 <= c as int < 0x10000
    ensures DecodeFirst(EncodeChar(c) + rest) == Some((c, 3))
  {
    var cp := c as int;
    var b := EncodeChar(c) + rest;
    Digits(cp);
    var hi, mid, lo := cp / 4096, cp / 64 % 64, cp % 64;
    assert cp == hi * 4096 + mid * 64 + lo;
    assert b[0] as int == 0xE0 + hi && b[1] as int == 0x80 + mid && b[2] as int == 0x80 + lo;
    assert Second3(0xE0 + hi, b[1]);
  }

  lemma DecodeEncode4(c: char, rest: seq<byte>)
    requires 0x10000 <= c as int
    ensures DecodeFirst(EncodeChar(c) + rest) == Some((c, 4))
  {
    var cp := c as int;
    var b := EncodeChar(c) + rest;
    Digits(cp);
    var top, hi, mid, lo := cp / 262144, cp / 4096 % 64, cp / 64 % 64, cp % 64;
    assert cp == top * 262144 + hi * 4096 + mid * 64 + lo;
    assert b[0] as int == 0xF0 + top && b[1] as int == 0x80 + hi;
    assert b[2] as int == 0x80 + mid && b[3] as int == 0x80 + lo;
    assert Second4(0xF0 + top, b[1]);
  }

  lemma DecodeEncodeChar(c: char, rest: seq<byte>)
    ensures DecodeFirst(EncodeChar(c) + rest) == Some((c, |EncodeChar(c)|))
  {
    var cp := c as int;
    if cp < 0x80 {
    } else if cp < 0x800 {
      DecodeEncode2(c, rest);
    } else if cp < 0x10000 {
      DecodeEncode3(c, rest);
    } else {
      DecodeEncode4(c, rest);
    }
  }

  lemma EncodeDecode2(b: seq<byte>)
    requires DecodeFirst(b).Some? && DecodeFirst(b).value.1 == 2
    ensures EncodeChar(DecodeFirst(b).value.0) == b[..2]
  {
    var c := DecodeFirst(b).value.0;
    var b0, x1 := b[0] as int, b[1] as int - 0x80;
    assert c as int == ((0 * 64 + 0) * 64 + (b0 - 0xC0)) * 64 + x1;
    Undigits(0, 0, b0 - 0xC0, x1);
  }

  lemma EncodeDecode3(b: seq<byte>)
    requires DecodeFirst(b).Some? && DecodeFirst(b).value.1 == 3
    ensures EncodeChar(DecodeFirst(b).value.0) == b[..3]
  {
    var c := DecodeFirst(b).value.0;
    var b0, x1, x2 := b[0] as int, b[1] as int - 0x80, b[2] as int - 0x80;
    assert c as int == ((0 * 64 + (b0 - 0xE0)) * 64 + x1) * 64 + x2;
    Undigits(0, b0 - 0xE0, x1, x2);
  }

  lemma EncodeDecode4(b: seq<byte>)
    requires DecodeFirst(b).Some? && DecodeFirst(b).value.1 == 4
    ensures EncodeChar(DecodeFirst(b).value.0) == b[..4]
  {
    var c := DecodeFirst(b).value.0;
    var b0, x1, x2, x3 := b[0] as int, b[1] as int - 0x80, b[2] as int - 0x80, b[3] as int - 0x80;
    assert c as int == (((b0 - 0xF0) * 64 + x1) * 64 + x2) * 64 + x3;
    Undigits(b0 - 0xF0, x1, x2, x3);
  }

  lemma EncodeDecodeChar(b: seq<byte>)
    requires DecodeFirst(b).Some?
    ensures EncodeChar(DecodeFirst(b).value.0) == b[..DecodeFirst(b).value.1]
  {
    var n := DecodeFirst(b).value.1;
    if n == 1 {
    } else if n == 2 {
      EncodeDecode2(b);
    } else if n == 3 {
      EncodeDecode3(b);
    } else {
      EncodeDecode4(b);
    }
  }

  // ----- whole texts -----

  /** Decoding what was encoded gives the text back. */
  lemma {:induction false} DecodeEncode(s: string)
    ensures Decode(Encode(s)) == Some(s)
    decreases |s|
  {
    if |s| > 0 {
      var head := EncodeChar(s[0]);
      DecodeEncodeChar(s[0], Encode(s[1..]));
      assert (head + Encode(s[1..]))[|head|..] == Encode(s[1..]);
      DecodeEncode(s[1..]);
      assert [s[0]] + s[1..] == s;
    }
  }

  /** Whatever decodes is the encoding of what it decodes to: decoding
      loses nothing and accepts each text in one spelling only. */
  lemma {:induction false} EncodeDecode(b: seq<byte>)
    requires Decode(b).Some?
    ensures Encode(Decode(b).value) == b
    decreases |b|
  {
    if |b| > 0 {
      DecodeCons(b);
      var c, n := DecodeFirst(b).value.0, DecodeFirst(b).value.1;
      EncodeDecodeChar(b);
      EncodeDecode(b[n..]);
      ConsEncode(b, c, n, Decode(b[n..]).value);
    }
  }

  lemma ConsEncode(b: seq<byte>, c: char, n: nat, rest: string)
    requires 1 <= n <= |b| && EncodeChar(c) == b[..n] && Encode(rest) == b[n..]
    ensures Encode([c] + rest) == b
  {
    var s := [c] + rest;
    assert s[0] == c && s[1..] == rest;
    assert b == b[..n] + b[n..];
  }

  /** A non-empty byte string that decodes starts with one whole character. */
  lemma DecodeCons(b: seq<byte>)
    requires |b| > 0 && Decode(b).Some?
    ensures DecodeFirst(b).Some?
    ensures var n := DecodeFirst(b).value.1;
      1 <= n <= |b| && Decode(b[n..]).Some? &&
      Decode(b).value == [DecodeFirst(b).value.0] + Decode(b[n..]).value
  {
  }

  /** Two byte strings that decode to the same text are equal. */
  lemma DecodeInjective(b1: seq<byte>, b2: seq<byte>)
    requires Decode(b1).Some? && Decode(b1) == Decode(b2)
    ensures b1 == b2
  {
    EncodeDecode(b1);
    EncodeDecode(b2);
  }

  /** ASCII bytes decode one to one. */
  lemma {:induction false} DecodeAscii(b: seq<byte>)
    requires forall i :: 0 <= i < |b| ==> b[i] < 0x80
    ensures Decode(b).Some? && |Decode(b).value| == |b|
    ensures forall i :: 0 <= i < |b| ==> Decode(b).value[i] as int == b[i] as int
    decreases |b|
  {
    if |b| > 0 {
      DecodeAscii(b[1..]);
      assert DecodeFirst(b) == Some((b[0] as int as char, 1));
      var s := Decode(b).value;
      assert s == [b[0] as int as char] + Decode(b[1..]).value;
      forall i | 0 <= i < |b|
        ensures s[i] as int == b[i] as int
      {
        if i > 0 {
          assert s[i] == Decode(b[1..]).value[i - 1];
        }
      }
    }
  }

  /** An encoded surrogate, 0xED 0xA0 0x80 for U+D800, is refused. */
  lemma SurrogateRefused(rest: seq<byte>)
    ensures Decode([0xED, 0xA0, 0x80] + rest).None?
  {
    var b: seq<byte> := [0xED, 0xA0, 0x80] + rest;
    assert b[0] == 0xED && b[1] == 0xA0;
    assert DecodeFirst(b).None?;
  }

  /** An overlong two-byte form of '/', 0xC0 0xAF, is refused. */
  lemma OverlongRefused(rest: seq<byte>)
    ensures Decode([0xC0, 0xAF] + rest).None?
  {
    var b: seq<byte> := [0xC0, 0xAF] + rest;
    assert b[0] == 0xC0;
    assert DecodeFirst(b).None?;
  }
}
