/** UTF-8 as Rust's `str` uses it: the encoder, and a decoder that accepts exactly the
    encodings of sequences of Unicode scalar values. */
module Utf8 {
  import opened Core

  type Byte = b: int | 0 <= b < 256

  function EncodeChar(c: char): (bytes: seq<Byte>)
    ensures 1 <= |bytes| <= 4
  {
    var n := c as int;
    if n < 0x80 then [n]
    else if n < 0x800 then [0xC0 + n / 64, 0x80 + n % 64]
    else if n < 0x10000 then [0xE0 + n / 4096, 0x80 + n / 64 % 64, 0x80 + n % 64]
    else [0xF0 + n / 262144, 0x80 + n / 4096 % 64, 0x80 + n / 64 % 64, 0x80 + n % 64]
  }

  function Encode(text: string): seq<Byte> {
    if text == [] then [] else EncodeChar(text[0]) + Encode(text[1..])
  }

  predicate IsContinuation(b: Byte) { 0x80 <= b < 0xC0 }

  /** The value of a two, three or four byte form whose continuation bytes are in range. */
  function Value2(b0: int, b1: int): int { (b0 - 0xC0) * 64 + (b1 - 0x80) }
  function Value3(b0: int, b1: int, b2: int): int { (b0 - 0xE0) * 4096 + (b1 - 0x80) * 64 + (b2 - 0x80) }
  function Value4(b0: int, b1: int, b2: int, b3: int): int {
    (b0 - 0xF0) * 262144 + (b1 - 0x80) * 4096 + (b2 - 0x80) * 64 + (b3 - 0x80)
  }

  /** The first scalar value of `bytes` and the number of bytes it takes. */
  function DecodeChar(bytes: seq<Byte>): (r: Option<(char, nat)>)
    requires bytes != []
    ensures r.Some? ==> 1 <= r.value.1 <= |bytes|
  {
    var b := bytes[0];
    if b < 0x80 then Some((b as char, 1))
    else if 0xC2 <= b < 0xE0 && |bytes| >= 2 && IsContinuation(bytes[1]) then
      Some((Value2(b, bytes[1]) as char, 2))
    else if 0xE0 <= b < 0xF0 && |bytes| >= 3 && IsContinuation(bytes[1]) && IsContinuation(bytes[2]) then
      var n := Value3(b, bytes[1], bytes[2]);
      if n < 0x800 || 0xD800 <= n < 0xE000 then None else Some((n as char, 3))
    else if 0xF0 <= b < 0xF5 && |bytes| >= 4
            && IsContinuation(bytes[1]) && IsContinuation(bytes[2]) && IsContinuation(bytes[3]) then
      var n := Value4(b, bytes[1], bytes[2], bytes[3]);
      if n < 0x10000 || 0x110000 <= n then None else Some((n as char, 4))
    else None
  }

  function Decode(bytes: seq<Byte>): Option<string>
    decreases |bytes|
  {
    if bytes == [] then Some("")
    else
      match DecodeChar(bytes)
      case None => None
      case Some((c, width)) =>
        match Decode(bytes[width..])
        case None => None
        case Some(rest) => Some([c] + rest)
  }

  /** Base-64 digits determine a number and are determined by it. */
  lemma Digits(n: int, d0: int, d1: int, d2: int, d3: int)
    requires 0 <= d1 < 64 && 0 <= d2 < 64 && 0 <= d3 < 64
    requires n == d0 * 262144 + d1 * 4096 + d2 * 64 + d3
    ensures n / 262144 == d0 && n / 4096 == d0 * 64 + d1 && n / 64 == d0 * 4096 + d1 * 64 + d2
    ensures n / 4096 % 64 == d1 && n / 64 % 64 == d2 && n % 64 == d3
  {
  }

  lemma DecodeShort(c: char, rest: seq<Byte>)
    requires c as int < 0x800
    ensures DecodeChar(EncodeChar(c) + rest) == Some((c, |EncodeChar(c)|))
  {
    var n := c as int;
    Digits(n, 0, 0, n / 64, n % 64);
    assert n >= 0x80 ==> Value2(0xC0 + n / 64, 0x80 + n % 64) == n;
  }

  lemma DecodeThree(c: char, rest: seq<Byte>)
    requires 0x800 <= c as int < 0x10000
    ensures DecodeChar(EncodeChar(c) + rest) == Some((c, |EncodeChar(c)|))
  {
    var n := c as int;
    Digits(n, 0, n / 4096, n / 64 % 64, n % 64);
    assert Value3(0xE0 + n / 4096, 0x80 + n / 64 % 64, 0x80 + n % 64) == n;
  }

  lemma DecodeFourBytes(bytes: seq<Byte>, c: char)
    requires |bytes| >= 4 && 0xF0 <= bytes[0] < 0xF5
    requires IsContinuation(bytes[1]) && IsContinuation(bytes[2]) && IsContinuation(bytes[3])
    requires Value4(bytes[0], bytes[1], bytes[2], bytes[3]) == c as int >= 0x10000
    ensures DecodeChar(bytes) == Some((c, 4))
  {
  }

  lemma DecodeFour(c: char, rest: seq<Byte>)
    requires 0x10000 <= c as int
    ensures DecodeChar(EncodeChar(c) + rest) == Some((c, |EncodeChar(c)|))
  {
    hide DecodeChar;
    var n := c as int;
    Digits(n, n / 262144, n / 4096 % 64, n / 64 % 64, n % 64);
    DecodeFourBytes(EncodeChar(c) + rest, c);
  }

  lemma DecodeCharEncodeChar(c: char, rest: seq<Byte>)
    ensures DecodeChar(EncodeChar(c) + rest) == Some((c, |EncodeChar(c)|))
  {
    hide EncodeChar, DecodeChar;
    var n := c as int;
    if n < 0x800 {
      DecodeShort(c, rest);
    } else if n < 0x10000 {
      DecodeThree(c, rest);
    } else {
      DecodeFour(c, rest);
    }
  }

  lemma EncodeCharDecodeChar(bytes: seq<Byte>)
    requires bytes != [] && DecodeChar(bytes).Some?
    ensures EncodeChar(DecodeChar(bytes).value.0) == bytes[..DecodeChar(bytes).value.1]
  {
    var (c, width) := DecodeChar(bytes).value;
    var n := c as int;
    if width == 2 {
      Digits(n, 0, 0, bytes[0] - 0xC0, bytes[1] - 0x80);
    } else if width == 3 {
      Digits(n, 0, bytes[0] - 0xE0, bytes[1] - 0x80, bytes[2] - 0x80);
    } else if width == 4 {
      Digits(n, bytes[0] - 0xF0, bytes[1] - 0x80, bytes[2] - 0x80, bytes[3] - 0x80);
    }
  }

  /** The four forms of section 3 of RFC 3629: the shortest one that holds the number, its first byte
      says how many follow, and each of those holds six bits. */
  lemma BytesOfChar(c: char, d0: nat, d1: nat, d2: nat, d3: nat)
    requires d1 < 64 && d2 < 64 && d3 < 64 && c as int == d0 * 0x40000 + d1 * 0x1000 + d2 * 0x40 + d3
    ensures var n := c as int;
            Encode([c]) ==
            if n < 0x80 then [n]
            else if n < 0x800 then [0xC0 + d2, 0x80 + d3]
            else if n < 0x10000 then [0xE0 + d1, 0x80 + d2, 0x80 + d3]
            else [0xF0 + d0, 0x80 + d1, 0x80 + d2, 0x80 + d3]
  {
    Digits(c as int, d0, d1, d2, d3);
    assert Encode([c]) == EncodeChar(c) + Encode([]) == EncodeChar(c);
  }

  lemma {:induction false} DecodeEncode(text: string)
    ensures Decode(Encode(text)) == Some(text)
  {
    hide EncodeChar, DecodeChar;
    if text != [] {
      DecodeCharEncodeChar(text[0], Encode(text[1..]));
      DecodeEncode(text[1..]);
      assert Encode(text)[|EncodeChar(text[0])|..] == Encode(text[1..]);
      assert text == [text[0]] + text[1..];
    }
  }

  /** Decoding loses nothing: what is accepted is the encoding of what is returned. */
  lemma {:induction false} EncodeDecode(bytes: seq<Byte>)
    requires Decode(bytes).Some?
    ensures Encode(Decode(bytes).value) == bytes
    decreases |bytes|
  {
    hide EncodeChar, DecodeChar;
    if bytes != [] {
      EncodeCharDecodeChar(bytes);
      var (c, width) := DecodeChar(bytes).value;
      var rest := bytes[width..];
      EncodeDecode(rest);
      EncodeCons(c, Decode(rest).value);
      assert bytes == bytes[..width] + rest;
    }
  }

  lemma EncodeCons(c: char, text: string)
    ensures Encode([c] + text) == EncodeChar(c) + Encode(text)
  {
    assert ([c] + text)[1..] == text;
  }

  lemma {:induction false} EncodeAppend(a: string, b: string)
    ensures Encode(a + b) == Encode(a) + Encode(b)
  {
    if a == [] {
      assert a + b == b;
    } else {
      assert (a + b)[0] == a[0] && (a + b)[1..] == a[1..] + b;
      EncodeAppend(a[1..], b);
    }
  }

  /** An ASCII character occurs in the bytes exactly where it occurs in the text. */
  lemma {:induction false} EncodeAvoids(text: string, c: char)
    requires c as int < 0x80
    ensures c !in text <==> (c as int) !in Encode(text)
  {
    if text != [] {
      EncodeAvoids(text[1..], c);
      assert text == [text[0]] + text[1..];
      assert (c as int) in EncodeChar(text[0]) <==> c == text[0];
    }
  }
}
