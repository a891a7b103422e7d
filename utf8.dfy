/**
 * UTF-8, as Foundation applies it to the server's text: `string.utf8` and
 * `data(using: .utf8)` encode, and `String(data:encoding: .utf8)` decodes,
 * answering nil for anything that is not well-formed UTF-8 (overlong forms,
 * surrogates, values above U+10FFFF, stray or missing continuation bytes).
 */
module Utf8 {
  import opened Wrappers
  import opened Text

  function EncodeChar(c: char): (b: seq<byte>)
    ensures 1 <= |b| <= 4
  {
    var cp := c as int;
    if cp < 0x80 then [cp]
    else if cp < 0x800 then [0xC0 + cp / 64, 0x80 + cp % 64]
    else if cp < 0x10000 then [0xE0 + cp / 4096, 0x80 + (cp / 64) % 64, 0x80 + cp % 64]
    else [0xF0 + cp / 262144, 0x80 + (cp / 4096) % 64, 0x80 + (cp / 64) % 64, 0x80 + cp % 64]
  }

  function Encode(s: string): (b: seq<byte>)
    ensures |b| >= |s|
  {
    if s == [] then [] else EncodeChar(s[0]) + Encode(s[1..])
  }

  predicate IsContinuation(b: byte) {
    0x80 <= b < 0xC0
  }

  /** The first scalar value of `b` and the number of bytes it occupies. */
  function DecodeFirst(b: seq<byte>): (r: Option<(char, nat)>)
    requires b != []
    ensures r.Some? ==> 1 <= r.value.1 <= |b|
  {
    var b0: int := b[0];
    if b0 < 0x80 then Some((b0 as char, 1))
    else if 0xC0 <= b0 < 0xE0 then
      if |b| >= 2 && IsContinuation(b[1]) then
        var cp := (b0 - 0xC0) * 64 + (b[1] as int - 0x80);
        if cp >= 0x80 then Some((cp as char, 2)) else None
      else None
    else if 0xE0 <= b0 < 0xF0 then
      if |b| >= 3 && IsContinuation(b[1]) && IsContinuation(b[2]) then
        var cp := (b0 - 0xE0) * 4096 + (b[1] as int - 0x80) * 64 + (b[2] as int - 0x80);
        if cp >= 0x800 && !(0xD800 <= cp < 0xE000) then Some((cp as char, 3)) else None
      else None
    else if 0xF0 <= b0 < 0xF8 then
      if |b| >= 4 && IsContinuation(b[1]) && IsContinuation(b[2]) && IsContinuation(b[3]) then
        var cp := (b0 - 0xF0) * 262144 + (b[1] as int - 0x80) * 4096 + (b[2] as int - 0x80) * 64 + (b[3] as int - 0x80);
        if 0x10000 <= cp < 0x110000 then Some((cp as char, 4)) else None
      else None
    else None
  }

  function Decode(b: seq<byte>): Option<string>
    decreases |b|
  {
    if b == [] then Some([])
    else
      match DecodeFirst(b)
      case None => None
      case Some((c, n)) =>
        match Decode(b[n..])
        case None => None
        case Some(rest) => Some([c] + rest)
  }

  lemma DecodeFirstOfEncodeChar(c: char, rest: seq<byte>)
    ensures DecodeFirst(EncodeChar(c) + rest) == Some((c, |EncodeChar(c)|))
  {
    var cp := c as int;
    if cp < 0x80 {
    } else if cp < 0x800 {
      DecodeFirstTwo(c, rest);
    } else if cp < 0x10000 {
      DecodeFirstThree(c, rest);
    } else {
      DecodeFirstFour(c, rest);
    }
  }

  lemma DecodeFirstTwo(c: char, rest: seq<byte>)
    requires 0x80 <= c as int < 0x800
    ensures DecodeFirst(EncodeChar(c) + rest) == Some((c, 2))
  {
    var cp := c as int;
    var b := EncodeChar(c) + rest;
    var x, y := cp / 64, cp % 64;
    assert cp == 64 * x + y && 2 <= x < 32;
    assert b[0] == 0xC0 + x && b[1] == 0x80 + y;
    assert (b[0] as int - 0xC0) * 64 + (b[1] as int - 0x80) == cp;
  }

  lemma DecodeFirstThree(c: char, rest: seq<byte>)
    requires 0x800 <= c as int < 0x10000
    ensures DecodeFirst(EncodeChar(c) + rest) == Some((c, 3))
  {
    var cp := c as int;
    var b := EncodeChar(c) + rest;
    var x, y, z := cp / 4096, (cp / 64) % 64, cp % 64;
    assert cp == 4096 * x + 64 * y + z && x < 16;
    assert b[0] == 0xE0 + x && b[1] == 0x80 + y && b[2] == 0x80 + z;
    assert (b[0] as int - 0xE0) * 4096 + (b[1] as int - 0x80) * 64 + (b[2] as int - 0x80) == cp;
  }

  lemma DecodeFirstFour(c: char, rest: seq<byte>)
    requires 0x10000 <= c as int
    ensures DecodeFirst(EncodeChar(c) + rest) == Some((c, 4))
  {
    var cp := c as int;
    var w, x, y, z := cp / 262144, (cp / 4096) % 64, (cp / 64) % 64, cp % 64;
    FourByteDigits(cp);
    var e := [0xF0 + w, 0x80 + x, 0x80 + y, 0x80 + z];
    assert EncodeChar(c) == e;
    var b := e + rest;
    assert b[0] == 0xF0 + w && b[1] == 0x80 + x && b[2] == 0x80 + y && b[3] == 0x80 + z;
  }

  lemma FourByteDigits(cp: int)
    requires 0x10000 <= cp < 0x110000
    ensures cp / 262144 < 8
    ensures cp == 262144 * (cp / 262144) + 4096 * ((cp / 4096) % 64) + 64 * ((cp / 64) % 64) + cp % 64
  {
    var q1 := cp / 64;
    var q2 := q1 / 64;
    assert cp == 64 * q1 + cp % 64;
    assert q1 == 64 * q2 + q1 % 64;
    assert cp / 4096 == q2;
    assert q2 == 64 * (q2 / 64) + q2 % 64;
    assert cp / 262144 == q2 / 64;
  }

  lemma EncodeCharOfDecodeFirst(b: seq<byte>)
    requires b != [] && DecodeFirst(b).Some?
    ensures EncodeChar(DecodeFirst(b).value.0) == b[..DecodeFirst(b).value.1]
  {
    var b0: int := b[0];
    if b0 < 0x80 {
    } else if b0 < 0xE0 {
      EncodeCharOfDecodeTwo(b);
    } else if b0 < 0xF0 {
      EncodeCharOfDecodeThree(b);
    } else {
      EncodeCharOfDecodeFour(b);
    }
  }

  lemma EncodeCharOfDecodeTwo(b: seq<byte>)
    requires b != [] && 0x80 <= b[0] < 0xE0 && DecodeFirst(b).Some?
    ensures EncodeChar(DecodeFirst(b).value.0) == b[..2]
  {
    var x, y := b[0] as int - 0xC0, b[1] as int - 0x80;
    var cp := DecodeFirst(b).value.0 as int;
    assert cp == 64 * x + y && 0 <= y < 64;
    assert cp / 64 == x && cp % 64 == y;
  }

  lemma EncodeCharOfDecodeThree(b: seq<byte>)
    requires b != [] && 0xE0 <= b[0] < 0xF0 && DecodeFirst(b).Some?
    ensures EncodeChar(DecodeFirst(b).value.0) == b[..3]
  {
    var x, y, z := b[0] as int - 0xE0, b[1] as int - 0x80, b[2] as int - 0x80;
    var cp := DecodeFirst(b).value.0 as int;
    assert cp == 4096 * x + 64 * y + z && 0 <= y < 64 && 0 <= z < 64;
    assert cp / 4096 == x && cp / 64 == 64 * x + y && cp % 64 == z;
    assert (cp / 64) % 64 == y;
  }

  lemma EncodeCharOfDecodeFour(b: seq<byte>)
    requires b != [] && 0xF0 <= b[0] && DecodeFirst(b).Some?
    ensures EncodeChar(DecodeFirst(b).value.0) == b[..4]
  {
    var w, x, y, z := b[0] as int - 0xF0, b[1] as int - 0x80, b[2] as int - 0x80, b[3] as int - 0x80;
    var cp := DecodeFirst(b).value.0 as int;
    assert cp == 262144 * w + 4096 * x + 64 * y + z && 0 <= x < 64 && 0 <= y < 64 && 0 <= z < 64;
    assert cp / 262144 == w && cp / 4096 == 64 * w + x && cp / 64 == 4096 * w + 64 * x + y && cp % 64 == z;
    assert (cp / 4096) % 64 == x && (cp / 64) % 64 == y;
  }

  /** Decoding what was encoded gives the text back. */
  lemma {:induction false} DecodeEncode(s: string)
    ensures Decode(Encode(s)) == Some(s)
  {
    if s != [] {
      var e := EncodeChar(s[0]);
      DecodeFirstOfEncodeChar(s[0], Encode(s[1..]));
      assert (e + Encode(s[1..]))[|e|..] == Encode(s[1..]);
      DecodeEncode(s[1..]);
      assert [s[0]] + s[1..] == s;
    }
  }

  /** Whatever decodes is exactly the encoding of its result: no two byte
      sequences decode to the same text. */
  lemma {:induction false} EncodeDecode(b: seq<byte>)
    requires Decode(b).Some?
    ensures Encode(Decode(b).value) == b
    decreases |b|
  {
    if b != [] {
      DecodeStep(b);
      var n := DecodeFirst(b).value.1;
      EncodeCharOfDecodeFirst(b);
      EncodeDecode(b[n..]);
      SplitAt(b, n);
    }
  }

  /** A non-empty decodable sequence decodes to its first scalar value
      followed by the decoding of the rest. */
  lemma DecodeStep(b: seq<byte>)
    requires b != [] && Decode(b).Some?
    ensures DecodeFirst(b).Some?
    ensures var n := DecodeFirst(b).value.1;
            && Decode(b[n..]).Some?
            && Decode(b).value == [DecodeFirst(b).value.0] + Decode(b[n..]).value
  {
  }

  lemma SplitAt(b: seq<byte>, n: nat)
    requires n <= |b|
    ensures b == b[..n] + b[n..]
  {
  }

  /** Encoding distributes over concatenation. */
  lemma {:induction false} EncodeAppend(a: string, b: string)
    ensures Encode(a + b) == Encode(a) + Encode(b)
  {
    if a != [] {
      assert (a + b)[0] == a[0] && (a + b)[1..] == a[1..] + b;
      EncodeAppend(a[1..], b);
      calc {
        Encode(a + b);
        EncodeChar(a[0]) + Encode(a[1..] + b);
        EncodeChar(a[0]) + (Encode(a[1..]) + Encode(b));
        (EncodeChar(a[0]) + Encode(a[1..])) + Encode(b);
      }
    } else {
      assert a + b == b;
    }
  }

  predicate IsAscii(s: string) {
    forall k :: 0 <= k < |s| ==> s[k] as int < 0x80
  }

  /** ASCII text encodes byte for byte. */
  lemma {:induction false} EncodeAscii(s: string)
    requires IsAscii(s)
    ensures |Encode(s)| == |s|
    ensures forall k :: 0 <= k < |s| ==> Encode(s)[k] == s[k] as int
  {
    if s != [] {
      EncodeAscii(s[1..]);
    }
  }
}
