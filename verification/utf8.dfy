/** UTF-8 as Python's `str.encode()` and `bytes.decode()` apply it with the
    default codec and error handler (RFC 3629). A Dafny `char` is a Unicode
    scalar value, so every string can be encoded; a Python string holding a
    lone surrogate, whose `encode()` raises, has no counterpart here. The
    decoder rejects what Python's strict decoder rejects: stray continuation
    bytes, truncated sequences, overlong forms, surrogates and values above
    U+10FFFF. */
module Utf8 {
  import opened Wrappers

  predicate IsContinuation(b: byte)
  {
    0x80 <= b < 0xC0
  }

  /** The one to four bytes of a single code point. */
  function EncodeChar(c: char): (r: seq<byte>)
    ensures 1 <= |r| <= 4
  {
    var x := c as int;
    if x < 0x80 then [x]
    else if x < 0x800 then [0xC0 + x / 64, 0x80 + x % 64]
    else if x < 0x10000 then [0xE0 + x / 4096, 0x80 + (x / 64) % 64, 0x80 + x % 64]
    else [0xF0 + x / 262144, 0x80 + (x / 4096) % 64, 0x80 + (x / 64) % 64, 0x80 + x % 64]
  }

  /** `s.encode()`: the code points' byte sequences, in order. */
  function Encode(s: string): (r: seq<byte>)
    ensures |s| <= |r| <= 4 * |s|
    decreases |s|
  {
    if |s| == 0 then [] else EncodeChar(s[0]) + Encode(s[1..])
  }

  /** One decoded code point and the number of bytes it occupied. */
  datatype Decoded = Decoded(c: char, len: nat)

  /** Decodes the code point at the front of `b`; `None` where Python raises
      `UnicodeDecodeError`. */
  function DecodeFirst(b: seq<byte>): (r: Option<Decoded>)
    requires |b| > 0
    ensures r.Some? ==> 1 <= r.value.len <= |b|
  {
    var b0: int := b[0];
    if b0 < 0x80 then Some(Decoded(b0 as char, 1))
    else if 0xC2 <= b0 < 0xE0 then
      if |b| >= 2 && IsContinuation(b[1]) then
        Some(Decoded(((b0 - 0xC0) * 64 + (b[1] as int - 0x80)) as char, 2))
      else None
    else if 0xE0 <= b0 < 0xF0 then
      if |b| >= 3 && IsContinuation(b[1]) && IsContinuation(b[2]) then
        var x := (b0 - 0xE0) * 4096 + (b[1] as int - 0x80) * 64 + (b[2] as int - 0x80);
        if 0x800 <= x && !(0xD800 <= x < 0xE000) then Some(Decoded(x as char, 3)) else None
      else None
    else if 0xF0 <= b0 < 0xF5 then
      if |b| >= 4 && IsContinuation(b[1]) && IsContinuation(b[2]) && IsContinuation(b[3]) then
        var x := (b0 - 0xF0) * 262144 + (b[1] as int - 0x80) * 4096 + (b[2] as int - 0x80) * 64 + (b[3] as int - 0x80);
        if 0x10000 <= x < 0x110000 then Some(Decoded(x as char, 4)) else None
      else None
    else None
  }

  /** `b.decode()`; `None` where Python raises `UnicodeDecodeError`. */
  function Decode(b: seq<byte>): Option<string>
    decreases |b|
  {
    if |b| == 0 then Some("")
    else
      match DecodeFirst(b)
      case None => None
      case Some(d) =>
        match Decode(b[d.len..])
        case None => None
        case Some(rest) => Some([d.c] + rest)
  }

  lemma DecodeFirstTwo(c: char, rest: seq<byte>)
    requires 0x80 <= c as int < 0x800
    ensures DecodeFirst(EncodeChar(c) + rest) == Some(Decoded(c, 2))
  {
    var x := c as int;
    var b := EncodeChar(c) + rest;
    assert b[0] == 0xC0 + x / 64 && b[1] == 0x80 + x % 64;
    assert (b[0] as int - 0xC0) * 64 + (b[1] as int - 0x80) == x;
  }

  lemma DecodeFirstThree(c: char, rest: seq<byte>)
    requires 0x800 <= c as int < 0x10000
    ensures DecodeFirst(EncodeChar(c) + rest) == Some(Decoded(c, 3))
  {
    var x := c as int;
    var b := EncodeChar(c) + rest;
    assert b[0] == 0xE0 + x / 4096 && b[1] == 0x80 + (x / 64) % 64 && b[2] == 0x80 + x % 64;
    assert x / 64 == (x / 4096) * 64 + (x / 64) % 64;
    assert x == (x / 64) * 64 + x % 64;
    assert (b[0] as int - 0xE0) * 4096 + (b[1] as int - 0x80) * 64 + (b[2] as int - 0x80) == x;
  }

  lemma DecodeFirstFour(c: char, rest: seq<byte>)
    requires 0x10000 <= c as int
    ensures DecodeFirst(EncodeChar(c) + rest) == Some(Decoded(c, 4))
  {
    var x := c as int;
    var b := EncodeChar(c) + rest;
    assert x < 0x110000;
    assert b[0] == 0xF0 + x / 262144 && b[1] == 0x80 + (x / 4096) % 64;
    assert b[2] == 0x80 + (x / 64) % 64 && b[3] == 0x80 + x % 64;
    assert x / 4096 == (x / 262144) * 64 + (x / 4096) % 64;
    assert x / 64 == (x / 4096) * 64 + (x / 64) % 64;
    assert x == (x / 64) * 64 + x % 64;
    assert (b[0] as int - 0xF0) * 262144 + (b[1] as int - 0x80) * 4096 + (b[2] as int - 0x80) * 64 + (b[3] as int - 0x80) == x;
  }

  /** The decoder reads back exactly the first encoded code point. */
  lemma DecodeFirstEncodeChar(c: char, rest: seq<byte>)
    ensures DecodeFirst(EncodeChar(c) + rest) == Some(Decoded(c, |EncodeChar(c)|))
  {
    var x := c as int;
    if x < 0x80 {
    } else if x < 0x800 {
      DecodeFirstTwo(c, rest);
    } else if x < 0x10000 {
      DecodeFirstThree(c, rest);
    } else {
      DecodeFirstFour(c, rest);
    }
  }

  /** Decoding undoes encoding: `s.encode().decode() == s` for every string. */
  lemma {:induction false} DecodeEncode(s: string)
    ensures Decode(Encode(s)) == Some(s)
    decreases |s|
  {
    if |s| > 0 {
      var e := EncodeChar(s[0]);
      var t := Encode(s[1..]);
      assert Encode(s) == e + t;
      DecodeFirstEncodeChar(s[0], t);
      assert (e + t)[|e|..] == t;
      DecodeEncode(s[1..]);
      assert s == [s[0]] + s[1..];
    }
  }

  /** Distinct strings have distinct encodings. */
  lemma EncodeInjective(s: string, t: string)
    requires Encode(s) == Encode(t)
    ensures s == t
  {
    DecodeEncode(s);
    DecodeEncode(t);
  }

  lemma EncodeDecodeFirstTwo(b: seq<byte>, x: int)
    requires |b| >= 2 && 0xC2 <= b[0] < 0xE0 && IsContinuation(b[1])
    requires x == (b[0] as int - 0xC0) * 64 + (b[1] as int - 0x80)
    ensures 0x80 <= x < 0x800 && x / 64 == b[0] as int - 0xC0 && x % 64 == b[1] as int - 0x80
  {
  }

  lemma EncodeDecodeFirstThree(b: seq<byte>, x: int)
    requires |b| >= 3 && 0xE0 <= b[0] < 0xF0 && IsContinuation(b[1]) && IsContinuation(b[2])
    requires x == (b[0] as int - 0xE0) * 4096 + (b[1] as int - 0x80) * 64 + (b[2] as int - 0x80)
    ensures x < 0x10000 && x / 4096 == b[0] as int - 0xE0
    ensures (x / 64) % 64 == b[1] as int - 0x80 && x % 64 == b[2] as int - 0x80
  {
    var y := (b[0] as int - 0xE0) * 64 + (b[1] as int - 0x80);
    assert x == y * 64 + (b[2] as int - 0x80);
    assert x / 64 == y && x % 64 == b[2] as int - 0x80;
  }

  lemma EncodeDecodeFirstFour(b: seq<byte>, x: int)
    requires |b| >= 4 && 0xF0 <= b[0] < 0xF5 && IsContinuation(b[1]) && IsContinuation(b[2]) && IsContinuation(b[3])
    requires x == (b[0] as int - 0xF0) * 262144 + (b[1] as int - 0x80) * 4096 + (b[2] as int - 0x80) * 64 + (b[3] as int - 0x80)
    ensures x / 262144 == b[0] as int - 0xF0 && (x / 4096) % 64 == b[1] as int - 0x80
    ensures (x / 64) % 64 == b[2] as int - 0x80 && x % 64 == b[3] as int - 0x80
  {
    var y := (b[0] as int - 0xF0) * 64 + (b[1] as int - 0x80);
    var z := y * 64 + (b[2] as int - 0x80);
    assert x == z * 64 + (b[3] as int - 0x80);
    assert x / 64 == z && x % 64 == b[3] as int - 0x80;
    assert z / 64 == y && z % 64 == b[2] as int - 0x80;
    assert x / 4096 == y by {
      assert x == y * 4096 + ((b[2] as int - 0x80) * 64 + (b[3] as int - 0x80));
    }
    assert x / 262144 == b[0] as int - 0xF0 by {
      assert x == (b[0] as int - 0xF0) * 262144 + ((b[1] as int - 0x80) * 4096 + (b[2] as int - 0x80) * 64 + (b[3] as int - 0x80));
    }
  }

  /** The bytes a decoded code point occupied are exactly its encoding: the
      decoder accepts only the shortest form. */
  lemma EncodeDecodeFirst(b: seq<byte>)
    requires |b| > 0 && DecodeFirst(b).Some?
    ensures EncodeChar(DecodeFirst(b).value.c) == b[..DecodeFirst(b).value.len]
  {
    var d := DecodeFirst(b).value;
    var x := d.c as int;
    if b[0] < 0x80 {
      assert b[..1] == [b[0]];
    } else if b[0] < 0xE0 {
      EncodeDecodeFirstTwo(b, x);
      assert b[..2] == [b[0], b[1]];
    } else if b[0] < 0xF0 {
      EncodeDecodeFirstThree(b, x);
      assert b[..3] == [b[0], b[1], b[2]];
    } else {
      EncodeDecodeFirstFour(b, x);
      assert b[..4] == [b[0], b[1], b[2], b[3]];
    }
  }

  /** Encoding undoes decoding: whatever bytes decode, they are the encoding
      of the decoded string. */
  lemma {:induction false} EncodeDecode(b: seq<byte>)
    requires Decode(b).Some?
    ensures Encode(Decode(b).value) == b
    decreases |b|
  {
    if |b| > 0 {
      var d := DecodeFirst(b).value;
      var rest := Decode(b[d.len..]).value;
      var s := Decode(b).value;
      assert s == [d.c] + rest;
      assert s[1..] == rest;
      EncodeDecode(b[d.len..]);
      EncodeDecodeFirst(b);
      assert b == b[..d.len] + b[d.len..];
    }
  }
}
