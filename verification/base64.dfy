/** Base64 text encoding as the program uses it through Python's `base64`
    module: `b64encode`/`b64decode` with the alphabet of section 4 of RFC 4648,
    and `urlsafe_b64encode`/`urlsafe_b64decode` with the alphabet of section 5.
    Decoding accepts padded text only and, like `b64decode`, ignores the bits
    a padded final group leaves over. */
module Base64 {
  import opened Wrappers

  /** The value of one base64 character. */
  type sextet = v: int | 0 <= v < 64

  /** A character of the standard alphabet (section 4 of RFC 4648). */
  predicate IsStdChar(c: char)
  {
    'A' <= c <= 'Z' || 'a' <= c <= 'z' || '0' <= c <= '9' || c == '+' || c == '/'
  }

  /** A character of the URL- and filename-safe alphabet (section 5 of RFC 4648). */
  predicate IsUrlChar(c: char)
  {
    'A' <= c <= 'Z' || 'a' <= c <= 'z' || '0' <= c <= '9' || c == '-' || c == '_'
  }

  /** Every character is an alphabet character or the pad character `=`. */
  predicate StdText(s: string)
  {
    forall c | c in s :: IsStdChar(c) || c == '='
  }

  predicate UrlText(s: string)
  {
    forall c | c in s :: IsUrlChar(c) || c == '='
  }

  function StdChar(v: sextet): (c: char)
    ensures IsStdChar(c)
  {
    if v < 26 then (65 + v) as char
    else if v < 52 then (71 + v) as char
    else if v < 62 then (v - 4) as char
    else if v == 62 then '+'
    else '/'
  }

  function StdValue(c: char): (v: sextet)
    requires IsStdChar(c)
    ensures StdChar(v) == c
  {
    if 'A' <= c <= 'Z' then c as int - 65
    else if 'a' <= c <= 'z' then c as int - 71
    else if '0' <= c <= '9' then c as int + 4
    else if c == '+' then 62
    else 63
  }

  lemma StdValueOfChar(v: sextet)
    ensures StdValue(StdChar(v)) == v
  {
  }

  /** Three bytes become four characters, six bits each, most significant first. */
  function EncodeGroup(b0: byte, b1: byte, b2: byte): string
  {
    [StdChar(b0 / 4), StdChar((b0 % 4) * 16 + b1 / 16), StdChar((b1 % 16) * 4 + b2 / 64), StdChar(b2 % 64)]
  }

  /** `base64.b64encode(b).decode()`: a final group of one or two bytes is
      zero-filled and padded with `=`. */
  function Encode(b: seq<byte>): (s: string)
    ensures StdText(s)
    ensures |s| == 4 * ((|b| + 2) / 3)
    decreases |b|
  {
    if |b| == 0 then ""
    else if |b| == 1 then [StdChar(b[0] / 4), StdChar((b[0] % 4) * 16), '=', '=']
    else if |b| == 2 then [StdChar(b[0] / 4), StdChar((b[0] % 4) * 16 + b[1] / 16), StdChar((b[1] % 16) * 4), '=']
    else EncodeGroup(b[0], b[1], b[2]) + Encode(b[3..])
  }

  function DecodeGroup(v0: sextet, v1: sextet, v2: sextet, v3: sextet): seq<byte>
  {
    [v0 * 4 + v1 / 16, (v1 % 16) * 16 + v2 / 4, (v2 % 4) * 64 + v3]
  }

  /** The last four characters, which may end in one or two `=`. */
  function DecodeFinal(q: string): Option<seq<byte>>
    requires |q| == 4
  {
    if !IsStdChar(q[0]) || !IsStdChar(q[1]) then None
    else if q[2] == '=' && q[3] == '=' then
      Some([StdValue(q[0]) * 4 + StdValue(q[1]) / 16])
    else if !IsStdChar(q[2]) then None
    else if q[3] == '=' then
      Some([StdValue(q[0]) * 4 + StdValue(q[1]) / 16, (StdValue(q[1]) % 16) * 16 + StdValue(q[2]) / 4])
    else if IsStdChar(q[3]) then
      Some(DecodeGroup(StdValue(q[0]), StdValue(q[1]), StdValue(q[2]), StdValue(q[3])))
    else None
  }

  /** `base64.b64decode(s)`; `None` where Python raises `binascii.Error`. */
  function Decode(s: string): Option<seq<byte>>
    decreases |s|
  {
    if |s| == 0 then Some([])
    else if |s| < 4 then None
    else if |s| == 4 then DecodeFinal(s)
    else if IsStdChar(s[0]) && IsStdChar(s[1]) && IsStdChar(s[2]) && IsStdChar(s[3]) then
      match Decode(s[4..])
      case None => None
      case Some(rest) => Some(DecodeGroup(StdValue(s[0]), StdValue(s[1]), StdValue(s[2]), StdValue(s[3])) + rest)
    else None
  }

  lemma GroupRoundTrip(b0: byte, b1: byte, b2: byte)
    ensures DecodeGroup(b0 / 4, (b0 % 4) * 16 + b1 / 16, (b1 % 16) * 4 + b2 / 64, b2 % 64) == [b0, b1, b2]
  {
  }

  lemma DecodeEncodeOne(b0: byte)
    ensures Decode(Encode([b0])) == Some([b0])
  {
    StdValueOfChar(b0 / 4);
    StdValueOfChar((b0 % 4) * 16);
    var q := Encode([b0]);
    assert q == [StdChar(b0 / 4), StdChar((b0 % 4) * 16), '=', '='];
  }

  lemma DecodeEncodeTwo(b0: byte, b1: byte)
    ensures Decode(Encode([b0, b1])) == Some([b0, b1])
  {
    var v0, v1, v2 := b0 / 4, (b0 % 4) * 16 + b1 / 16, (b1 % 16) * 4;
    StdValueOfChar(v0);
    StdValueOfChar(v1);
    StdValueOfChar(v2);
    assert v1 / 16 == b0 % 4 && v1 % 16 == b1 / 16;
    assert v2 / 4 == b1 % 16;
    var q := Encode([b0, b1]);
    assert q == [StdChar(v0), StdChar(v1), StdChar(v2), '='];
    assert DecodeFinal(q) == Some([v0 * 4 + v1 / 16, (v1 % 16) * 16 + v2 / 4]);
  }

  /** The four characters of a full group decode back to its three bytes. */
  lemma DecodeEncodeGroup(b0: byte, b1: byte, b2: byte)
    ensures var q := EncodeGroup(b0, b1, b2);
      && IsStdChar(q[0]) && IsStdChar(q[1]) && IsStdChar(q[2]) && IsStdChar(q[3])
      && DecodeGroup(StdValue(q[0]), StdValue(q[1]), StdValue(q[2]), StdValue(q[3])) == [b0, b1, b2]
  {
    StdValueOfChar(b0 / 4);
    StdValueOfChar((b0 % 4) * 16 + b1 / 16);
    StdValueOfChar((b1 % 16) * 4 + b2 / 64);
    StdValueOfChar(b2 % 64);
    GroupRoundTrip(b0, b1, b2);
  }

  /** A full group followed by more text decodes group by group. */
  lemma DecodeGroupThenRest(q: string, t: string)
    requires |q| == 4 && |t| > 0
    requires IsStdChar(q[0]) && IsStdChar(q[1]) && IsStdChar(q[2]) && IsStdChar(q[3])
    ensures Decode(q + t) == match Decode(t)
      case None => None
      case Some(rest) => Some(DecodeGroup(StdValue(q[0]), StdValue(q[1]), StdValue(q[2]), StdValue(q[3])) + rest)
  {
    assert (q + t)[4..] == t;
  }

  /** Four alphabet characters with no padding decode as one full group. */
  lemma DecodeFullFinal(q: string)
    requires |q| == 4 && IsStdChar(q[0]) && IsStdChar(q[1]) && IsStdChar(q[2]) && IsStdChar(q[3])
    ensures Decode(q) == Some(DecodeGroup(StdValue(q[0]), StdValue(q[1]), StdValue(q[2]), StdValue(q[3])))
  {
    assert q[2] != '=' && q[3] != '=';
  }

  lemma EncodeThree(b0: byte, b1: byte, b2: byte)
    ensures Encode([b0, b1, b2]) == EncodeGroup(b0, b1, b2)
  {
    assert [b0, b1, b2][3..] == [];
    assert EncodeGroup(b0, b1, b2) + "" == EncodeGroup(b0, b1, b2);
  }

  lemma DecodeEncodeThree(b0: byte, b1: byte, b2: byte)
    ensures Decode(Encode([b0, b1, b2])) == Some([b0, b1, b2])
  {
    EncodeThree(b0, b1, b2);
    DecodeEncodeGroup(b0, b1, b2);
    DecodeFullFinal(EncodeGroup(b0, b1, b2));
  }

  lemma SplitThree(b: seq<byte>)
    requires |b| >= 3
    ensures b == [b[0], b[1], b[2]] + b[3..]
  {
  }

  lemma DecodeEncodeStep(b: seq<byte>)
    requires |b| > 3
    requires Decode(Encode(b[3..])) == Some(b[3..])
    ensures Decode(Encode(b)) == Some(b)
  {
    var q := EncodeGroup(b[0], b[1], b[2]);
    var t := Encode(b[3..]);
    DecodeEncodeGroup(b[0], b[1], b[2]);
    assert Encode(b) == q + t;
    assert |t| > 0;
    DecodeGroupThenRest(q, t);
    SplitThree(b);
  }

  /** Decoding undoes encoding, for every byte string. */
  lemma {:induction false} DecodeEncode(b: seq<byte>)
    ensures Decode(Encode(b)) == Some(b)
    decreases |b|
  {
    if |b| == 1 {
      DecodeEncodeOne(b[0]);
      assert b == [b[0]];
    } else if |b| == 2 {
      DecodeEncodeTwo(b[0], b[1]);
      assert b == [b[0], b[1]];
    } else if |b| == 3 {
      DecodeEncodeThree(b[0], b[1], b[2]);
      assert b == [b[0], b[1], b[2]];
    } else if |b| > 3 {
      DecodeEncode(b[3..]);
      DecodeEncodeStep(b);
    }
  }

  /** The bits a padded final group leaves over are zero, as the encoder
      writes them. The decoder does not look at them, so "QR==" decodes like
      "QQ==". */
  predicate PadBitsZero(s: string)
  {
    |s| >= 4 ==>
      var q := s[|s| - 4..];
      && (q[2] == '=' && q[3] == '=' && IsStdChar(q[1]) ==> StdValue(q[1]) % 16 == 0)
      && (q[2] != '=' && q[3] == '=' && IsStdChar(q[2]) ==> StdValue(q[2]) % 4 == 0)
  }

  /** Text the encoder can have written: it decodes, and its pad bits are zero. */
  predicate Canonical(s: string)
  {
    Decode(s).Some? && PadBitsZero(s)
  }

  lemma PadBitsZeroOne(b: seq<byte>)
    requires |b| == 1
    ensures PadBitsZero(Encode(b))
  {
    var s := Encode(b);
    assert s == [StdChar(b[0] / 4), StdChar((b[0] % 4) * 16), '=', '='];
    assert s[|s| - 4..] == s;
    StdValueOfChar((b[0] % 4) * 16);
  }

  lemma PadBitsZeroTwo(b: seq<byte>)
    requires |b| == 2
    ensures PadBitsZero(Encode(b))
  {
    var s := Encode(b);
    assert s == [StdChar(b[0] / 4), StdChar((b[0] % 4) * 16 + b[1] / 16), StdChar((b[1] % 16) * 4), '='];
    assert s[|s| - 4..] == s;
    StdValueOfChar((b[1] % 16) * 4);
  }

  lemma PadBitsZeroThree(b: seq<byte>)
    requires |b| == 3
    ensures PadBitsZero(Encode(b))
  {
    var s := Encode(b);
    assert b[3..] == [];
    assert s == EncodeGroup(b[0], b[1], b[2]) + Encode(b[3..]);
    assert s[|s| - 4..] == s;
    assert IsStdChar(s[3]);
  }

  lemma {:induction false} PadBitsZeroEncode(b: seq<byte>)
    ensures PadBitsZero(Encode(b))
    decreases |b|
  {
    if |b| == 1 {
      PadBitsZeroOne(b);
    } else if |b| == 2 {
      PadBitsZeroTwo(b);
    } else if |b| == 3 {
      PadBitsZeroThree(b);
    } else if |b| > 3 {
      PadBitsZeroEncode(b[3..]);
      var s, t := Encode(b), Encode(b[3..]);
      assert s == EncodeGroup(b[0], b[1], b[2]) + t;
      assert s[|s| - 4..] == t[|t| - 4..];
    }
  }

  /** Everything the encoder writes is canonical. */
  lemma EncodeCanonical(b: seq<byte>)
    ensures Canonical(Encode(b))
  {
    DecodeEncode(b);
    PadBitsZeroEncode(b);
  }

  /** The bytes of a full group split back into its four sextets. */
  lemma EncodeDecodeGroup(v0: sextet, v1: sextet, v2: sextet, v3: sextet)
    ensures var d := DecodeGroup(v0, v1, v2, v3);
      && d[0] / 4 == v0 && (d[0] % 4) * 16 + d[1] / 16 == v1
      && (d[1] % 16) * 4 + d[2] / 64 == v2 && d[2] % 64 == v3
  {
    var d := DecodeGroup(v0, v1, v2, v3);
    assert d[0] / 4 == v0 && d[0] % 4 == v1 / 16;
    assert d[1] / 16 == v1 % 16 && d[1] % 16 == v2 / 4;
    assert d[2] / 64 == v2 % 4 && d[2] % 64 == v3;
  }

  lemma PadTwoArith(v0: int, v1: int)
    requires 0 <= v0 < 64 && 0 <= v1 < 64 && v1 % 16 == 0
    ensures var b0 := v0 * 4 + v1 / 16;
      0 <= b0 < 256 && b0 / 4 == v0 && (b0 % 4) * 16 == v1
  {
  }

  lemma PadOneArith(v0: int, v1: int, v2: int, b0: int, b1: int)
    requires 0 <= v0 < 64 && 0 <= v1 < 64 && 0 <= v2 < 64 && v2 % 4 == 0
    requires b0 == v0 * 4 + v1 / 16 && b1 == (v1 % 16) * 16 + v2 / 4
    ensures 0 <= b0 < 256 && 0 <= b1 < 256
    ensures b0 / 4 == v0 && (b0 % 4) * 16 + b1 / 16 == v1 && (b1 % 16) * 4 == v2
  {
    assert b0 / 4 == v0 && b0 % 4 == v1 / 16;
    assert b1 / 16 == v1 % 16 && b1 % 16 == v2 / 4;
  }

  lemma EncodeOneByte(b: seq<byte>)
    requires |b| == 1
    ensures Encode(b) == [StdChar(b[0] / 4), StdChar((b[0] % 4) * 16), '=', '=']
  {
  }

  lemma EncodeTwoBytes(b: seq<byte>)
    requires |b| == 2
    ensures Encode(b) == [StdChar(b[0] / 4), StdChar((b[0] % 4) * 16 + b[1] / 16), StdChar((b[1] % 16) * 4), '=']
  {
  }

  lemma EncodeFullGroup(q: string)
    requires |q| == 4 && IsStdChar(q[0]) && IsStdChar(q[1]) && IsStdChar(q[2]) && IsStdChar(q[3])
    ensures Encode(DecodeGroup(StdValue(q[0]), StdValue(q[1]), StdValue(q[2]), StdValue(q[3]))) == q
  {
    var d := DecodeGroup(StdValue(q[0]), StdValue(q[1]), StdValue(q[2]), StdValue(q[3]));
    GroupChars(q);
    EncodeThree(d[0], d[1], d[2]);
    assert d == [d[0], d[1], d[2]];
    assert q[..4] == q;
  }

  lemma FinalPadTwo(s: string)
    requires |s| == 4 && IsStdChar(s[0]) && IsStdChar(s[1]) && s[2] == '=' && s[3] == '='
    requires StdValue(s[1]) % 16 == 0
    ensures DecodeFinal(s).Some? && Encode(DecodeFinal(s).value) == s
  {
    var v0: int, v1: int := StdValue(s[0]), StdValue(s[1]);
    PadTwoArith(v0, v1);
    var b := DecodeFinal(s).value;
    assert |b| == 1 && b[0] == v0 * 4 + v1 / 16;
    EncodeOneByte(b);
    assert StdChar(b[0] / 4) == s[0] && StdChar((b[0] % 4) * 16) == s[1];
    assert s == [s[0], s[1], '=', '='];
  }

  lemma FinalPadOne(s: string)
    requires |s| == 4 && IsStdChar(s[0]) && IsStdChar(s[1]) && IsStdChar(s[2]) && s[3] == '='
    requires StdValue(s[2]) % 4 == 0
    ensures DecodeFinal(s).Some? && Encode(DecodeFinal(s).value) == s
  {
    var v0: sextet, v1: sextet, v2: sextet := StdValue(s[0]), StdValue(s[1]), StdValue(s[2]);
    var b := DecodeFinal(s).value;
    assert Encode(b) == [StdChar(v0), StdChar(v1), StdChar(v2), '='] by {
      assert |b| == 2 && b[0] == v0 * 4 + v1 / 16 && b[1] == (v1 % 16) * 16 + v2 / 4;
      PadOneArith(v0, v1, v2, b[0], b[1]);
      EncodeTwoBytes(b);
    }
    assert [StdChar(v0), StdChar(v1), StdChar(v2), '='] == s;
  }

  /** A final group of four characters is re-encoded to itself. */
  lemma EncodeDecodeFinal(s: string)
    requires |s| == 4 && Canonical(s)
    ensures Encode(Decode(s).value) == s
  {
    assert Decode(s) == DecodeFinal(s);
    assert s[|s| - 4..] == s;
    if s[2] == '=' && s[3] == '=' {
      FinalPadTwo(s);
    } else if s[3] == '=' {
      FinalPadOne(s);
    } else {
      EncodeFullGroup(s);
    }
  }

  /** What follows a full group is canonical text of its own. */
  lemma CanonicalTail(s: string)
    requires |s| > 4 && Canonical(s)
    ensures |s[4..]| >= 4 && Canonical(s[4..])
    ensures IsStdChar(s[0]) && IsStdChar(s[1]) && IsStdChar(s[2]) && IsStdChar(s[3])
    ensures Decode(s).value == DecodeGroup(StdValue(s[0]), StdValue(s[1]), StdValue(s[2]), StdValue(s[3])) + Decode(s[4..]).value
  {
    var t := s[4..];
    assert Decode(t).Some?;
    assert t[|t| - 4..] == s[|s| - 4..];
  }

  /** Encoding undoes decoding on canonical text: together with `DecodeEncode`
      this makes `Encode` a bijection between byte strings and canonical text. */
  lemma {:induction false} EncodeDecode(s: string)
    requires Canonical(s)
    ensures Encode(Decode(s).value) == s
    decreases |s|
  {
    if |s| == 4 {
      EncodeDecodeFinal(s);
    } else if |s| > 4 {
      CanonicalTail(s);
      EncodeDecode(s[4..]);
      EncodeGroupThenRest(s, Decode(s[4..]).value);
    }
  }

  lemma EncodeGroupThenRest(s: string, rest: seq<byte>)
    requires |s| > 4 && Encode(rest) == s[4..]
    requires IsStdChar(s[0]) && IsStdChar(s[1]) && IsStdChar(s[2]) && IsStdChar(s[3])
    ensures Encode(DecodeGroup(StdValue(s[0]), StdValue(s[1]), StdValue(s[2]), StdValue(s[3])) + rest) == s
  {
    var d := DecodeGroup(StdValue(s[0]), StdValue(s[1]), StdValue(s[2]), StdValue(s[3]));
    GroupChars(s);
    EncodeGroupPrefix(d, rest);
    assert s == s[..4] + s[4..];
  }

  /** The first four characters of `s`, when they are one full group. */
  lemma GroupChars(s: string)
    requires |s| >= 4 && IsStdChar(s[0]) && IsStdChar(s[1]) && IsStdChar(s[2]) && IsStdChar(s[3])
    ensures var d := DecodeGroup(StdValue(s[0]), StdValue(s[1]), StdValue(s[2]), StdValue(s[3]));
      EncodeGroup(d[0], d[1], d[2]) == s[..4]
  {
    GroupCharsOf(s[0], s[1], s[2], s[3]);
    assert s[..4] == [s[0], s[1], s[2], s[3]];
  }

  lemma GroupCharsOf(c0: char, c1: char, c2: char, c3: char)
    requires IsStdChar(c0) && IsStdChar(c1) && IsStdChar(c2) && IsStdChar(c3)
    ensures var d := DecodeGroup(StdValue(c0), StdValue(c1), StdValue(c2), StdValue(c3));
      EncodeGroup(d[0], d[1], d[2]) == [c0, c1, c2, c3]
  {
    EncodeDecodeGroup(StdValue(c0), StdValue(c1), StdValue(c2), StdValue(c3));
  }

  lemma EncodeGroupPrefix(d: seq<byte>, rest: seq<byte>)
    requires |d| == 3
    ensures Encode(d + rest) == EncodeGroup(d[0], d[1], d[2]) + Encode(rest)
  {
    assert (d + rest)[3..] == rest;
  }

  /** Two canonical texts with the same decoding are the same text. */
  lemma CanonicalUnique(s: string, t: string)
    requires Canonical(s) && Canonical(t) && Decode(s) == Decode(t)
    ensures s == t
  {
    EncodeDecode(s);
    EncodeDecode(t);
  }

  function ToUrlChar(c: char): char
  {
    if c == '+' then '-' else if c == '/' then '_' else c
  }

  function FromUrlChar(c: char): char
  {
    if c == '-' then '+' else if c == '_' then '/' else c
  }

  /** `base64.urlsafe_b64encode(b).decode()`: standard encoding with `+` and `/`
      replaced by `-` and `_`. */
  function UrlEncode(b: seq<byte>): (s: string)
    ensures UrlText(s)
    ensures |s| == 4 * ((|b| + 2) / 3)
  {
    var e := Encode(b);
    var s := seq(|e|, i requires 0 <= i < |e| => ToUrlChar(e[i]));
    assert forall i | 0 <= i < |s| :: IsUrlChar(s[i]) || s[i] == '=' by {
      forall i | 0 <= i < |s|
        ensures IsUrlChar(s[i]) || s[i] == '='
      {
        assert e[i] in e;
      }
    }
    s
  }

  /** `base64.urlsafe_b64decode(s)`: `-` and `_` are translated to `+` and `/`,
      then the text is decoded with the standard alphabet, so standard text is
      accepted as well. */
  function UrlDecode(s: string): Option<seq<byte>>
  {
    Decode(FromUrl(s))
  }

  /** The translation `urlsafe_b64decode` applies before decoding. */
  function FromUrl(s: string): (t: string)
    ensures |t| == |s|
  {
    seq(|s|, i requires 0 <= i < |s| => FromUrlChar(s[i]))
  }

  lemma UrlDecodeUrlEncode(b: seq<byte>)
    ensures UrlDecode(UrlEncode(b)) == Some(b)
  {
    var e := Encode(b);
    var u := UrlEncode(b);
    assert FromUrl(u) == e by {
      forall i | 0 <= i < |e|
        ensures FromUrlChar(u[i]) == e[i]
      {
        assert e[i] in e;
      }
    }
    DecodeEncode(b);
  }

  /** The URL-safe decoder also accepts the standard encoding. */
  lemma UrlDecodeStdEncode(b: seq<byte>)
    ensures UrlDecode(Encode(b)) == Some(b)
  {
    var e := Encode(b);
    assert FromUrl(e) == e by {
      forall i | 0 <= i < |e|
        ensures FromUrlChar(e[i]) == e[i]
      {
        assert e[i] in e;
      }
    }
    DecodeEncode(b);
  }

  /** Text the URL-safe encoder can have written: URL-safe characters whose
      translation is canonical standard text. */
  predicate UrlCanonical(s: string)
  {
    UrlText(s) && Canonical(FromUrl(s))
  }

  lemma UrlEncodeCanonical(b: seq<byte>)
    ensures UrlCanonical(UrlEncode(b))
  {
    var e := Encode(b);
    var u := UrlEncode(b);
    assert FromUrl(u) == e by {
      forall i | 0 <= i < |e|
        ensures FromUrlChar(u[i]) == e[i]
      {
        assert e[i] in e;
      }
    }
    EncodeCanonical(b);
  }

  /** Two URL-safe canonical texts with the same decoding are the same text. */
  lemma UrlCanonicalUnique(s: string, t: string)
    requires UrlCanonical(s) && UrlCanonical(t) && UrlDecode(s) == UrlDecode(t)
    ensures s == t
  {
    CanonicalUnique(FromUrl(s), FromUrl(t));
    forall i | 0 <= i < |s|
      ensures s[i] == t[i]
    {
      assert s[i] in s && t[i] in t;
      assert FromUrl(s)[i] == FromUrl(t)[i];
    }
  }

  /** Neither alphabet contains the metadata delimiter `|`. */
  lemma NoDelimiter(s: string)
    ensures StdText(s) ==> '|' !in s
    ensures UrlText(s) ==> '|' !in s
  {
  }
}
