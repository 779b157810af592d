/// UTF-8 (RFC 3629) over strings of Unicode scalar values: the `'utf8'`
/// encoding of Node's `Buffer` used by src/ble/constants.js.
module Utf8 {
  import opened Common

  /** A continuation byte 10xxxxxx. */
  predicate IsContinuation(b: Byte) {
    0x80 <= b < 0xC0
  }

  /** The one to four bytes of a single scalar value (section 3 of RFC 3629). */
  function EncodeChar(c: char): (r: seq<Byte>)
    ensures 1 <= |r| <= 4
    ensures r[0] < 0x80 <==> |r| == 1
    ensures forall i :: 1 <= i < |r| ==> IsContinuation(r[i])
  {
    var n := c as int;
    if n < 0x80 then [n]
    else if n < 0x800 then [0xC0 + n / 64, 0x80 + n % 64]
    else if n < 0x1_0000 then [0xE0 + n / 64 / 64, 0x80 + n / 64 % 64, 0x80 + n % 64]
    else [0xF0 + n / 64 / 64 / 64, 0x80 + n / 64 / 64 % 64, 0x80 + n / 64 % 64, 0x80 + n % 64]
  }

  /** `Buffer.from(s, 'utf8')`: the concatenated encodings of the characters of `s`. */
  function Encode(s: string): (r: seq<Byte>)
    ensures |s| <= |r| <= 4 * |s|
  {
    if s == [] then [] else EncodeChar(s[0]) + Encode(s[1..])
  }

  /** Decodes the scalar value at the head of `b`, with the number of bytes it takes.
      Overlong forms, surrogates and values above U+10FFFF are refused. */
  function DecodeFirst(b: seq<Byte>): (r: Option<(char, nat)>)
    requires |b| > 0
    ensures r.Some? ==> 1 <= r.value.1 <= |b| && r.value.1 <= 4
  {
    var b0 := b[0] as int;
    if b0 < 0x80 then
      Some((b0 as char, 1))
    else if 0xC2 <= b0 < 0xE0 && |b| >= 2 && IsContinuation(b[1]) then
      var n := (b0 - 0xC0) * 64 + (b[1] as int - 0x80);
      Some((n as char, 2))
    else if 0xE0 <= b0 < 0xF0 && |b| >= 3 && IsContinuation(b[1]) && IsContinuation(b[2]) then
      var n := ((b0 - 0xE0) * 64 + (b[1] as int - 0x80)) * 64 + (b[2] as int - 0x80);
      if 0x800 <= n && !(0xD800 <= n < 0xE000) then Some((n as char, 3)) else None
    else if 0xF0 <= b0 < 0xF5 && |b| >= 4 && IsContinuation(b[1]) && IsContinuation(b[2])
            && IsContinuation(b[3]) then
      var n := (((b0 - 0xF0) * 64 + (b[1] as int - 0x80)) * 64 + (b[2] as int - 0x80)) * 64 + (b[3] as int - 0x80);
      if 0x1_0000 <= n < 0x11_0000 then Some((n as char, 4)) else None
    else
      None
  }

  /** `buffer.toString('utf8')` on well-formed input; `None` on malformed input. */
  function Decode(b: seq<Byte>): (r: Option<string>)
    decreases |b|
  {
    if b == [] then Some([])
    else
      match DecodeFirst(b)
      case None => None
      case Some((c, k)) =>
        match Decode(b[k..])
        case None => None
        case Some(rest) => Some([c] + rest)
  }

  lemma DecodeFirstOfEncodeChar(c: char, rest: seq<Byte>)
    ensures DecodeFirst(EncodeChar(c) + rest) == Some((c, |EncodeChar(c)|))
  {
    var n := c as int;
    var b := EncodeChar(c) + rest;
    if n < 0x80 {
    } else if n < 0x800 {
      assert (b[0] as int - 0xC0) * 64 + (b[1] as int - 0x80) == n;
    } else if n < 0x1_0000 {
      assert ((b[0] as int - 0xE0) * 64 + (b[1] as int - 0x80)) * 64 + (b[2] as int - 0x80) == n;
    } else {
      assert (((b[0] as int - 0xF0) * 64 + (b[1] as int - 0x80)) * 64 + (b[2] as int - 0x80)) * 64 + (b[3] as int - 0x80) == n;
    }
  }

  /** Decoding undoes encoding: `Buffer.from(s,'utf8').toString('utf8') === s`. */
  lemma {:induction false} DecodeEncode(s: string)
    ensures Decode(Encode(s)) == Some(s)
  {
    if s != [] {
      var e, tail := EncodeChar(s[0]), Encode(s[1..]);
      var b := e + tail;
      assert Encode(s) == b;
      DecodeFirstOfEncodeChar(s[0], tail);
      assert b[|e|..] == tail;
      DecodeEncode(s[1..]);
      assert Decode(b) == Some([s[0]] + s[1..]);
      assert [s[0]] + s[1..] == s;
    }
  }

  lemma EncodeTwo(x0: int, x1: int)
    requires 2 <= x0 < 32 && 0 <= x1 < 64
    ensures 0x80 <= x0 * 64 + x1 < 0x800
    ensures EncodeChar((x0 * 64 + x1) as char) == [0xC0 + x0, 0x80 + x1]
  {
    var n := x0 * 64 + x1;
    assert n / 64 == x0 && n % 64 == x1;
  }

  lemma EncodeThree(x0: int, x1: int, x2: int)
    requires 0 <= x0 < 16 && 0 <= x1 < 64 && 0 <= x2 < 64
    requires var n := (x0 * 64 + x1) * 64 + x2; 0x800 <= n && !(0xD800 <= n < 0xE000)
    ensures EncodeChar(((x0 * 64 + x1) * 64 + x2) as char) == [0xE0 + x0, 0x80 + x1, 0x80 + x2]
  {
    var m := x0 * 64 + x1;
    var n := m * 64 + x2;
    assert n / 64 == m && n % 64 == x2;
    assert m / 64 == x0 && m % 64 == x1;
  }

  lemma EncodeFour(x0: int, x1: int, x2: int, x3: int)
    requires 0 <= x0 < 5 && 0 <= x1 < 64 && 0 <= x2 < 64 && 0 <= x3 < 64
    requires var n := ((x0 * 64 + x1) * 64 + x2) * 64 + x3; 0x1_0000 <= n < 0x11_0000
    ensures EncodeChar((((x0 * 64 + x1) * 64 + x2) * 64 + x3) as char)
         == [0xF0 + x0, 0x80 + x1, 0x80 + x2, 0x80 + x3]
  {
    var l := x0 * 64 + x1;
    var m := l * 64 + x2;
    var n := m * 64 + x3;
    assert n / 64 == m && n % 64 == x3;
    assert m / 64 == l && m % 64 == x2;
    assert l / 64 == x0 && l % 64 == x1;
  }

  lemma EncodeCharOfDecodeFirst(b: seq<Byte>)
    requires |b| > 0 && DecodeFirst(b).Some?
    ensures EncodeChar(DecodeFirst(b).value.0) == b[..DecodeFirst(b).value.1]
  {
    var b0 := b[0] as int;
    if b0 < 0x80 {
      assert b[..1] == [b[0]];
    } else if b0 < 0xE0 {
      EncodeTwo(b0 - 0xC0, b[1] as int - 0x80);
      assert b[..2] == [b[0], b[1]];
    } else if b0 < 0xF0 {
      EncodeThree(b0 - 0xE0, b[1] as int - 0x80, b[2] as int - 0x80);
      assert b[..3] == [b[0], b[1], b[2]];
    } else {
      EncodeFour(b0 - 0xF0, b[1] as int - 0x80, b[2] as int - 0x80, b[3] as int - 0x80);
      assert b[..4] == [b[0], b[1], b[2], b[3]];
    }
  }

  /** Strict decoding accepts only encoder output: a decoded string re-encodes to the input. */
  lemma {:induction false} EncodeDecode(b: seq<Byte>)
    requires Decode(b).Some?
    ensures Encode(Decode(b).value) == b
    decreases |b|
  {
    if b != [] {
      var c, k := DecodeFirst(b).value.0, DecodeFirst(b).value.1;
      var rest := Decode(b[k..]).value;
      EncodeCharOfDecodeFirst(b);
      EncodeDecode(b[k..]);
      EncodeCons(c, rest, b, k);
    }
  }

  /** The encoding of `[c] + rest` is the encoding of `c` followed by that of `rest`;
      when those are the two parts of `b` split at `k`, it is `b`. */
  lemma EncodeCons(c: char, rest: string, b: seq<Byte>, k: nat)
    requires k <= |b| && EncodeChar(c) == b[..k] && Encode(rest) == b[k..]
    ensures Encode([c] + rest) == b
  {
    assert ([c] + rest)[1..] == rest;
    assert b == b[..k] + b[k..];
  }

  /** Only the empty buffer decodes to the empty string, and only it encodes it. */
  lemma DecodeEmpty(b: seq<Byte>)
    requires Decode(b).Some?
    ensures Decode(b).value == [] <==> b == []
  {
  }
}
