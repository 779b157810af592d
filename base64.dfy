/// Base64 with the standard alphabet and `=` padding (section 4 of RFC 4648):
/// the `'base64'` encoding of Node's `Buffer` used by src/ble/constants.js.
module Base64 {
  import opened Common

  /** Index of a character of the 64-character alphabet. */
  type Sextet = x: int | 0 <= x < 64

  predicate IsAlphabetChar(c: char) {
    'A' <= c <= 'Z' || 'a' <= c <= 'z' || '0' <= c <= '9' || c == '+' || c == '/'
  }

  /** The value-to-character table of section 4 of RFC 4648. */
  function CharOf(i: Sextet): (c: char)
    ensures IsAlphabetChar(c)
  {
    if i < 26 then ('A' as int + i) as char
    else if i < 52 then ('a' as int + i - 26) as char
    else if i < 62 then ('0' as int + i - 52) as char
    else if i == 62 then '+'
    else '/'
  }

  /** The inverse of `CharOf`; `None` for `=` and every character outside the alphabet. */
  function IndexOf(c: char): (r: Option<Sextet>)
    ensures r.Some? <==> IsAlphabetChar(c)
    ensures r.Some? ==> CharOf(r.value) == c
  {
    if 'A' <= c <= 'Z' then Some(c as int - 'A' as int)
    else if 'a' <= c <= 'z' then Some(c as int - 'a' as int + 26)
    else if '0' <= c <= '9' then Some(c as int - '0' as int + 52)
    else if c == '+' then Some(62)
    else if c == '/' then Some(63)
    else None
  }

  lemma IndexOfCharOf(i: Sextet)
    ensures IndexOf(CharOf(i)) == Some(i)
  {
  }

  /** Three bytes to four characters. */
  function EncodeTriple(b0: Byte, b1: Byte, b2: Byte): string {
    [CharOf(b0 / 4), CharOf(b0 % 4 * 16 + b1 / 16), CharOf(b1 % 16 * 4 + b2 / 64), CharOf(b2 % 64)]
  }

  /** `buffer.toString('base64')`: full groups of three bytes, then a padded final group. */
  function Encode(b: seq<Byte>): (r: string)
  {
    if |b| == 0 then []
    else if |b| == 1 then [CharOf(b[0] / 4), CharOf(b[0] % 4 * 16), '=', '=']
    else if |b| == 2 then [CharOf(b[0] / 4), CharOf(b[0] % 4 * 16 + b[1] / 16), CharOf(b[1] % 16 * 4), '=']
    else EncodeTriple(b[0], b[1], b[2]) + Encode(b[3..])
  }

  /** Three bytes from four sextets: 8 bits of `c0 c1 c2 c3` at a time. */
  function Join(c0: Sextet, c1: Sextet, c2: Sextet, c3: Sextet): (r: seq<Byte>)
    ensures |r| == 3
  {
    var x0, x1, x2, x3 := c0 as int, c1 as int, c2 as int, c3 as int;
    [x0 * 4 + x1 / 16, x1 % 16 * 16 + x2 / 4, x2 % 4 * 64 + x3]
  }

  /** Decodes one group of four characters. Padding is `==` after two characters or `=`
      after three, and the bits the padding discards must be zero (the canonical form). */
  function DecodeQuad(q: string): (r: Option<seq<Byte>>)
    requires |q| == 4
    ensures r.Some? ==> 1 <= |r.value| <= 3
    ensures r.Some? && |r.value| < 3 ==> q[3] == '='
  {
    match (IndexOf(q[0]), IndexOf(q[1]), IndexOf(q[2]), IndexOf(q[3]))
    case (Some(c0), Some(c1), Some(c2), Some(c3)) =>
      Some(Join(c0, c1, c2, c3))
    case (Some(c0), Some(c1), Some(c2), None) =>
      if q[3] == '=' && c2 % 4 == 0 then Some(Join(c0, c1, c2, 0)[..2]) else None
    case (Some(c0), Some(c1), None, None) =>
      if q[2] == '=' && q[3] == '=' && c1 % 16 == 0 then Some(Join(c0, c1, 0, 0)[..1]) else None
    case _ => None
  }

  /** Strict decoding: the length is a multiple of four and only the last group is padded;
      `None` for anything else. */
  function Decode(s: string): (r: Option<seq<Byte>>)
    decreases |s|
  {
    if |s| == 0 then Some([])
    else if |s| < 4 then None
    else
      match DecodeQuad(s[..4])
      case None => None
      case Some(q) =>
        if |s| > 4 && |q| < 3 then None
        else
          match Decode(s[4..])
          case None => None
          case Some(rest) => Some(q + rest)
  }

  lemma JoinOfEncodeTriple(b0: Byte, b1: Byte, b2: Byte)
    ensures Join(b0 / 4, b0 % 4 * 16 + b1 / 16, b1 % 16 * 4 + b2 / 64, b2 % 64) == [b0, b1, b2]
  {
  }

  lemma DecodeQuadOfEncodeTriple(b0: Byte, b1: Byte, b2: Byte)
    ensures DecodeQuad(EncodeTriple(b0, b1, b2)) == Some([b0, b1, b2])
  {
    IndexOfCharOf(b0 / 4);
    IndexOfCharOf(b0 % 4 * 16 + b1 / 16);
    IndexOfCharOf(b1 % 16 * 4 + b2 / 64);
    IndexOfCharOf(b2 % 64);
    JoinOfEncodeTriple(b0, b1, b2);
  }

  lemma DecodeQuadOfEncodeOne(b0: Byte)
    ensures DecodeQuad(Encode([b0])) == Some([b0])
  {
    var c0, c1 := b0 / 4, b0 % 4 * 16;
    var q := Encode([b0]);
    assert q == [CharOf(c0), CharOf(c1), '=', '='];
    IndexOfCharOf(c0);
    IndexOfCharOf(c1);
    assert IndexOf(q[2]).None? && IndexOf(q[3]).None?;
    assert c1 % 16 == 0;
    assert Join(c0, c1, 0, 0)[0] == b0;
    assert Join(c0, c1, 0, 0)[..1] == [b0];
  }

  lemma DecodeQuadOfEncodeTwo(b0: Byte, b1: Byte)
    ensures DecodeQuad(Encode([b0, b1])) == Some([b0, b1])
  {
    var c0, c1, c2 := b0 / 4, b0 % 4 * 16 + b1 / 16, b1 % 16 * 4;
    var q := Encode([b0, b1]);
    assert q == [CharOf(c0), CharOf(c1), CharOf(c2), '='];
    IndexOfCharOf(c0);
    IndexOfCharOf(c1);
    IndexOfCharOf(c2);
    assert IndexOf(q[3]).None?;
    assert c2 % 4 == 0;
    var d := Join(c0, c1, c2, 0);
    assert d[0] == b0 by {
      assert c1 / 16 == b0 % 4;
    }
    assert d[1] == b1 by {
      assert c1 % 16 == b1 / 16 && c2 / 4 == b1 % 16;
    }
    assert d[..2] == [b0, b1];
  }

  lemma DecodeOfOneQuad(s: string)
    requires |s| == 4 && DecodeQuad(s).Some?
    ensures Decode(s) == DecodeQuad(s)
  {
    assert s[..4] == s;
    assert s[4..] == [];
    assert DecodeQuad(s).value + [] == DecodeQuad(s).value;
  }

  lemma DecodeEncodeShort(b: seq<Byte>)
    requires 1 <= |b| <= 2
    ensures Decode(Encode(b)) == Some(b)
  {
    if |b| == 1 {
      var b0 := b[0];
      assert b == [b0];
      DecodeQuadOfEncodeOne(b0);
      DecodeOfOneQuad(Encode([b0]));
    } else {
      var b0, b1 := b[0], b[1];
      assert b == [b0, b1];
      DecodeQuadOfEncodeTwo(b0, b1);
      DecodeOfOneQuad(Encode([b0, b1]));
    }
  }

  /** Decoding undoes encoding. */
  lemma {:induction false} DecodeEncode(b: seq<Byte>)
    ensures Decode(Encode(b)) == Some(b)
    decreases |b|
  {
    if 1 <= |b| <= 2 {
      DecodeEncodeShort(b);
    } else if |b| >= 3 {
      var quad, tail := EncodeTriple(b[0], b[1], b[2]), Encode(b[3..]);
      assert Encode(b) == quad + tail;
      DecodeQuadOfEncodeTriple(b[0], b[1], b[2]);
      DecodeEncode(b[3..]);
      DecodeCons(quad, tail, [b[0], b[1], b[2]], b[3..]);
      SplitThree(b);
    }
  }

  lemma SplitThree(b: seq<Byte>)
    requires |b| >= 3
    ensures [b[0], b[1], b[2]] + b[3..] == b
  {
    assert b[..3] == [b[0], b[1], b[2]];
    assert b[..3] + b[3..] == b;
  }

  /** A full group followed by a decodable rest decodes to the group's bytes followed
      by the rest's. */
  lemma DecodeCons(quad: string, tail: string, q: seq<Byte>, rest: seq<Byte>)
    requires |quad| == 4 && DecodeQuad(quad) == Some(q) && |q| == 3 && Decode(tail) == Some(rest)
    ensures Decode(quad + tail) == Some(q + rest)
  {
    var s := quad + tail;
    assert s[..4] == quad && s[4..] == tail;
  }

  lemma EncodeTripleOfJoin(c0: Sextet, c1: Sextet, c2: Sextet, c3: Sextet)
    ensures var d := Join(c0, c1, c2, c3);
      EncodeTriple(d[0], d[1], d[2]) == [CharOf(c0), CharOf(c1), CharOf(c2), CharOf(c3)]
  {
    var d := Join(c0, c1, c2, c3);
    assert d[0] / 4 == c0;
    assert d[0] % 4 == c1 / 16 && d[1] / 16 == c1 % 16;
    assert d[0] % 4 * 16 + d[1] / 16 == c1;
    assert d[1] % 16 == c2 / 4 && d[2] / 64 == c2 % 4;
    assert d[1] % 16 * 4 + d[2] / 64 == c2;
    assert d[2] % 64 == c3;
  }

  lemma EncodeOfJoinOne(c0: Sextet, c1: Sextet)
    requires c1 % 16 == 0
    ensures Encode(Join(c0, c1, 0, 0)[..1]) == [CharOf(c0), CharOf(c1), '=', '=']
  {
    var d := Join(c0, c1, 0, 0)[..1];
    assert d[0] / 4 == c0 && d[0] % 4 * 16 == c1;
  }

  lemma EncodeOfJoinTwo(c0: Sextet, c1: Sextet, c2: Sextet)
    requires c2 % 4 == 0
    ensures Encode(Join(c0, c1, c2, 0)[..2]) == [CharOf(c0), CharOf(c1), CharOf(c2), '=']
  {
    var d := Join(c0, c1, c2, 0)[..2];
    assert d[0] / 4 == c0;
    assert d[0] % 4 * 16 + d[1] / 16 == c1;
    assert d[1] % 16 * 4 == c2;
  }

  lemma EncodeOfDecodeQuad(q: string)
    requires |q| == 4 && DecodeQuad(q).Some?
    ensures var d := DecodeQuad(q).value;
      if |d| == 3 then EncodeTriple(d[0], d[1], d[2]) == q else Encode(d) == q
  {
    var i0, i1, i2, i3 := IndexOf(q[0]), IndexOf(q[1]), IndexOf(q[2]), IndexOf(q[3]);
    assert i0.Some? && i1.Some?;
    if i2.None? {
      assert i3.None? && q[2] == '=' && q[3] == '=';
      EncodeOfJoinOne(i0.value, i1.value);
      assert q == [CharOf(i0.value), CharOf(i1.value), '=', '='];
    } else if i3.None? {
      assert q[3] == '=';
      EncodeOfJoinTwo(i0.value, i1.value, i2.value);
      assert q == [CharOf(i0.value), CharOf(i1.value), CharOf(i2.value), '='];
    } else {
      EncodeTripleOfJoin(i0.value, i1.value, i2.value, i3.value);
      assert q == [CharOf(i0.value), CharOf(i1.value), CharOf(i2.value), CharOf(i3.value)];
    }
  }

  /** Strict decoding accepts only encoder output: decoded bytes re-encode to the input. */
  lemma {:induction false} EncodeDecode(s: string)
    requires Decode(s).Some?
    ensures Encode(Decode(s).value) == s
    decreases |s|
  {
    if |s| > 0 {
      var q := DecodeQuad(s[..4]).value;
      var rest := Decode(s[4..]).value;
      assert Decode(s).value == q + rest;
      EncodeOfDecodeQuad(s[..4]);
      EncodeDecode(s[4..]);
      if |q| == 3 {
        assert (q + rest)[3..] == rest;
        assert Encode(q + rest) == EncodeTriple(q[0], q[1], q[2]) + Encode(rest);
      } else {
        assert |s| == 4 && rest == [];
        assert q + rest == q;
      }
      assert s == s[..4] + s[4..];
    }
  }

  /** The output length is 4 * ceil(n / 3) for n input bytes. */
  lemma {:induction false} EncodeLength(b: seq<Byte>)
    ensures |Encode(b)| == 4 * ((|b| + 2) / 3)
    decreases |b|
  {
    var n := |b|;
    if n >= 3 {
      EncodeLength(b[3..]);
      assert |Encode(b)| == 4 + |Encode(b[3..])|;
      assert (n + 2) / 3 == (n - 3 + 2) / 3 + 1;
    } else {
      assert (n + 2) / 3 == if n == 0 then 0 else 1;
    }
  }

  /** Every output character is in the alphabet, except `=` padding in the last one or two positions. */
  lemma {:induction false} EncodeAlphabet(b: seq<Byte>)
    ensures forall i :: 0 <= i < |Encode(b)| ==>
      IsAlphabetChar(Encode(b)[i]) || (Encode(b)[i] == '=' && i >= |Encode(b)| - 2)
    decreases |b|
  {
    if |b| >= 3 {
      EncodeAlphabet(b[3..]);
      EncodeLength(b[3..]);
      var t := Encode(b[3..]);
      assert Encode(b) == EncodeTriple(b[0], b[1], b[2]) + t;
      forall i | 0 <= i < |Encode(b)|
        ensures IsAlphabetChar(Encode(b)[i]) || (Encode(b)[i] == '=' && i >= |Encode(b)| - 2)
      {
        if i >= 4 {
          assert Encode(b)[i] == t[i - 4];
        }
      }
    }
  }
}
