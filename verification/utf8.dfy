/**
 * UTF-8 as Python's codec does it: `str.encode("utf-8")` / `bytes(s, "utf-8")`,
 * and the strict `bytes.decode("utf-8")`, which rejects overlong forms,
 * encoded surrogates and code points above U+10FFFF.
 */
module Utf8 {
  import opened Wrappers

  type byte = x: int | 0 <= x < 0x100

  /** A continuation byte 10xxxxxx. */
  predicate IsCont(b: byte) {
    0x80 <= b < 0xC0
  }

  /** The bytes of one code point: 1 to 4 of them, one exactly for ASCII. */
  function EncodeChar(c: char): (bs: seq<byte>)
    ensures 1 <= |bs| <= 4
    ensures |bs| == 1 <==> c as int < 0x80
    ensures forall i :: 1 <= i < |bs| ==> IsCont(bs[i])
  {
    var n := c as int;
    var q1 := n / 0x40;
    var q2 := q1 / 0x40;
    var q3 := q2 / 0x40;
    if n < 0x80 then [n]
    else if n < 0x800 then [0xC0 + q1, 0x80 + n % 0x40]
    else if n < 0x10000 then [0xE0 + q2, 0x80 + q1 % 0x40, 0x80 + n % 0x40]
    else [0xF0 + q3, 0x80 + q2 % 0x40, 0x80 + q1 % 0x40, 0x80 + n % 0x40]
  }

  /** `bytes(s, encoding="utf-8")`. */
  function Encode(s: string): (bs: seq<byte>)
    ensures |s| <= |bs| <= 4 * |s|
  {
    if s == [] then [] else EncodeChar(s[0]) + Encode(s[1..])
  }

  /**
   * Decodes the code point at the front of `bs`, returning it with the
   * number of bytes it used, or `None` for an ill-formed sequence.
   */
  function DecodeChar(bs: seq<byte>): (r: Option<(char, nat)>)
    requires |bs| > 0
    ensures r.Some? ==> 1 <= r.value.1 <= |bs| && r.value.1 <= 4
  {
    var b0 := bs[0] as int;
    if b0 < 0x80 then
      Some((b0 as char, 1))
    else if 0xC2 <= b0 <= 0xDF then
      if |bs| >= 2 && IsCont(bs[1]) then
        Some((((b0 - 0xC0) * 0x40 + (bs[1] as int - 0x80)) as char, 2))
      else None
    else if 0xE0 <= b0 <= 0xEF then
      var lo := if b0 == 0xE0 then 0xA0 else 0x80;
      var hi := if b0 == 0xED then 0x9F else 0xBF;
      if |bs| >= 3 && lo <= bs[1] <= hi && IsCont(bs[2]) then
        Some((((b0 - 0xE0) * 0x1000 + (bs[1] as int - 0x80) * 0x40 + (bs[2] as int - 0x80)) as char, 3))
      else None
    else if 0xF0 <= b0 <= 0xF4 then
      var lo := if b0 == 0xF0 then 0x90 else 0x80;
      var hi := if b0 == 0xF4 then 0x8F else 0xBF;
      if |bs| >= 4 && lo <= bs[1] <= hi && IsCont(bs[2]) && IsCont(bs[3]) then
        Some((((b0 - 0xF0) * 0x40000 + (bs[1] as int - 0x80) * 0x1000
               + (bs[2] as int - 0x80) * 0x40 + (bs[3] as int - 0x80)) as char, 4))
      else None
    else None
  }

  /** Strict `bs.decode("utf-8")`: `None` where Python raises `UnicodeDecodeError`. */
  function Decode(bs: seq<byte>): (r: Option<string>)
    ensures r.Some? ==> |r.value| <= |bs|
    decreases |bs|
  {
    if bs == [] then Some([])
    else
      match DecodeChar(bs)
      case None => None
      case Some((c, k)) =>
        match Decode(bs[k..])
        case None => None
        case Some(rest) => Some([c] + rest)
  }

  /** Decoding the front of an encoded code point gives that code point back. */
  lemma DecodeEncodeChar(c: char, rest: seq<byte>)
    ensures DecodeChar(EncodeChar(c) + rest) == Some((c, |EncodeChar(c)|))
  {
    var bs := EncodeChar(c) + rest;
    var n := c as int;
    var q1 := n / 0x40;
    var q2 := q1 / 0x40;
    var q3 := q2 / 0x40;
    if n < 0x80 {
    } else if n < 0x800 {
      assert bs[0] == 0xC0 + q1 && bs[1] == 0x80 + n % 0x40;
      assert (bs[0] as int - 0xC0) * 0x40 + (bs[1] as int - 0x80) == n;
    } else if n < 0x10000 {
      assert bs[0] == 0xE0 + q2 && bs[1] == 0x80 + q1 % 0x40 && bs[2] == 0x80 + n % 0x40;
      assert (bs[0] as int - 0xE0) * 0x1000 + (bs[1] as int - 0x80) * 0x40 + (bs[2] as int - 0x80) == n;
    } else {
      assert bs[0] == 0xF0 + q3 && bs[1] == 0x80 + q2 % 0x40;
      assert bs[2] == 0x80 + q1 % 0x40 && bs[3] == 0x80 + n % 0x40;
      assert (bs[0] as int - 0xF0) * 0x40000 + (bs[1] as int - 0x80) * 0x1000
             + (bs[2] as int - 0x80) * 0x40 + (bs[3] as int - 0x80) == n;
    }
  }

  /** Round trip: decoding the UTF-8 encoding of a string gives the string back. */
  lemma {:induction false} DecodeEncode(s: string)
    ensures Decode(Encode(s)) == Some(s)
  {
    if s != [] {
      var e := EncodeChar(s[0]);
      DecodeEncodeChar(s[0], Encode(s[1..]));
      assert (e + Encode(s[1..]))[|e|..] == Encode(s[1..]);
      DecodeEncode(s[1..]);
      assert [s[0]] + s[1..] == s;
    }
  }

  /** A code point the decoder accepts is encoded as exactly the bytes it was read from. */
  lemma EncodeDecodeChar(bs: seq<byte>)
    requires |bs| > 0 && DecodeChar(bs).Some?
    ensures EncodeChar(DecodeChar(bs).value.0) == bs[..DecodeChar(bs).value.1]
  {
    var b0 := bs[0] as int;
    var (c, k) := DecodeChar(bs).value;
    var n := c as int;
    if b0 < 0x80 {
      assert n == b0;
    } else if b0 < 0xE0 {
      var b1 := bs[1] as int;
      assert n == (b0 - 0xC0) * 0x40 + (b1 - 0x80);
      assert n / 0x40 == b0 - 0xC0 && n % 0x40 == b1 - 0x80;
      assert EncodeChar(c) == [b0, b1];
    } else if b0 < 0xF0 {
      var b1, b2 := bs[1] as int, bs[2] as int;
      var q1 := (b0 - 0xE0) * 0x40 + (b1 - 0x80);
      assert n == q1 * 0x40 + (b2 - 0x80);
      assert n / 0x40 == q1 && n % 0x40 == b2 - 0x80;
      assert q1 / 0x40 == b0 - 0xE0 && q1 % 0x40 == b1 - 0x80;
      assert EncodeChar(c) == [b0, b1, b2];
    } else {
      var b1, b2, b3 := bs[1] as int, bs[2] as int, bs[3] as int;
      var q2 := (b0 - 0xF0) * 0x40 + (b1 - 0x80);
      var q1 := q2 * 0x40 + (b2 - 0x80);
      assert n == q1 * 0x40 + (b3 - 0x80);
      assert n / 0x40 == q1 && n % 0x40 == b3 - 0x80;
      assert q1 / 0x40 == q2 && q1 % 0x40 == b2 - 0x80;
      assert q2 / 0x40 == b0 - 0xF0 && q2 % 0x40 == b1 - 0x80;
      assert EncodeChar(c) == [b0, b1, b2, b3];
    }
  }

  /** A successful decode is the first code point followed by the decode of the bytes after it. */
  lemma DecodeCons(bs: seq<byte>)
    requires bs != [] && Decode(bs).Some?
    ensures DecodeChar(bs).Some?
    ensures Decode(bs[DecodeChar(bs).value.1..]).Some?
    ensures Decode(bs).value == [DecodeChar(bs).value.0] + Decode(bs[DecodeChar(bs).value.1..]).value
  {
  }

  /** The encoding of a non-empty string is its first code point's bytes followed by the rest's. */
  lemma EncodeCons(c: char, rest: string)
    ensures Encode([c] + rest) == EncodeChar(c) + Encode(rest)
  {
    assert ([c] + rest)[1..] == rest;
  }

  /** The other round trip: bytes the decoder accepts are the encoding of what it returns. */
  lemma {:induction false} EncodeDecode(bs: seq<byte>)
    requires Decode(bs).Some?
    ensures Encode(Decode(bs).value) == bs
    decreases |bs|
  {
    if bs != [] {
      DecodeCons(bs);
      var (c, k) := DecodeChar(bs).value;
      EncodeDecodeChar(bs);
      EncodeDecode(bs[k..]);
      EncodeCons(c, Decode(bs[k..]).value);
      assert bs == bs[..k] + bs[k..];
    }
  }
}
