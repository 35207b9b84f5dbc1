/** UTF-8, as Rust's `str::as_bytes` (encoding) and `std::str::from_utf8` (validating decoding) use it.
    `char` is a Unicode scalar value, as in Rust. */
module Utf8 {
  import opened Wrappers

  type byte = b: int | 0 <= b < 256

  /** The UTF-8 bytes of one character: one byte below U+0080, then two, three or four. */
  function EncodeChar(c: char): (bs: seq<byte>)
    ensures 1 <= |bs| <= 4
    ensures |bs| == 1 <==> (c as int) < 0x80
    ensures |bs| == 1 ==> bs[0] == c as int
    ensures |bs| > 1 ==> forall i :: 0 <= i < |bs| ==> bs[i] >= 0x80
  {
    var n := c as int;
    if n < 0x80 then [n]
    else if n < 0x800 then [0xC0 + n / 0x40, 0x80 + n % 0x40]
    else if n < 0x10000 then [0xE0 + n / 0x1000, 0x80 + (n / 0x40) % 0x40, 0x80 + n % 0x40]
    else [0xF0 + n / 0x40000, 0x80 + (n / 0x1000) % 0x40, 0x80 + (n / 0x40) % 0x40, 0x80 + n % 0x40]
  }

  /** The UTF-8 bytes of a string. */
  function Encode(s: string): seq<byte>
  {
    if |s| == 0 then [] else EncodeChar(s[0]) + Encode(s[1..])
  }

  predicate IsContinuation(b: byte) {
    0x80 <= b < 0xC0
  }

  /** The first character of `bs` and the number of bytes it takes, when `bs` starts with a
      well-formed UTF-8 sequence (no overlong forms, no surrogates, nothing above U+10FFFF). */
  function DecodeFirst(bs: seq<byte>): (r: Option<(char, nat)>)
    ensures r.Some? ==> 1 <= r.value.1 <= |bs| && r.value.1 <= 4
  {
    if |bs| == 0 then None
    else
      var b0: int := bs[0];
      if b0 < 0x80 then Some((b0 as char, 1))
      else if 0xC2 <= b0 <= 0xDF then
        if |bs| >= 2 && IsContinuation(bs[1])
        then Some((((b0 - 0xC0) * 0x40 + (bs[1] as int - 0x80)) as char, 2))
        else None
      else if 0xE0 <= b0 <= 0xEF then
        var lo := if b0 == 0xE0 then 0xA0 else 0x80;
        var hi := if b0 == 0xED then 0x9F else 0xBF;
        if |bs| >= 3 && lo <= bs[1] <= hi && IsContinuation(bs[2])
        then Some((((b0 - 0xE0) * 0x1000 + (bs[1] as int - 0x80) * 0x40 + (bs[2] as int - 0x80)) as char, 3))
        else None
      else if 0xF0 <= b0 <= 0xF4 then
        var lo := if b0 == 0xF0 then 0x90 else 0x80;
        var hi := if b0 == 0xF4 then 0x8F else 0xBF;
        if |bs| >= 4 && lo <= bs[1] <= hi && IsContinuation(bs[2]) && IsContinuation(bs[3])
        then Some((((b0 - 0xF0) * 0x40000 + (bs[1] as int - 0x80) * 0x1000
                    + (bs[2] as int - 0x80) * 0x40 + (bs[3] as int - 0x80)) as char, 4))
        else None
      else None
  }

  /** `std::str::from_utf8`: the string the bytes spell, or `None` if they are not valid UTF-8. */
  function Decode(bs: seq<byte>): Option<string>
    decreases |bs|
  {
    if |bs| == 0 then Some([])
    else match DecodeFirst(bs)
      case None => None
      case Some((c, k)) =>
        match Decode(bs[k..])
        case None => None
        case Some(rest) => Some([c] + rest)
  }

  /** Decoding reads back the character that was encoded, whatever follows it. */
  lemma DecodeFirstEncodeChar(c: char, rest: seq<byte>)
    ensures DecodeFirst(EncodeChar(c) + rest) == Some((c, |EncodeChar(c)|))
  {
    var n := c as int;
    if n < 0x80 {
    } else if n < 0x800 {
      DecodeTwo(c, rest);
    } else if n < 0x10000 {
      DecodeThree(c, rest);
    } else {
      DecodeFour(c, rest);
    }
  }

  lemma DecodeTwo(c: char, rest: seq<byte>)
    requires 0x80 <= c as int < 0x800
    ensures DecodeFirst(EncodeChar(c) + rest) == Some((c, 2))
  {
    var n := c as int;
    var q, r := n / 0x40, n % 0x40;
    assert n == q * 0x40 + r;
    var bs := EncodeChar(c) + rest;
    assert bs[0] == 0xC0 + q && bs[1] == 0x80 + r;
  }

  lemma DecodeThree(c: char, rest: seq<byte>)
    requires 0x800 <= c as int < 0x10000
    ensures DecodeFirst(EncodeChar(c) + rest) == Some((c, 3))
  {
    var n := c as int;
    var q, r := n / 0x40, n % 0x40;
    var q2, r2 := q / 0x40, q % 0x40;
    assert n == q * 0x40 + r;
    assert q == q2 * 0x40 + r2;
    assert q2 == n / 0x1000;
    var bs := EncodeChar(c) + rest;
    assert bs[0] == 0xE0 + q2 && bs[1] == 0x80 + r2 && bs[2] == 0x80 + r;
    assert n == q2 * 0x1000 + r2 * 0x40 + r;
  }

  lemma DecodeFour(c: char, rest: seq<byte>)
    requires 0x10000 <= c as int
    ensures DecodeFirst(EncodeChar(c) + rest) == Some((c, 4))
  {
    var n := c as int;
    var q, r := n / 0x40, n % 0x40;
    var q2, r2 := q / 0x40, q % 0x40;
    var q3, r3 := q2 / 0x40, q2 % 0x40;
    assert n == q * 0x40 + r;
    assert q == q2 * 0x40 + r2;
    assert q2 == q3 * 0x40 + r3;
    assert q2 == n / 0x1000;
    assert q3 == n / 0x40000;
    var bs := EncodeChar(c) + rest;
    assert bs[0] == 0xF0 + q3 && bs[1] == 0x80 + r3 && bs[2] == 0x80 + r2 && bs[3] == 0x80 + r;
    assert n == q3 * 0x40000 + r3 * 0x1000 + r2 * 0x40 + r;
  }

  /** Round trip: every string is read back from its UTF-8 bytes. */
  lemma {:induction false} DecodeEncode(s: string)
    ensures Decode(Encode(s)) == Some(s)
  {
    if |s| > 0 {
      var e := EncodeChar(s[0]);
      DecodeFirstEncodeChar(s[0], Encode(s[1..]));
      assert (e + Encode(s[1..]))[|e|..] == Encode(s[1..]);
      DecodeEncode(s[1..]);
      assert [s[0]] + s[1..] == s;
    }
  }

  /** An ASCII character's byte occurs in the encoding exactly where the character occurs in the
      string: multi-byte sequences use only bytes from 0x80 up. */
  lemma {:induction false} EncodeAscii(s: string, a: char)
    requires (a as int) < 0x80
    ensures (a as int) in Encode(s) <==> a in s
  {
    if |s| > 0 {
      EncodeAscii(s[1..], a);
      var e := EncodeChar(s[0]);
      assert Encode(s) == e + Encode(s[1..]);
      assert (a as int) in e <==> a == s[0];
      assert s == [s[0]] + s[1..];
    }
  }

  /** The bytes of a string are those of its first character, then those of the rest. */
  lemma EncodeCons(c: char, t: string)
    ensures Encode([c] + t) == EncodeChar(c) + Encode(t)
  {
    assert ([c] + t)[0] == c;
    assert ([c] + t)[1..] == t;
  }

  /** Encoding is character by character: the bytes of a concatenation are the concatenated bytes. */
  lemma {:induction false} EncodeAppend(s: string, t: string)
    ensures Encode(s + t) == Encode(s) + Encode(t)
  {
    if |s| > 0 {
      EncodeAppend(s[1..], t);
      assert (s + t)[1..] == s[1..] + t;
    } else {
      assert s + t == t;
    }
  }

  /** The string whose characters are the given ASCII bytes. */
  function AsciiText(bs: seq<byte>): (s: string)
    requires forall i :: 0 <= i < |bs| ==> bs[i] < 0x80
    ensures |s| == |bs|
  {
    if |bs| == 0 then "" else [bs[0] as char] + AsciiText(bs[1..])
  }

  /** ASCII bytes are their own UTF-8 encoding. */
  lemma {:induction false} EncodeAsciiText(bs: seq<byte>)
    requires forall i :: 0 <= i < |bs| ==> bs[i] < 0x80
    ensures Encode(AsciiText(bs)) == bs
  {
    if |bs| > 0 {
      EncodeAsciiText(bs[1..]);
      assert AsciiText(bs)[1..] == AsciiText(bs[1..]);
    }
  }
}
