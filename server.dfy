/** The request parsing of `src/server.rs`: `url_decode`, `parse_parameters`, `parse_path` and
    `parse_fragment`. A panic of the source (`fail!()`, or `unwrap()` on a failed number parse) is
    a `Failure` here, and a failure while decoding any part fails the whole parse. */
module Server {
  import opened Wrappers
  import opened Text
  import opened Utf8

  /** Why `url_decode` panics: fewer than two bytes after a '%', or two that are not hex digits. */
  datatype DecodeError = TruncatedEscape | InvalidEscape

  const Percent: byte := 0x25

  /** The value of an ASCII hexadecimal digit, either case. */
  function HexDigit(b: byte): (r: Option<nat>)
    ensures r.Some? ==> r.value < 16
  {
    if 0x30 <= b <= 0x39 then Some(b - 0x30)
    else if 0x41 <= b <= 0x46 then Some(b - 0x41 + 10)
    else if 0x61 <= b <= 0x66 then Some(b - 0x61 + 10)
    else None
  }

  /** `out` in front of a decoding result; failures pass through. */
  function Prepend(out: seq<byte>, r: Result<seq<byte>, DecodeError>): Result<seq<byte>, DecodeError> {
    match r
    case Success(rest) => Success(out + rest)
    case Failure(e) => Failure(e)
  }

  /** The bytes `url_decode` collects: "%XY" becomes the byte with hex value XY, any other byte is
      kept. */
  function PercentDecode(bs: seq<byte>): Result<seq<byte>, DecodeError>
    decreases |bs|
  {
    if |bs| == 0 then Success([])
    else if bs[0] != Percent then Prepend([bs[0]], PercentDecode(bs[1..]))
    else if |bs| < 3 then Failure(TruncatedEscape)
    else match (HexDigit(bs[1]), HexDigit(bs[2]))
      case (Some(h), Some(l)) => Prepend([16 * h + l], PercentDecode(bs[3..]))
      case _ => Failure(InvalidEscape)
  }

  /** What `url_decode` returns: the decoded bytes read as UTF-8, or the input itself when they
      are not valid UTF-8. */
  function UrlDecoded(s: string): Result<string, DecodeError> {
    match PercentDecode(Encode(s))
    case Failure(e) => Failure(e)
    case Success(out) => Success(Decode(out).GetOr(s))
  }

  /** Prepending nothing changes nothing; prepending twice is prepending the concatenation. */
  lemma PrependNil(r: Result<seq<byte>, DecodeError>)
    ensures Prepend([], r) == r
  {
    if r.Success? {
      assert [] + r.value == r.value;
    }
  }

  lemma PrependPrepend(a: seq<byte>, b: seq<byte>, r: Result<seq<byte>, DecodeError>)
    ensures Prepend(a, Prepend(b, r)) == Prepend(a + b, r)
  {
    if r.Success? {
      assert a + (b + r.value) == (a + b) + r.value;
    }
  }

  /** One step of the decoder at position `i`. */
  lemma PercentDecodeAt(bs: seq<byte>, i: nat)
    requires i < |bs|
    ensures bs[i] != Percent ==> PercentDecode(bs[i..]) == Prepend([bs[i]], PercentDecode(bs[i + 1..]))
    ensures bs[i] == Percent && i + 3 > |bs| ==> PercentDecode(bs[i..]) == Failure(TruncatedEscape)
    ensures bs[i] == Percent && i + 3 <= |bs| && HexDigit(bs[i + 1]).Some? && HexDigit(bs[i + 2]).Some? ==>
      PercentDecode(bs[i..]) ==
        Prepend([16 * HexDigit(bs[i + 1]).value + HexDigit(bs[i + 2]).value], PercentDecode(bs[i + 3..]))
    ensures bs[i] == Percent && i + 3 <= |bs| && (HexDigit(bs[i + 1]).None? || HexDigit(bs[i + 2]).None?) ==>
      PercentDecode(bs[i..]) == Failure(InvalidEscape)
  {
    var rest := bs[i..];
    assert rest[1..] == bs[i + 1..];
    if i + 3 <= |bs| {
      assert rest[3..] == bs[i + 3..];
      assert rest[1] == bs[i + 1] && rest[2] == bs[i + 2];
    }
  }

  /** `url_decode`: one pass over the bytes of `s`, pushing each decoded byte. */
  method UrlDecode(s: string) returns (r: Result<string, DecodeError>)
    ensures r == UrlDecoded(s)
  {
    var bytes := Encode(s);
    var out: seq<byte> := [];
    var i := 0;
    PrependNil(PercentDecode(bytes));
    assert bytes[0..] == bytes;
    while i < |bytes|
      invariant i <= |bytes|
      invariant PercentDecode(bytes) == Prepend(out, PercentDecode(bytes[i..]))
    {
      if bytes[i] == Percent {
        if i + 3 > |bytes| {
          PercentDecodeAt(bytes, i);
          return Failure(TruncatedEscape);
        }
        var h := HexDigit(bytes[i + 1]);
        var l := HexDigit(bytes[i + 2]);
        PercentDecodeAt(bytes, i);
        if h.None? || l.None? {
          return Failure(InvalidEscape);
        }
        var b := 16 * h.value + l.value;
        PrependPrepend(out, [b], PercentDecode(bytes[i + 3..]));
        out := out + [b];
        i := i + 3;
      } else {
        PercentDecodeAt(bytes, i);
        PrependPrepend(out, [bytes[i]], PercentDecode(bytes[i + 1..]));
        out := out + [bytes[i]];
        i := i + 1;
      }
    }
    assert PercentDecode(bytes[i..]) == Success([]);
    assert PercentDecode(bytes) == Success(out) by {
      assert out + [] == out;
    }
    match Decode(out)
    case Some(text) => r := Success(text);
    case None => r := Success(s);
  }

  // ---------------------------------------------------------------------------------------------
  // What decoding does

  /** Bytes without '%' are collected unchanged. */
  lemma {:induction false} PercentDecodePlain(bs: seq<byte>)
    requires Percent !in bs
    ensures PercentDecode(bs) == Success(bs)
  {
    if |bs| > 0 {
      PercentDecodePlain(bs[1..]);
      assert [bs[0]] + bs[1..] == bs;
    }
  }

  /** A string with no '%' decodes to itself. */
  lemma UrlDecodePlain(s: string)
    requires '%' !in s
    ensures UrlDecoded(s) == Success(s)
  {
    EncodeAscii(s, '%');
    PercentDecodePlain(Encode(s));
    DecodeEncode(s);
  }

  /** Decoding works left to right: after a part that decodes completely, the rest decodes on its
      own. */
  lemma {:induction false} PercentDecodeAppend(p: seq<byte>, q: seq<byte>)
    requires PercentDecode(p).Success?
    ensures PercentDecode(p + q) == Prepend(PercentDecode(p).value, PercentDecode(q))
    decreases |p|
  {
    if |p| == 0 {
      assert p + q == q;
      match PercentDecode(q)
      case Success(x) => assert [] + x == x;
      case Failure(_) =>
    } else if p[0] != Percent {
      PercentDecodeAppend(p[1..], q);
      assert (p + q)[1..] == p[1..] + q;
      match PercentDecode(q)
      case Success(x) => assert [p[0]] + (PercentDecode(p[1..]).value + x) == [p[0]] + PercentDecode(p[1..]).value + x;
      case Failure(_) =>
    } else {
      PercentDecodeAppend(p[3..], q);
      assert (p + q)[3..] == p[3..] + q;
      assert (p + q)[..3] == p[..3];
      var h := HexDigit(p[1]).value;
      var l := HexDigit(p[2]).value;
      match PercentDecode(q)
      case Success(x) => assert [16 * h + l] + (PercentDecode(p[3..]).value + x) == [16 * h + l] + PercentDecode(p[3..]).value + x;
      case Failure(_) =>
    }
  }

  /** After text that decodes, the bytes of what follows decode on their own. */
  lemma DecodeAfter(s: string, t: string)
    requires UrlDecoded(s).Success?
    ensures PercentDecode(Encode(s + t)) == Prepend(PercentDecode(Encode(s)).value, PercentDecode(Encode(t)))
  {
    EncodeAppend(s, t);
    PercentDecodeAppend(Encode(s), Encode(t));
  }

  /** A '%' at the very end makes `url_decode` panic, whatever came before. */
  lemma TrailingPercentFails(s: string)
    requires UrlDecoded(s).Success?
    ensures UrlDecoded(s + "%") == Failure(TruncatedEscape)
  {
    DecodeAfter(s, "%");
    assert Encode("%") == [Percent];
  }

  /** So does a '%' with a single character after it. */
  lemma ShortEscapeFails(s: string, c: char)
    requires UrlDecoded(s).Success?
    ensures UrlDecoded(s + "%" + [c]).Failure?
  {
    assert s + "%" + [c] == s + ("%" + [c]);
    DecodeAfter(s, "%" + [c]);
    assert "%" + [c] == ['%'] + ([c] + "");
    EncodeCons('%', [c] + "");
    EncodeCons(c, "");
    ShortEscapeBytes(c);
  }

  /** A '%' and the bytes of one character do not decode: two bytes are too few, and a longer
      encoding does not start with a hex digit. */
  lemma ShortEscapeBytes(c: char)
    ensures PercentDecode([Percent] + EncodeChar(c) + []).Failure?
  {
    var q := [Percent] + EncodeChar(c) + [];
    if |EncodeChar(c)| > 1 {
      assert q[1] == EncodeChar(c)[0] >= 0x80;
    }
  }

  /** So does a '%' followed by two characters that are not both hex digits. */
  lemma InvalidEscapeFails(s: string, c: char, d: char, t: string)
    requires UrlDecoded(s).Success?
    requires !(IsHexChar(c) && IsHexChar(d))
    ensures UrlDecoded(s + "%" + [c, d] + t) == Failure(InvalidEscape)
  {
    assert s + "%" + [c, d] + t == s + ("%" + [c, d] + t);
    DecodeAfter(s, "%" + [c, d] + t);
    EncodeEscape(c, d, t);
    InvalidEscapeBytes(c, d, Encode(t));
  }

  /** The bytes of a '%', two characters and the rest. */
  lemma EncodeEscape(c: char, d: char, t: string)
    ensures Encode("%" + [c, d] + t) == [Percent] + EncodeChar(c) + EncodeChar(d) + Encode(t)
  {
    assert "%" + [c, d] + t == ['%'] + ([c] + ([d] + t));
    EncodeCons('%', [c] + ([d] + t));
    EncodeCons(c, [d] + t);
    EncodeCons(d, t);
  }

  /** The decoder stops at a '%' whose next two bytes do not start two hex characters. */
  lemma InvalidEscapeBytes(c: char, d: char, rest: seq<byte>)
    requires !(IsHexChar(c) && IsHexChar(d))
    ensures PercentDecode([Percent] + EncodeChar(c) + EncodeChar(d) + rest) == Failure(InvalidEscape)
  {
    var q := [Percent] + EncodeChar(c) + EncodeChar(d) + rest;
    HexCharByte(c);
    HexCharByte(d);
    assert q[1] == EncodeChar(c)[0];
    if |EncodeChar(c)| == 1 {
      assert q[2] == EncodeChar(d)[0];
    } else {
      assert q[2] == EncodeChar(c)[1];
    }
  }

  /** An ASCII hexadecimal digit, as a character. */
  predicate IsHexChar(c: char) {
    ('0' <= c <= '9') || ('A' <= c <= 'F') || ('a' <= c <= 'f')
  }

  /** The first byte of a character's encoding is a hex digit exactly for the hex characters. */
  lemma HexCharByte(c: char)
    ensures HexDigit(EncodeChar(c)[0]).Some? <==> IsHexChar(c)
  {
    if (c as int) >= 0x80 {
      assert EncodeChar(c)[0] >= 0x80;
    }
  }

  // ---------------------------------------------------------------------------------------------
  // The inverse: percent-encoding

  /** The ASCII byte of an upper-case hex digit. */
  function HexByte(n: nat): (b: byte)
    requires n < 16
    ensures b < 0x80 && HexDigit(b) == Some(n)
  {
    if n < 10 then 0x30 + n else 0x41 + n - 10
  }

  /** Every byte written as '%' and two upper-case hex digits. */
  function PercentEncode(bs: seq<byte>): (r: seq<byte>)
    ensures |r| == 3 * |bs|
    ensures forall i :: 0 <= i < |r| ==> r[i] < 0x80
  {
    if |bs| == 0 then [] else [Percent, HexByte(bs[0] / 16), HexByte(bs[0] % 16)] + PercentEncode(bs[1..])
  }

  /** Decoding undoes percent-encoding, for any bytes. */
  lemma {:induction false} PercentDecodeEncode(bs: seq<byte>)
    ensures PercentDecode(PercentEncode(bs)) == Success(bs)
  {
    if |bs| > 0 {
      var e := PercentEncode(bs);
      PercentDecodeEncode(bs[1..]);
      assert e[3..] == PercentEncode(bs[1..]);
      assert 16 * (bs[0] / 16) + bs[0] % 16 == bs[0];
      assert [bs[0]] + bs[1..] == bs;
    }
  }

  /** The text of a string with every byte of its UTF-8 form percent-escaped. */
  function Escaped(s: string): string {
    AsciiText(PercentEncode(Encode(s)))
  }

  /** `url_decode` gives back any string from its fully escaped form. */
  lemma UrlDecodeEscaped(s: string)
    ensures UrlDecoded(Escaped(s)) == Success(s)
  {
    EncodeAsciiText(PercentEncode(Encode(s)));
    PercentDecodeEncode(Encode(s));
    DecodeEncode(s);
  }

  /** An escape yielding a byte that is not UTF-8 on its own leaves the text as it was. */
  lemma UrlDecodeInvalidUtf8()
    ensures UrlDecoded("%FF") == Success("%FF")
  {
    var bs: seq<byte> := [0x25, 0x46, 0x46];
    assert Encode("%FF") == bs;
    assert HexDigit(bs[1]) == Some(15) && HexDigit(bs[2]) == Some(15);
    assert bs[3..] == [];
    assert PercentDecode(bs) == Prepend([255], PercentDecode([]));
    assert Decode([255]) == None;
  }

  // ---------------------------------------------------------------------------------------------
  // Parameters

  /** One piece of a query: split at '=', the first part is the name and the second the value
      (empty when there is no '='), both decoded; further parts are ignored. */
  function Parameter(piece: string): Result<(string, string), DecodeError> {
    var parts := Split(piece, '=');
    match UrlDecoded(parts[0])
    case Failure(e) => Failure(e)
    case Success(name) =>
      if |parts| == 1 then Success((name, ""))
      else match UrlDecoded(parts[1])
        case Failure(e) => Failure(e)
        case Success(value) => Success((name, value))
  }

  /** The map after the parsed pieces are inserted in order, or the first failure among them. */
  function Inserted(parsed: seq<Result<(string, string), DecodeError>>): Result<map<string, string>, DecodeError> {
    if |parsed| == 0 then Success(map[])
    else match Inserted(parsed[..|parsed| - 1])
      case Failure(e) => Failure(e)
      case Success(parameters) =>
        match parsed[|parsed| - 1]
        case Failure(e) => Failure(e)
        case Success(p) => Success(parameters[p.0 := p.1])
  }

  /** Each piece parsed on its own. */
  function ParsedPieces(pieces: seq<string>): seq<Result<(string, string), DecodeError>> {
    seq(|pieces|, j requires 0 <= j < |pieces| => Parameter(pieces[j]))
  }

  /** What `parse_parameters` returns for a query or a form body. */
  function Parameters(source: string): Result<map<string, string>, DecodeError> {
    Inserted(ParsedPieces(Split(source, '&')))
  }

  /** Once a piece has failed, the whole parse has failed. */
  lemma {:induction false} InsertedFails(parsed: seq<Result<(string, string), DecodeError>>, i: nat)
    requires i <= |parsed| && Inserted(parsed[..i]).Failure?
    ensures Inserted(parsed) == Inserted(parsed[..i])
    decreases |parsed| - i
  {
    if i < |parsed| {
      assert parsed[..i + 1][..i] == parsed[..i];
      InsertedFails(parsed, i + 1);
    } else {
      assert parsed[..i] == parsed;
    }
  }

  /** `parse_parameters`: every '&'-separated piece is split at '=' and its name and value decoded
      and inserted, later pieces over earlier ones. */
  method ParseParameters(source: string) returns (r: Result<map<string, string>, DecodeError>)
    ensures r == Parameters(source)
  {
    var pieces := Split(source, '&');
    ghost var parsed := ParsedPieces(pieces);
    var parameters := map[];
    for i := 0 to |pieces|
      invariant Inserted(parsed[..i]) == Success(parameters)
    {
      assert parsed[..i + 1][..i] == parsed[..i];
      var parts := Split(pieces[i], '=');
      var name := UrlDecode(parts[0]);
      if name.Failure? {
        InsertedFails(parsed, i + 1);
        return Failure(name.error);
      }
      var value := Success("");
      if |parts| >= 2 {
        value := UrlDecode(parts[1]);
        if value.Failure? {
          InsertedFails(parsed, i + 1);
          return Failure(value.error);
        }
      }
      parameters := parameters[name.value := value.value];
    }
    assert parsed[..|pieces|] == parsed;
    r := Success(parameters);
  }

  lemma {:induction false} InsertedSucceeds(parsed: seq<Result<(string, string), DecodeError>>)
    ensures Inserted(parsed).Success? <==> forall j :: 0 <= j < |parsed| ==> parsed[j].Success?
  {
    if |parsed| > 0 {
      var n := |parsed| - 1;
      InsertedSucceeds(parsed[..n]);
      assert forall j :: 0 <= j < n ==> parsed[..n][j] == parsed[j];
    }
  }

  lemma {:induction false} InsertedKeys(parsed: seq<Result<(string, string), DecodeError>>)
    requires forall j :: 0 <= j < |parsed| ==> parsed[j].Success?
    ensures Inserted(parsed).Success?
    ensures Inserted(parsed).value.Keys == set j | 0 <= j < |parsed| :: parsed[j].value.0
  {
    InsertedSucceeds(parsed);
    if |parsed| > 0 {
      var n := |parsed| - 1;
      var init := parsed[..n];
      InsertedKeys(init);
      assert (set j | 0 <= j < |parsed| :: parsed[j].value.0)
          == (set j | 0 <= j < n :: init[j].value.0) + {parsed[n].value.0};
    }
  }

  lemma {:induction false} InsertedLast(parsed: seq<Result<(string, string), DecodeError>>, i: nat)
    requires i < |parsed| && forall j :: 0 <= j < |parsed| ==> parsed[j].Success?
    requires forall j :: i < j < |parsed| ==> parsed[j].value.0 != parsed[i].value.0
    ensures Inserted(parsed).Success?
    ensures parsed[i].value.0 in Inserted(parsed).value
    ensures Inserted(parsed).value[parsed[i].value.0] == parsed[i].value.1
  {
    InsertedSucceeds(parsed);
    var n := |parsed| - 1;
    var init := parsed[..n];
    InsertedSucceeds(init);
    if i < n {
      InsertedLast(init, i);
    }
  }

  /** The parse succeeds exactly when every piece decodes. */
  lemma ParametersSucceed(source: string)
    ensures var pieces := Split(source, '&');
      Parameters(source).Success? <==> forall j :: 0 <= j < |pieces| ==> Parameter(pieces[j]).Success?
  {
    var pieces := Split(source, '&');
    var parsed := ParsedPieces(pieces);
    InsertedSucceeds(parsed);
    if !Parameters(source).Success? {
      var j :| 0 <= j < |parsed| && !parsed[j].Success?;
      assert !Parameter(pieces[j]).Success?;
    } else {
      assert forall j :: 0 <= j < |pieces| ==> parsed[j] == Parameter(pieces[j]);
    }
  }

  /** The names bound are the decoded names of the pieces. */
  lemma ParametersNames(source: string)
    requires Parameters(source).Success?
    ensures var pieces := Split(source, '&');
      && (forall j :: 0 <= j < |pieces| ==> Parameter(pieces[j]).Success?)
      && Parameters(source).value.Keys == set j | 0 <= j < |pieces| :: Parameter(pieces[j]).value.0
  {
    var pieces := Split(source, '&');
    var parsed := ParsedPieces(pieces);
    InsertedSucceeds(parsed);
    InsertedKeys(parsed);
    assert forall j :: 0 <= j < |pieces| ==> parsed[j] == Parameter(pieces[j]);
  }

  /** A name is bound to the decoded value of the last piece that has it. */
  lemma ParametersLast(source: string, i: nat)
    requires var pieces := Split(source, '&');
      && i < |pieces|
      && (forall j :: 0 <= j < |pieces| ==> Parameter(pieces[j]).Success?)
      && (forall j :: i < j < |pieces| ==> Parameter(pieces[j]).value.0 != Parameter(pieces[i]).value.0)
    ensures var p := Parameter(Split(source, '&')[i]).value;
      Parameters(source).Success? && p.0 in Parameters(source).value && Parameters(source).value[p.0] == p.1
  {
    var pieces := Split(source, '&');
    var parsed := ParsedPieces(pieces);
    assert forall j :: 0 <= j < |pieces| ==> parsed[j] == Parameter(pieces[j]);
    InsertedLast(parsed, i);
  }

  /** A piece without escapes yields its first part as the name and its second, or nothing, as
      the value. */
  lemma PlainParameter(parts: seq<string>)
    requires |parts| >= 1 && forall i :: 0 <= i < |parts| ==> '=' !in parts[i] && '%' !in parts[i]
    ensures Parameter(Join(parts, '=')) == Success((parts[0], if |parts| == 1 then "" else parts[1]))
  {
    SplitJoin(parts, '=');
    UrlDecodePlain(parts[0]);
    if |parts| > 1 {
      UrlDecodePlain(parts[1]);
    }
  }

  // ---------------------------------------------------------------------------------------------
  // Paths

  /** `parse_fragment`: the text before the first '#' and the text after it, or the whole text and
      an empty fragment when there is no '#'. */
  function ParseFragment(path: string): (r: (string, string))
    ensures '#' in path ==> path == r.0 + "#" + r.1 && '#' !in r.0
    ensures '#' !in path ==> r == (path, "")
  {
    match Find(path, '#')
    case Some(i) => (path[..i], path[i + 1..])
    case None => (path, "")
  }

  /** A request target split into its path, its decoded query parameters and its fragment. */
  datatype ParsedPath = ParsedPath(path: string, query: map<string, string>, fragment: string)

  /** `parse_path`: everything before the first '?' is the path, and what follows is split into the
      query and the fragment; without a '?' the query is empty and only a fragment is split off. */
  function ParsePath(path: string): Result<ParsedPath, DecodeError> {
    match Find(path, '?')
    case Some(i) =>
      var (query, fragment) := ParseFragment(path[i + 1..]);
      (match Parameters(query)
       case Failure(e) => Failure(e)
       case Success(parameters) => Success(ParsedPath(path[..i], parameters, fragment)))
    case None =>
      var (rest, fragment) := ParseFragment(path);
      Success(ParsedPath(rest, map[], fragment))
  }

  /** A target with a '?' is split at the first one: the path is the text before it (and may hold
      a '#'), the query and the fragment come from the text after it. */
  lemma ParsePathQuery(before: string, after: string)
    requires '?' !in before
    ensures ParsePath(before + "?" + after) ==
      match Parameters(ParseFragment(after).0)
      case Failure(e) => Failure(e)
      case Success(parameters) => Success(ParsedPath(before, parameters, ParseFragment(after).1))
  {
    FindAfterPrefix(before, '?', after);
    var path := before + "?" + after;
    assert path[..|before|] == before;
    assert path[|before| + 1..] == after;
  }

  /** Without a '?' the query is empty and the path is what precedes the fragment; the path never
      holds a '?'. */
  lemma ParsePathNoQuery(path: string)
    requires '?' !in path
    ensures ParsePath(path) == Success(ParsedPath(ParseFragment(path).0, map[], ParseFragment(path).1))
    ensures '?' !in ParsePath(path).value.path
  {
    var r := ParseFragment(path);
    if '#' in path {
      assert path == r.0 + "#" + r.1;
      assert forall k :: 0 <= k < |r.0| ==> r.0[k] == path[k];
    }
  }

  /** A target with neither '?' nor '#' is returned whole, with no parameters and no fragment. */
  lemma ParsePathPlain(path: string)
    requires '?' !in path && '#' !in path
    ensures ParsePath(path) == Success(ParsedPath(path, map[], ""))
  {
    ParsePathNoQuery(path);
  }

  /** A target that starts with '?' has an empty path. */
  lemma ParsePathLeadingQuery(after: string)
    ensures ParsePath("?" + after).Success? ==> ParsePath("?" + after).value.path == ""
  {
    ParsePathQuery("", after);
    assert "" + "?" + after == "?" + after;
  }

  /** The path returned never holds a '?', and is a prefix of the target. */
  lemma ParsePathPrefix(path: string)
    ensures ParsePath(path).Success? ==>
      '?' !in ParsePath(path).value.path && ParsePath(path).value.path <= path
  {
    match Find(path, '?')
    case Some(i) =>
    case None =>
      ParsePathNoQuery(path);
      var r := ParseFragment(path);
      if '#' in path {
        assert path == r.0 + "#" + r.1;
        assert r.0 <= path;
      }
  }
}
