/** The request and response plumbing of `src/lib.rs`: the server's own `parse_path` and
    `parse_fragment` (which report a missing fragment as `None`), the `ResponseData` views, and
    the request plugin stack of `Server::modify_request`. */
module Rustful {
  import opened Wrappers
  import opened Text
  import opened Utf8
  import Server

  // ---------------------------------------------------------------------------------------------
  // Paths

  /** `parse_fragment`: the text before the first '#' and, when there is one, the text after it. */
  function ParseFragment(path: string): (r: (string, Option<string>))
    ensures r.1.None? <==> '#' !in path
    ensures r.1.None? ==> r.0 == path
    ensures r.1.Some? ==> path == r.0 + "#" + r.1.value && '#' !in r.0
  {
    match Find(path, '#')
    case Some(i) => (path[..i], Some(path[i + 1..]))
    case None => (path, None)
  }

  /** The fragment split of `src/server.rs` is this one with a missing fragment read as empty. */
  lemma ParseFragmentServer(path: string)
    ensures Server.ParseFragment(path) == (ParseFragment(path).0, ParseFragment(path).1.GetOr(""))
  {
    var r := ParseFragment(path);
    var s := Server.ParseFragment(path);
    if '#' in path {
      SplitOnce(r.0, s.0, r.1.value, s.1);
    }
  }

  /** A string splits at most one way around a separator the first part does not hold. */
  lemma SplitOnce(a: string, a': string, b: string, b': string)
    requires a + "#" + b == a' + "#" + b' && '#' !in a && '#' !in a'
    ensures a == a' && b == b'
  {
    FindAfterPrefix(a, '#', b);
    FindAfterPrefix(a', '#', b');
    var s := a + "#" + b;
    assert a == s[..|a|] && b == s[|a| + 1..];
    assert a' == s[..|a'|] && b' == s[|a'| + 1..];
  }

  /** A request target split into its path, its query parameters and its fragment, if any. */
  datatype ParsedPath = ParsedPath(path: string, query: map<string, string>, fragment: Option<string>)

  /** `parse_path`: everything before the first '?' is the path, and the query and the fragment
      come from what follows; the query's bytes go to `parseParameters`, the parameter parser of a
      module that is not part of this model. */
  function ParsePath(path: string, parseParameters: seq<byte> -> map<string, string>): ParsedPath {
    match Find(path, '?')
    case Some(i) =>
      var (query, fragment) := ParseFragment(path[i + 1..]);
      ParsedPath(path[..i], parseParameters(Encode(query)), fragment)
    case None =>
      var (rest, fragment) := ParseFragment(path);
      ParsedPath(rest, map[], fragment)
  }

  /** With a '?', the path is what precedes the first one; the query and the fragment are split
      from the rest at its first '#', so a '?' may appear in both. */
  lemma ParsePathQuery(before: string, after: string, parseParameters: seq<byte> -> map<string, string>)
    requires '?' !in before
    ensures ParsePath(before + "?" + after, parseParameters)
         == ParsedPath(before, parseParameters(Encode(ParseFragment(after).0)), ParseFragment(after).1)
  {
    FindAfterPrefix(before, '?', after);
    var path := before + "?" + after;
    assert path[..|before|] == before;
    assert path[|before| + 1..] == after;
  }

  /** Without a '?' the query is empty, and the path is what precedes the first '#'. */
  lemma ParsePathNoQuery(path: string, parseParameters: seq<byte> -> map<string, string>)
    requires '?' !in path
    ensures ParsePath(path, parseParameters).query == map[]
    ensures ParsePath(path, parseParameters).fragment.None? <==> '#' !in path
    ensures path == ParsePath(path, parseParameters).path +
      (if '#' in path then "#" + ParsePath(path, parseParameters).fragment.value else "")
  {
  }

  /** A target that starts with '?' has an empty path. */
  lemma ParsePathLeadingQuery(after: string, parseParameters: seq<byte> -> map<string, string>)
    ensures ParsePath("?" + after, parseParameters).path == ""
  {
    ParsePathQuery("", after, parseParameters);
    assert "" + "?" + after == "?" + after;
  }

  /** The path returned never holds a '?' and is where the target starts. */
  lemma ParsePathPrefix(path: string, parseParameters: seq<byte> -> map<string, string>)
    ensures '?' !in ParsePath(path, parseParameters).path
    ensures ParsePath(path, parseParameters).path <= path
  {
    if '?' !in path {
      var r := ParseFragment(path);
      if '#' in path {
        assert path == r.0 + "#" + r.1.value;
        assert r.0 <= path;
      }
    }
  }

  // ---------------------------------------------------------------------------------------------
  // Response data

  /** What a response writes: owned or borrowed bytes, or an owned or borrowed string. */
  datatype ResponseData =
    | Bytes(bytes: seq<byte>)
    | ByteSlice(slice: seq<byte>)
    | String(text: string)
    | StringSlice(str: string)

  /** `as_bytes`: byte content as it is, string content in UTF-8. */
  function AsBytes(d: ResponseData): (r: seq<byte>)
    ensures d.Bytes? || d.ByteSlice? ==> r == (if d.Bytes? then d.bytes else d.slice)
    ensures d.String? || d.StringSlice? ==> Decode(r) == Some(if d.String? then d.text else d.str)
  {
    match d
    case Bytes(bytes) => bytes
    case ByteSlice(bytes) => bytes
    case String(s) => DecodeEncode(s); Encode(s)
    case StringSlice(s) => DecodeEncode(s); Encode(s)
  }

  /** `into_bytes`: the same bytes, taken by value. */
  function IntoBytes(d: ResponseData): (r: seq<byte>)
    ensures d.String? ==> Decode(r) == Some(d.text)
    ensures d.StringSlice? ==> Decode(r) == Some(d.str)
  {
    match d
    case Bytes(bytes) => bytes
    case ByteSlice(bytes) => bytes[..]
    case String(s) => DecodeEncode(s); Encode(s)
    case StringSlice(s) => DecodeEncode(s); Encode(s)[..]
  }

  /** `as_string`: the text of string content, and nothing for byte content, even when those bytes
      are valid UTF-8. */
  function AsString(d: ResponseData): (r: Option<string>)
    ensures r.None? <==> d.Bytes? || d.ByteSlice?
    ensures r.Some? ==> Encode(r.value) == AsBytes(d)
  {
    match d
    case String(s) => Some(s)
    case StringSlice(s) => Some(s)
    case _ => None
  }

  /** `into_string`: the same text, taken by value. */
  function IntoString(d: ResponseData): (r: Option<string>)
    ensures r.None? <==> d.Bytes? || d.ByteSlice?
  {
    match d
    case String(s) => Some(s)
    case StringSlice(s) => Some(s[..])
    case _ => None
  }

  /** Borrowing and taking agree: the owned forms hold what the borrowed views show. */
  lemma IntoAgreesWithAs(d: ResponseData)
    ensures IntoBytes(d) == AsBytes(d)
    ensures IntoString(d) == AsString(d)
  {
  }

  /** The bytes of string content read back as its text. */
  lemma AsBytesAsString(d: ResponseData)
    requires AsString(d).Some?
    ensures Decode(AsBytes(d)) == AsString(d)
  {
  }

  // ---------------------------------------------------------------------------------------------
  // Request plugins

  /** What a request plugin returns: go on with a (possibly changed) request, or stop with an HTTP
      status code. */
  datatype RequestAction<R> = Continue(request: R) | Abort(status: nat)

  /** The request plugins applied in order, each to the request the one before it passed on, until
      one aborts. */
  function Modified<R>(plugins: seq<R -> RequestAction<R>>, request: R): RequestAction<R>
    decreases |plugins|
  {
    if |plugins| == 0 then Continue(request)
    else match plugins[0](request)
      case Continue(next) => Modified(plugins[1..], next)
      case Abort(status) => Abort(status)
  }

  /** What follows an action: the remaining plugins when it continues, the action itself when it
      has aborted. */
  function Then<R>(action: RequestAction<R>, plugins: seq<R -> RequestAction<R>>): RequestAction<R> {
    match action
    case Continue(request) => Modified(plugins, request)
    case Abort(_) => action
  }

  /** `Server::modify_request`: starting from `Continue(request)`, each plugin in turn is given the
      request while the result is `Continue`; the first other result is returned as it is. */
  method ModifyRequest<R>(plugins: seq<R -> RequestAction<R>>, request: R) returns (result: RequestAction<R>)
    ensures result == Modified(plugins, request)
  {
    result := Continue(request);
    for i := 0 to |plugins|
      invariant Modified(plugins, request) == Then(result, plugins[i..])
    {
      assert plugins[i..][1..] == plugins[i + 1..];
      match result
      case Continue(r) =>
        result := plugins[i](r);
      case Abort(_) =>
        return result;
    }
    assert Then(result, plugins[|plugins|..]) == result;
  }

  /** Running two stacks one after the other is running their concatenation. */
  lemma {:induction false} ModifiedAppend<R>(p: seq<R -> RequestAction<R>>, q: seq<R -> RequestAction<R>>, request: R)
    ensures Modified(p + q, request) == Then(Modified(p, request), q)
    decreases |p|
  {
    if |p| == 0 {
      assert p + q == q;
    } else {
      assert (p + q)[1..] == p[1..] + q;
      match p[0](request)
      case Continue(next) =>
        ModifiedAppend(p[1..], q, next);
      case Abort(_) =>
    }
  }

  /** Once a plugin aborts, the plugins after it are not consulted. */
  lemma AbortStops<R>(p: seq<R -> RequestAction<R>>, q: seq<R -> RequestAction<R>>, request: R)
    requires Modified(p, request).Abort?
    ensures Modified(p + q, request) == Modified(p, request)
  {
    ModifiedAppend(p, q, request);
  }

  /** With no plugins, or only plugins that pass the request on untouched, the request goes on
      unchanged. */
  lemma {:induction false} PassThrough<R>(plugins: seq<R -> RequestAction<R>>, request: R)
    requires forall i, x :: 0 <= i < |plugins| ==> plugins[i](x) == Continue(x)
    ensures Modified(plugins, request) == Continue(request)
    decreases |plugins|
  {
    if |plugins| > 0 {
      assert forall i, x :: 0 <= i < |plugins| - 1 ==> plugins[1..][i](x) == plugins[i + 1](x);
      PassThrough(plugins[1..], request);
    }
  }
}
