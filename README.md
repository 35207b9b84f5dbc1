# rustful: the router and the request parsing, in Dafny

This project models the core of rustful, an HTTP request dispatcher written in Rust:

- The routing tree of `src/router.rs`. Routes are registered with `insert_item` and `from_routes`, and whole routers are grafted in with `insert_router`. `find` resolves a method and a path to an item and its path variables, trying static children first, then the variable child, then the wildcard child, with backtracking.
- The request-target parsing of `src/server.rs`: `url_decode`, `parse_parameters`, `parse_path` and `parse_fragment`.
- The plumbing of `src/lib.rs`: its own `parse_path` and `parse_fragment` (a missing fragment is `None`), the `ResponseData` views, and the request plugin stack of `Server::modify_request`.

## Files

- `wrappers.dfy` — `Option` and `Result`.
- `text.dfy` — the `str` operations the source relies on: `find`, `split`, `trim`. It proves that `Split` and `Join` are inverses.
- `utf8.dfy` — UTF-8 encoding and strict decoding of `string`. It proves `Decode(Encode(s)) == Some(s)`.
- `route_tree.dfy` — the router as a value (`Tree`) and the pure descriptions of segmentation, insertion and merging. It also states what every node holds after each of them (`EntryAt`).
- `route_search.dfy` — `search`, `match_static`, `match_variable`, `match_wildcard`, `get` and `find` as mutually recursive functions. It proves soundness, exhaustive backtracking, static precedence, the shortest wildcard, and what a single route matches.
- `router.rs`'s loops (`from_routes`, `merge_router`, the `match_wildcard` loop, the `get` loop) are methods in `router.dfy`. Each is proved to compute the function that describes it.
- `server.dfy` — `url_decode` as a byte loop, and `parse_parameters` as a loop over the pieces. Both are proved against specification functions. It also has `parse_path`, `parse_fragment` and their properties.
- `rustful.dfy` — the parts of `src/lib.rs` above.

A router node owns its children outright (`~Router` boxes, `Option<~Router>`), so nothing is shared between nodes. An update in place through `&mut self` is therefore modelled as replacing the node by its updated value. The HTTP method is its `to_str()` text, which is the key the source uses in `items`.

Two consequences of the code are worth stating, because the route syntax does not make them obvious:

- A `:name` segment matches any segment, including the empty one that a doubled '/' produces.
- The wildcard tries the fewest segments first, because its loop drops segments from the front of the remaining path (src/router.rs:262-276).

## Model

| member | source | states |
|---|---|---|
| RouteTree.Empty | src/router.rs:63-70 | `Router::new`: no items, no static children, and no variable or wildcard child. `EntryAtEmpty` states that it holds no entry at any node for any method. |
| RouteTree.PathToVec | src/router.rs:280-294 | `path_to_vec`: a path splits into its '/'-separated segments once one leading and one trailing '/' are dropped, with `""` and `"/"` giving none. `PathToVecJoin` and `PathToVecOfSlashed` state what the segments are. |
| RouteTree.Child | src/router.rs:182-198 | The read half of `find_or_insert_router`: the wildcard child for `*`, the variable child for `:name`, else the static child of that text, or an empty node when missing. |
| RouteTree.SetChild | src/router.rs:182-198 | The write half of `find_or_insert_router`: the node with that child replaced, created when missing. `EntryAtSetChild` states that nothing else changes. |
| RouteTree.InsertVec | src/router.rs:89-112 | `insert_item_vec`: descend along the pattern, pushing each `:name`, and store the item with the names at the end. `InsertVecEntryAt` and `InsertVecOverwrite` state its effect. |
| RouteTree.InsertItem | src/router.rs:84-87 | `insert_item`: the pattern is trimmed and segmented, then inserted. `SingleRouteFind` and `InsertThenFindStatic` relate it to `find`. |
| RouteTree.FromRoutes | src/router.rs:73-81 | `from_routes`: the routes inserted into a new router in order. `FromRoutesEntryAt` states the result. |
| RouteTree.Merge | src/router.rs:145-179 | `merge_router`: the other router's items, names prefixed, over this node's, and the children merged key by key. `MergeEntryAt` and `MergeShape` state the result. |
| RouteTree.MergeChild | src/router.rs:157-178 | The variable and wildcard arms of `merge_router`: this node's child, created empty if only the other router has one, with the other's merged in. |
| RouteTree.InsertRouterVec | src/router.rs:120-142 | `insert_router_vec`: descend along the prefix as insertion does, pushing each `:name`, then merge the other router there. `InsertRouterVecEntryAt` states the result. |
| RouteTree.InsertRouter | src/router.rs:115-117 | `insert_router`: the prefix is trimmed and segmented, then the router is grafted there. `InsertRouterEntryAt` states the result. |
| RouteTree.InsertRouterEntryAt | src/router.rs:115-142 | After `insert_router`, each entry of the other router is found below the node the trimmed prefix leads to, with the prefix's variable names in front of its own. Every other node and method keeps this router's entry. |
| RouteTree.PathToVecJoin | src/router.rs:280-294 | `""` and `"/"` have no segments. Any other path has at least one segment, no segment holds a '/', and joining the segments with '/' and restoring the one dropped leading and one dropped trailing '/' gives the path back. Empty segments are kept. |
| RouteTree.PathToVecOfSlashed | src/router.rs:280-294 | Segments without '/' are read back from `"/" + join + "/"`, so a pattern's leading and trailing slashes are optional. |
| RouteTree.VarNamesAppend | src/router.rs:89-111 | The names a pattern declares are those of its parts in order. `:name` adds `name`, and `*` and literals add nothing. |
| RouteTree.InsertVecEntryAt | src/router.rs:84-111 | Insertion is a point update. The item is stored, with the declared variable names appended to the accumulated ones, at exactly the node the pattern leads to and for exactly that method. Every other node and method keeps its entry. |
| RouteTree.InsertVecOverwrite | src/router.rs:89-111 | A second insertion of the same method at the same pattern replaces the first. |
| RouteTree.FromRoutesEntryAt | src/router.rs:72-81 | After `from_routes`, every node and method holds the last route of the table registered there, with that pattern's variable names. |
| RouteTree.MergeEntryAt | src/router.rs:144-179 | Merging keeps every entry of the other router, with the prefix's names prepended to its own. It keeps this router's entries wherever the other has none for that method. |
| RouteTree.MergeShape | src/router.rs:144-179 | Merging removes nothing: a node exists after the merge if and only if it existed in one of the two routers. |
| RouteTree.InsertRouterVecEntryAt | src/router.rs:114-141 | Grafting a router under a prefix puts each of its entries below the node the prefix leads to, prefixed by the accumulated names and the prefix's names. Everything else keeps its entry. |
| Routing.FromRoutes | src/router.rs:72-81 | The loop over the table computes `RouteTree.FromRoutes`, whose contents `FromRoutesEntryAt` gives. |
| Routing.MergeRouter | src/router.rs:144-179 | The merge loops compute `RouteTree.Merge`, whose contents `MergeEntryAt` and `MergeShape` give. |
| Routing.MergeItems | src/router.rs:145-150 | The first loop stores each item of the other router over this node's items, with the names prefixed. |
| Routing.MergeStatics | src/router.rs:152-155 | The second loop merges each static child into this node's child for that key, creating it empty when missing. |
| Routing.MergeOptional | src/router.rs:157-178 | The variable and wildcard children are merged the same way, created empty when only the other router has one. |
| Routing.MatchWildcard | src/router.rs:262-276 | The wildcard loop tries the rest of the path whole, then without its first segment, and so on down to the empty rest. It returns the first match, exactly as `RouteSearch.MatchWildcard` does. |
| Routing.Get | src/router.rs:221-232 | The zip loop binds names to captured values positionally, stopping at the shorter list. |
| RouteSearch.Find | src/router.rs:201-203 | `find`: the query is segmented, not trimmed, and searched from the root with no captures. `SingleRouteFind`, `UnregisteredMethod` and `InsertThenFindStatic` state what it returns. |
| RouteSearch.Search | src/router.rs:206-218 | `search`: at the end of the path the node's entry for the method, else the first segment goes to `match_static`. `SearchAccepts` and `SearchSound` state what it returns. |
| RouteSearch.Get | src/router.rs:221-232 | `get`: the node's item for the method, with its names zipped against the captured values. `BindingsSpec` states the bindings. |
| RouteSearch.MatchStatic | src/router.rs:235-245 | `match_static`: the static child for the segment, falling back to `match_variable` when it has no match. `StaticWins` states the precedence. |
| RouteSearch.MatchVariable | src/router.rs:248-259 | `match_variable`: the variable child, capturing the segment, falling back to `match_wildcard` when it has no match. `StaticBacktracks` states the fallback. |
| RouteSearch.MatchWildcard | src/router.rs:262-277 | `match_wildcard`: below the wildcard child, the rest of the path with 0, 1, 2, … further segments dropped, in that order, until one matches. `MatchWildcardAccepts` and `WildcardFromFirst` state the result. |
| RouteSearch.WildcardFrom | src/router.rs:265-276 | The loop of `match_wildcard`, from the point where `i` further segments are dropped. `WildcardFromAccepts` and `WildcardFromFirst` state the result. |
| RouteSearch.BindingsSpec | src/router.rs:221-232 | The bindings hold exactly the first min(#names, #values) names. A name is bound to the value at its last position below that bound. |
| RouteSearch.SearchSound | src/router.rs:206-276 | Every item the search returns is registered in the tree under the method searched for. |
| RouteSearch.UnregisteredMethod | src/router.rs:201-203 | A method with no route anywhere is never found, on any path. |
| RouteSearch.SearchAccepts | src/router.rs:206-276 | The search finds an item exactly when some route of the tree matches the path. A failed static or variable branch never hides a later match, so backtracking is exhaustive. |
| RouteSearch.WildcardFromAccepts | src/router.rs:262-276 | The wildcard loop from `i` finds a match exactly when the remainder matches after some split at or after `i`. |
| RouteSearch.StaticWins | src/router.rs:235-245 | A static child that matches the rest wins over the variable and wildcard children. |
| RouteSearch.StaticBacktracks | src/router.rs:235-259 | When the static child has no match, the search falls back to the variable child, which captures the segment. |
| RouteSearch.WildcardFallback | src/router.rs:235-262 | When neither the static child nor the variable child has a match, the search falls back to the wildcard child with the rest of the path. |
| RouteSearch.WildcardFromFirst | src/router.rs:262-276 | In any tree, the wildcard takes as few segments as it can: the loop returns what the search finds after the first split whose rest some route below the wildcard matches. |
| RouteSearch.StaticRouteFound | src/router.rs:206-245 | Along a path of static children to a node holding the method, the search returns that node's item, whatever the variable and wildcard children hold. |
| RouteSearch.InsertThenFindStatic | src/router.rs:84-111 | A pattern with no variable or wildcard, once inserted, is found by its own path with no variables. |
| RouteSearch.SearchChain | src/router.rs:206-276 | In a router holding a single route, the search result is the one `Capture` describes. |
| RouteSearch.CaptureMatches | src/router.rs:206-276 | The search's captures succeed exactly when the pattern matches: a literal equals the segment, `:name` takes any segment (including the empty one), and `*` takes one or more segments. |
| RouteSearch.CaptureStarShortest | src/router.rs:262-276 | The wildcard takes as few segments as it can: the captures are those of the first split that lets the rest of the pattern match. |
| RouteSearch.CaptureLength | src/router.rs:221-232 | A successful capture has one value per declared variable name. |
| RouteSearch.MatchesLength | src/router.rs:206-276 | A matching path has at least as many segments as the pattern, and exactly as many when the pattern has no `*`. |
| RouteSearch.SingleRouteFind | src/router.rs:84-87 | Insert then find: with one route registered, a query finds it if and only if the method is the route's and the trimmed pattern matches the untrimmed query. The item is the route's, and the variables' keys are exactly the declared names. |
| RouteSearch.ShortQueryNotFound | src/router.rs:262-276 | A query with fewer segments than the pattern is never found; in particular a wildcard never matches nothing. |
| Server.PercentDecode | src/server.rs:181-201 | The byte loop of `url_decode`: `%XY` becomes one byte, other bytes are copied, and a short or non-hex escape fails. `PercentDecodeEncode` and `PercentDecodeAppend` state its properties. |
| Server.UrlDecoded | src/server.rs:181-209 | `url_decode`: the decoded bytes as text when they are UTF-8, else the input unchanged. `UrlDecodeEscaped`, `UrlDecodePlain` and the failure lemmas state its properties. |
| Server.Parameter | src/server.rs:143-154 | One piece of `parse_parameters`: the piece is split at '='. The name is decoded before the value. The value is `""` when there is only one part, and further parts are ignored. The first decoding failure fails the piece. `PlainParameter` states the result for pieces without escapes. |
| Server.Parameters | src/server.rs:140-159 | `parse_parameters`: split at '&', each piece split at '=', name and value decoded and inserted in order. `ParametersSucceed`, `ParametersNames` and `ParametersLast` state the result. |
| Server.ParsePath | src/server.rs:161-172 | `parse_path`: path, decoded query parameters and fragment. `ParsePathQuery`, `ParsePathNoQuery` and `ParsePathPrefix` state the split. |
| Server.UrlDecode | src/server.rs:181-209 | The byte loop computes `UrlDecoded`: each `%XY` becomes one byte, a `%` with fewer than two bytes after it or with non-hex digits fails, and bytes that are not valid UTF-8 give the input back. |
| Server.UrlDecodePlain | src/server.rs:181-209 | A string without '%' is returned unchanged. |
| Server.PercentDecodeEncode | src/server.rs:181-196 | Decoding inverts percent-encoding of any byte string. |
| Server.UrlDecodeEscaped | src/server.rs:181-209 | Every string is the decoding of its fully escaped UTF-8 form. |
| Server.TrailingPercentFails | src/server.rs:194-196 | A trailing '%' fails with a truncated escape after any text that itself decodes. |
| Server.ShortEscapeFails | src/server.rs:194-196 | A '%' with one character after it fails. |
| Server.InvalidEscapeFails | src/server.rs:198 | A '%' followed by two characters that are not both hex digits fails with an invalid escape. |
| Server.UrlDecodeInvalidUtf8 | src/server.rs:205-208 | `%FF` decodes to a byte that is not UTF-8, so the input `%FF` itself is returned. |
| Server.PercentDecodeAppend | src/server.rs:181-201 | Decoding runs left to right: a decodable prefix contributes its bytes in front of the decoding of the rest. |
| Server.ParseParameters | src/server.rs:140-159 | The loop computes `Parameters`: each '&'-piece is split at '=', its name and value (empty without '=') are decoded and inserted in order, and the first decoding failure fails the whole. |
| Server.PlainParameter | src/server.rs:143-154 | A piece without escapes gives its first part as the name and its second as the value, or the empty value when there is no '='. Further parts are ignored. |
| Server.ParametersSucceed | src/server.rs:140-159 | The parse succeeds exactly when every piece decodes. |
| Server.ParametersNames | src/server.rs:140-159 | The names bound are exactly the decoded names of the pieces. |
| Server.ParametersLast | src/server.rs:140-159 | A name is bound to the value of the last piece that has it. |
| Server.ParseFragment | src/server.rs:174-179 | Splits at the first '#': text before, '#', text after make up the input. Without a '#' the fragment is empty. |
| Server.ParsePathQuery | src/server.rs:161-172 | With a '?', the path is what precedes the first one. The query and the fragment come from what follows, split at its first '#'. A query that does not decode makes the whole parse fail. |
| Server.ParsePathNoQuery | src/server.rs:161-172 | Without a '?', the query is empty and the path is what precedes the fragment. |
| Server.ParsePathPlain | src/server.rs:161-172 | A target with neither '?' nor '#' comes back whole, with no parameters and an empty fragment. |
| Server.ParsePathLeadingQuery | src/server.rs:161-172 | A target starting with '?' has an empty path. |
| Server.ParsePathPrefix | src/server.rs:161-172 | The path returned never holds a '?' and is a prefix of the target. |
| Rustful.ParsePath | src/lib.rs:491-502 | `parse_path`: path, the parameters of the query, and the optional fragment. `ParsePathQuery`, `ParsePathNoQuery` and `ParsePathPrefix` state the split. |
| Rustful.IntoBytes | src/lib.rs:129-137 | `into_bytes`: the bytes taken by value. String content gives bytes that decode back to the text. |
| Rustful.IntoString | src/lib.rs:149-158 | `into_string`: `None` exactly for byte content. `IntoAgreesWithAs` states that it holds what `as_string` shows. |
| Rustful.Modified | src/lib.rs:363-375 | The plugin stack applied to a request: plugins in order until the first `Abort`. `ModifiedAppend`, `AbortStops` and `PassThrough` state its properties. |
| Rustful.ParseFragment | src/lib.rs:504-509 | Splits at the first '#'. The fragment is `None` exactly when there is no '#', and then the text is returned whole. |
| Rustful.ParseFragmentServer | src/lib.rs:504-509 | The split of `src/server.rs` is this one with a missing fragment read as empty. |
| Rustful.ParsePathQuery | src/lib.rs:491-496 | With a '?', the path is what precedes the first one. The query's bytes go to the parameter parser, and the fragment is whatever follows the first '#' after the '?'. |
| Rustful.ParsePathNoQuery | src/lib.rs:497-500 | Without a '?', the query is empty, the fragment is `None` exactly when there is no '#', and path and fragment make up the target. |
| Rustful.ParsePathLeadingQuery | src/lib.rs:491-502 | A target starting with '?' has an empty path. |
| Rustful.ParsePathPrefix | src/lib.rs:491-502 | The path returned never holds a '?' and is a prefix of the target. |
| Rustful.AsBytes | src/lib.rs:119-127 | Byte content comes back as it is. String content comes back as bytes that decode to the text. |
| Rustful.AsString | src/lib.rs:139-147 | `None` exactly for byte content, even valid UTF-8. Otherwise the text, whose encoding is `as_bytes`. |
| Rustful.IntoAgreesWithAs | src/lib.rs:129-158 | `into_bytes` and `into_string` hold what `as_bytes` and `as_string` show. |
| Rustful.AsBytesAsString | src/lib.rs:119-147 | The bytes of string content decode back to its text. |
| Rustful.ModifyRequest | src/lib.rs:363-375 | The loop computes `Modified`: plugins in order, each given the request the previous one passed on, until the first `Abort`, which is returned. |
| Rustful.ModifiedAppend | src/lib.rs:363-375 | Running two plugin stacks one after the other is running their concatenation. |
| Rustful.AbortStops | src/lib.rs:366-371 | Once a plugin aborts, no later plugin is consulted. |
| Rustful.PassThrough | src/lib.rs:363-375 | With no plugins, or only plugins that pass the request on untouched, the result is `Continue` with the request unchanged. |
| Text.JoinSplit | src/server.rs:142-143 | Splitting loses nothing: joining the pieces gives the string back. |
| Text.SplitJoin | src/server.rs:142-143 | Pieces without the separator are split back out of their join. |
| Utf8.DecodeEncode | src/server.rs:205-208 | UTF-8 decoding inverts encoding, so decoded bytes that came from a string give that string. |

## Left out

- I/O and the server itself are not part of this model: the `http::server::Server` impl, `handle_request`, `build_request`, `get_config`, `run`, response writing and response plugins, the cache, and the `Arc`/`RWLock` sharing of the router and the plugin stacks.
- `macros.rs`, `file.rs`, `log.rs`, `context.rs`, `request_extensions` and the examples are not part of this model.
- Update in place is modelled as replacing a node by its updated value. Nodes own their children, so there is no aliasing to lose. The `&mut` borrows that `find_or_insert_router` returns are not modelled as references.
- `HashMap` iteration order in `merge_router` is not modelled. The merge is proved to give the same tree for every order the loop may pick, because its loops pick keys nondeterministically.
- `utils::parse_parameters`, which `src/lib.rs` calls from `parse_path`, is not part of this model. It is a function parameter that receives the query's UTF-8 bytes.
- Request plugins are pure functions from a request to an action. Plugin state and the plugins' own behaviour are not modelled. The abort status is an HTTP status code (`nat`) rather than the `status::Status` enum.
- `RouteSearch.Find` returns the variables as a Dafny `map`, the contents of the source's `HashMap`. The `RouterResult` borrow of the item is the item's value.
- Server.UrlDecode: the two bytes after '%' must both be ASCII hex digits. The source hands them to `uint::parse_bytes`, whose acceptance of anything else (a sign, for instance) is not visible here. A `fail!()` or `unwrap()` panic is a `Failure` result, and `parse_parameters` and `parse_path` pass that failure on instead of aborting.
- Server.UrlDecode: only the characters of a `string` are decoded, so invalid UTF-8 can only arise from `%XY` escapes. The source reads the same bytes from `as_bytes()`.
- RouteTree.PathToVec: a path of two or more bytes whose last character is not ASCII (`"/café"`, or `"é"`, whose two bytes skip the one-byte branch) makes `char_at(path.len() - 1)` fail the task at src/router.rs:291, because that byte index falls inside a character. The model drops this failure: it segments such a path as it would any other, so `insert_item`, `insert_router` and `find` on such paths succeed in the model where the source fails.
- Text.IsWhitespace: the Unicode tables of the `str` library that `trim()` used are not part of this model. U+180E, a space separator before Unicode 6.3, is not whitespace here.
