# gemini-proxy: the request handler, modelled in Dafny

gemini-proxy is an Express application with a single catch-all handler. It
forwards every request except `/` to the Google Generative Language API, i.e.
`https://generativelanguage.googleapis.com`; `/` is answered locally with a fixed message. On the way it does four things:

- It takes the API key list from the `x-goog-api-key` header or from an
  `Authorization: Bearer …` header.
- It picks one key from that list at random.
- It rewrites the outbound headers so the upstream sees only the selected key
  and its own host, origin and referer.
- It relays the upstream's status, filtered headers and body back to the caller.
  If the upstream exchange fails before anything was sent, the caller gets a 502.

The model follows the handler step by step:

| module | file | what it holds |
|---|---|---|
| `Wrappers` | `wrappers.dfy` | `Option` |
| `Target` | `target.dfy` | the upstream URL, hostname and origin constants |
| `JsText` | `jstext.dfy` | the JavaScript string operations the handler uses: `toLowerCase`, `startsWith`, `trim`, `split(',')` and their join |
| `Credentials` | `credentials.dfy` | the key-source precedence, the key-list pipeline `split → trim → filter`, and the random pick |
| `RequestHeaders` | `requestheaders.dfy` | the outbound header object |
| `ResponseHeaders` | `responseheaders.dfy` | the relayed response header object |
| `Handler` | `handler.dfy` | routing, the `fetch` arguments, the relay and `catch` decision, and end-to-end scenarios |

Two parts of the handler build an object in place with loops: the outbound
headers and the response headers. Both are modelled twice, with a proof that
the two agree:

- A specification function states the result and carries lemmas about what that result contains.
  These are `RequestHeaders.ForwardHeaders` and `ResponseHeaders.Relayed`.
- A method with the source's own loops, proved to build exactly that result.
  These are `BuildForwardHeaders`, `CopyWithoutCredentials`, `StripHopByHop` and `CopyResponseHeaders`.

Inputs that the handler reads from the runtime become parameters:

- `u`, a real number with `0 <= u < 1`, stands for `Math.random()`.
- `peer` stands for `req.socket.remoteAddress`.
- `protocol` stands for `req.protocol`.
- `Exchange` says how the `fetch` and the relay ended.

## Model

| member | source | states |
|---|---|---|
| JsText.LowerNoCapitals | api/index.js:51 | the lower-cased string has the same length and no ASCII capital left, and a string without ASCII capitals is returned unchanged |
| JsText.LowerIgnoresCase | api/index.js:51 | strings that differ only in ASCII letter case lower to the same string, which is what makes the name and prefix tests case-insensitive |
| JsText.LowerIdempotent | api/index.js:51 | lower-casing an already lower-cased string changes nothing |
| JsText.LeadingEnd | api/index.js:42 | the first index at or after `i` that is not whitespace; everything skipped is whitespace |
| JsText.TrailingStart | api/index.js:42 | the mirror image of `LeadingEnd`, scanning backwards from the end |
| JsText.Trim | api/index.js:42 | the trimmed string is a slice of the input, and the slice neither starts nor ends with whitespace. All that was cut off on either side is whitespace |
| JsText.TrimOfTrimmed | api/index.js:42 | trimming an already-trimmed string is the identity |
| JsText.TrimPadded | api/index.js:42 | `trim` removes exactly the whitespace padding around a non-empty trimmed string |
| JsText.TrimWhitespace | api/index.js:42 | a string made only of whitespace trims to `""` |
| JsText.Split | api/index.js:42 | `split(',')` gives at least one piece. No piece contains a comma, and joining the pieces with commas gives back the input |
| JsText.SplitUnique | api/index.js:42 | any comma-free pieces that join to `s` are exactly `Split(s)`, so the split is uniquely determined |
| JsText.SplitOfCommaFree | api/index.js:42 | a comma-free string splits to a single piece |
| JsText.SplitAfterPiece | api/index.js:42 | splitting `p + "," + t` gives `p` followed by the pieces of `t` |
| JsText.SplitConcat | api/index.js:42 | splitting `a + "," + b` gives the pieces of `a` followed by the pieces of `b` |
| JsText.JoinAppend | api/index.js:42 | joining two non-empty lists puts one separator between their joins |
| Credentials.ExtractCredential | api/index.js:26-38 | A truthy `x-goog-api-key` wins, even when `authorization` is also present. Otherwise a truthy `authorization` whose first 7 characters lower-case to `bearer ` gives the rest of the original value. Otherwise there is no source and the raw value is `""`, both directions |
| Credentials.BearerInAnyCase | api/index.js:34-35 | any letter case of `bearer ` is accepted, and the key list is the value from index 7 on |
| Credentials.GoogKeyShadowsAuthorization | api/index.js:29-34 | with a truthy `x-goog-api-key`, the `authorization` value has no influence on the credential |
| Credentials.TrimAllAppend | api/index.js:42 | trimming distributes over list concatenation |
| Credentials.DropEmpty | api/index.js:42 | `.filter(k => k)` keeps only non-empty pieces, each taken from the input, and keeps every non-empty piece |
| Credentials.DropEmptyAppend | api/index.js:42 | filtering distributes over list concatenation |
| Credentials.ParseKeys | api/index.js:42 | every parsed key is non-empty, trimmed and comma-free |
| Credentials.CleanPieces | api/index.js:42 | trimming and filtering comma-free pieces leaves only clean keys |
| Credentials.ParseKeysCoversPieces | api/index.js:42 | every piece that does not trim to `""` shows up, trimmed, in the key list |
| Credentials.TrimKeepsCommaFree | api/index.js:42 | trimming never introduces a comma |
| Credentials.ParseKeysConcat | api/index.js:42 | a comma separates the key lists: `ParseKeys(a + "," + b) == ParseKeys(a) + ParseKeys(b)` (order is kept) |
| Credentials.ParseKeysSingle | api/index.js:42 | a clean key parses to the list with just that key |
| Credentials.ParseKeysOfPiece | api/index.js:42 | a comma-free value gives its trimmed self, or nothing when it trims to `""` |
| Credentials.ParseKeysCons | api/index.js:42 | a clean key in front of a comma is the head of the key list |
| Credentials.ParseKeysOfJoin | api/index.js:42 | round trip: a list of clean keys joined with commas parses back to that same list |
| Credentials.ParseKeysIdempotent | api/index.js:42 | re-joining the parsed keys and parsing again changes nothing |
| Credentials.ParseKeysPadded | api/index.js:42 | a key surrounded by blanks parses to just that key |
| Credentials.ParseKeysBlank | api/index.js:42 | a comma-free run of blanks yields no key |
| Credentials.ParseKeysExample | api/index.js:42 | `a, b ,c` gives `[a, b, c]` for any three clean keys |
| Credentials.ExampleTail | api/index.js:42 | ` b ,c` gives `[b, c]` |
| Credentials.PickIndex | api/index.js:44 | `Math.floor(u * n)` is a valid index for every `u` in `[0, 1)` |
| Credentials.PickIndexReaches | api/index.js:44 | every index is chosen for some random value |
| Credentials.SelectKey | api/index.js:40-47 | A key is selected exactly when there is a source and the list is non-empty. The selected key is a non-empty member of the list |
| Credentials.SelectKeyReaches | api/index.js:40-47 | every key of the list is selected for some random value |
| Credentials.SelectKeyAt | api/index.js:44 | the key selected is the list's element at the picked index |
| Credentials.SelectKeySingle | api/index.js:40-47 | a one-key list always yields that key |
| RequestHeaders.CredentialNamesOut | api/index.js:52-62 | the injected names are credential names, are not rewritten and are not hop-by-hop |
| RequestHeaders.ForwardHeaders | api/index.js:49-79 | No credential header is present except the one holding the selected key, in the source's form; when nothing is selected there is none. `host`, `origin` and `referer` are the upstream's. `x-forwarded-*` are the truthy inbound value or the fallback. No hop-by-hop header is present. Every other inbound header is passed through unchanged, and nothing else is added |
| RequestHeaders.BuildForwardHeaders | api/index.js:49-79 | the in-place construction builds exactly `ForwardHeaders` |
| RequestHeaders.CopyWithoutCredentials | api/index.js:49-55 | the copy loop keeps exactly the inbound headers whose lower-cased name is not a credential name |
| RequestHeaders.StripHopByHop | api/index.js:73-79 | the deletion loop removes exactly the eight hop-by-hop names |
| ResponseHeaders.RelayedKeys | api/index.js:91-96 | The relayed names are exactly the names of the upstream entries that are not excluded. No excluded name survives, in any letter case |
| ResponseHeaders.RelayedLast | api/index.js:92-95 | a kept name holds the value of the last entry with that name, as repeated object assignment does |
| ResponseHeaders.RelayedDistinct | api/index.js:91-96 | when names are distinct, every kept entry appears with its value unchanged |
| ResponseHeaders.CopyResponseHeaders | api/index.js:91-96 | the loop builds exactly `Relayed(entries)` |
| Handler.TargetUrl | api/index.js:12-15 | no target exactly for `/`; otherwise the target is the upstream URL followed verbatim by the request URL |
| Handler.TargetUrlInjective | api/index.js:15 | different request URLs go to different targets |
| Handler.DispatchFor | api/index.js:12-87 | `/` is answered with the fixed message. Any other URL is forwarded with the same method and the concatenated URL, and a body goes along exactly when the method is neither GET nor HEAD |
| Handler.PrepareRequest | api/index.js:11-87 | the handler's statements up to `fetch` produce exactly `DispatchFor` |
| Handler.ErrorReply | api/index.js:105-110 | a reply exists exactly when headers have not been sent, and it is a 502 with a message |
| Handler.Respond | api/index.js:89-110 | A failed `fetch` gives a 502. An answer gives the upstream status, the relayed headers, and the body piped or the response ended. A relay that fails after the head gets nothing more: no 502, an unfinished body |
| Handler.Handle | api/index.js:11-111 | The root path is answered without forwarding. Otherwise the request sent is `DispatchFor`'s, and the reply is a 502 or a relay of the upstream's status and filtered headers |
| Handler.GoogKeyListScenario | api/index.js:29-66 | `x-goog-api-key: k1,k2` forwards one of the two keys under `x-goog-api-key` and no authorization header |
| Handler.GoogCredential | api/index.js:29-42 | `k1,k2` in `x-goog-api-key` is a Google-header credential with keys `[k1, k2]` |
| Handler.NoAuthorizationFromGoog | api/index.js:49-63 | a Google-header credential never produces either spelling of the authorization header |
| Handler.BearerScenario | api/index.js:34-85 | `Bearer k1, k2` forwards `Authorization: Bearer k1` or `Bearer k2`, no `x-goog-api-key`, and a POST keeps its body |
| Handler.BearerCredential | api/index.js:34-42 | `Bearer k1, k2` is a bearer credential with keys `[k1, k2]` |
| Handler.BothHeadersScenario | api/index.js:29-55 | with both headers present, the Google header is the source and no authorization header is forwarded |
| Handler.EmptyGoogKeyShadowsBearer | api/index.js:29-64 | a truthy `x-goog-api-key` whose key list is empty is still the source, so no bearer key is used and no credential at all is forwarded |
| Handler.CommaBlanksShadowBearer | api/index.js:29-64 | one such value: a comma followed by blanks forwards no credential |
| Handler.ForwardedCredential | api/index.js:29-64 | for every request, an outbound `x-goog-api-key` means the inbound source was that header and its value is one of the parsed keys; an outbound `Authorization` means the source was a bearer header and its value is `Bearer ` plus one of the parsed keys |
| Handler.NoCredentialScenario | api/index.js:40-64 | with no credential header, none is forwarded |
| Handler.SingleKeyDeterministic | api/index.js:44 | with at most one key the outbound request does not depend on the random value |

## Left out

- Express itself is not modelled: the app setup, route registration, and the `res.send`, `res.writeHead` and `res.status` calls. The model returns the decided status, headers and body instead.
- `fetch`, `duplex: 'half'`, the request stream as body, and `Readable.fromWeb(...).pipe(res)` are network I/O and streaming. They become the `Exchange` input and the `BodyRelay` outcome.
- All `console.log` and `console.error` output is left out; it does not affect behaviour.
- `Math.random()` is a double in the source. Here it is an exact real `u` in `[0, 1)`, and `Math.floor(u * n)` is taken exactly, with no floating-point rounding.
- `Lower`: only the ASCII letters are lowered, whereas `toLowerCase` also lowers other scripts. This is exact for the names compared in the source, because the names the lowered text is compared with (`bearer `, `x-goog-api-key`, `authorization` and the excluded response names) are all ASCII. The one gap is a non-ASCII letter whose lower case is an ASCII letter, such as the Kelvin sign.
- Header values are single strings. Node's array-valued headers are not modelled, nor is the `String(...)` of such an array.
- Inbound header names are arbitrary strings. Node lower-cases them, so the model is more general than the runtime.
- JavaScript object key order, and special keys such as `__proto__`, are not modelled. Headers are a map.
- `req.socket.remoteAddress` is taken as a string. The case where the socket has no address, which makes `x-forwarded-for` `undefined`, is not modelled.
- Concurrency between requests is left out: the handler has no shared mutable state.
- The unhandled `'error'` event of a relay that fails partway is not modelled beyond leaving the reply `Unfinished`; in Node such an event can end the process.

## Quirks of the code the model keeps

- An empty header counts as absent: the presence tests are JavaScript truthiness (api/index.js:29, 34, 70-71).
- A truthy `x-goog-api-key` is the source even when it yields no key, so a bearer key beside it is ignored (api/index.js:29-43).
- The keys are an ordered list with duplicates, not a set (api/index.js:42).
- The bearer prefix is tested case-insensitively, but the keys are taken from the original value from index 7 on (api/index.js:34-35).
- The key is injected as `Authorization` with a capital A, while the removal compares lower-cased names (api/index.js:51-52, 62).
- The hop-by-hop deletion compares exact names, while the credential removal compares lower-cased names (api/index.js:51-52, 77-79).
- The upstream is a hard-coded constant, not a setting (api/index.js:7-9).
- `pipe` returns at once, so the `try` block is over before the body is relayed (api/index.js:100-101). An upstream body that fails partway through the pipe is an unhandled stream error the handler never catches, and nothing ends the response. The `headersSent` test only matters for an error thrown synchronously after `writeHead` (api/index.js:97, 107).
