# Static asset responder: a Dafny model of its request resolver

The repository is a single Bun HTTP handler that serves a pre-built
single-page application from its `dist` directory, whose asset paths it
collects at start-up; each found asset is streamed from disk. For each request, `fetch` runs a fixed sequence of steps:

1. Reject any method other than GET.
2. Sanitise the `Accept-Encoding` header.
3. Find the extension, with an implicit `index.html` for extension-less paths.
4. Look up the content type.
5. Reroute to `/index.html` in SPA mode.
6. Prefer a pre-compressed `.br` or `.gz` variant.
7. Choose a cache policy.
8. Check the asset set and answer 200 or 404.

This project models that resolver and the extension-to-content-type table.
It proves what the handler promises about the response it builds.

Modules:

- `Server` holds the handler itself. `Server.Fetch` is an imperative method:
  - it mirrors the source step by step;
  - its local header map is reassigned as the source assigns properties;
  - the locals for extension, file path and encoding are reassigned in the same order.

  It is proved against the relational specification `Server.Answers`, which
  is built from small specification functions: `Extension`, `RequestPath`,
  `ServedBase`, `Encoding`, `Cacheable` and `Dispatches`. The lemmas in the
  module state the properties of that specification.
- `NodePath` models `path.extname` of Node's POSIX path module. Like Node, it
  scans indices from the right: trailing separators are skipped, the last
  segment is found, and its last dot is taken. A last segment whose only dot
  is its first character, such as `.env`, has no extension, and neither has `..`.
- `MimeTable` is the 16-entry table and the lookup with the
  `application/octet-stream` default.
- `AcceptEncoding` is the regular-expression character filter applied to the header.
- `Strings` holds ASCII lower-casing, `endsWith` and `includes`.
- `ServerScenarios` states concrete behaviours for whole families of requests:
  - Brotli is preferred;
  - gzip is used when it is the only accepted encoding;
  - SPA fallback;
  - the service-worker cache exemption;
  - directory indexes with and without a trailing `/`;
  - dotted directory names;
  - missing assets.

Inputs that the source reads from its environment are parameters here:

- the request method, pathname and optional `Accept-Encoding` value;
- the `SPA` switch, as a `bool`;
- the set of asset paths, as a `set<string>`.

A response is a descriptor with three parts: the status, a map from the
three header names the handler sets to their values, and the asset path
streamed as the body (200 only).

Behaviours the model makes explicit:

- A pathname that ends in `/` and whose last segment has a dot, such as `/v1.2/`, has a
  non-empty extension (`.2`). `path.extname` ignores the trailing separator.
  Such a request is therefore looked up as it is and is never resolved to
  `/v1.2/index.html`. This is `NodePath.ExtnameOfDottedDirectory` together with
  `ServerScenarios.DottedDirectoryNotIndexed`.
- The cache exemption applies to every path ending in `sw.js`, such as `/my-sw.js`, not
  only to `/sw.js` (`Server.ServiceWorkerNeverCached`).
- The encoding tests are substring tests on the sanitised header. Deleting
  characters can therefore join tokens that were apart: `b<r` is read as
  accepting Brotli (`AcceptEncoding.SanitiseJoinsAcrossRemoved`).

## Model

| member | source | states |
|---|---|---|
| Server.Fetch | app-bun.js:35-87 | the handler returns 200, 404 or 405, and its response satisfies `Answers`: a bare 405 for any non-GET; for a GET the content type of the lower-cased extension, the SPA reroute, the preferred pre-compressed variant, the cache policy, and 200 with exactly that asset or a bare 404 |
| Server.Answers | app-bun.js:35-87 | the handler's whole promise for one request; its properties are stated by `Server.Fetch`, `Server.NonGetIsRejected`, `Server.GetStatus` and `Server.AnswerIsUnique` |
| Server.Dispatches | app-bun.js:82-85 | the last step of a GET: stream the chosen variant with its headers if it is an asset, else a bare 404; its content is stated by `Server.GetStatus`, `Server.DispatchHeaders` and `Server.FoundDispatches` |
| Server.Bare | app-bun.js:36-85 | a response with an empty body and no headers, as for the 405 and the 404; used by `Server.NonGetIsRejected` and `Server.GetStatus` |
| Server.NonGetIsRejected | app-bun.js:36 | whatever the path, header, switch or assets, a non-GET request is answered by exactly the bare 405 (no headers, no body) |
| Server.GetStatus | app-bun.js:82-85 | a GET is 200 exactly when the served path plus the chosen encoding suffix is an asset, the response then streams exactly that asset, and any other GET is a bare 404 |
| Server.AnswerIsUnique | app-bun.js:35-87 | the promise determines the response completely: two responses to the same request over the same assets are equal |
| Server.DispatchHeaders | app-bun.js:55-83 | a found asset carries exactly the content type, the encoding of its variant and, when cacheable, the immutable policy, and no other header |
| Server.FoundDispatches | app-bun.js:82-83 | streaming the present variant with exactly those headers meets the 200 case of the promise |
| Server.IndexPath | app-bun.js:48 | the implicit index of a pathname; its shape is stated by `Server.IndexPathShape`, `Server.IndexPathNoDoubledSlash` and `Server.ExtnameOfIndexPath` |
| Server.Extension | app-bun.js:45-49 | the lower-cased extension, `.html` for a pathname without one; stated by `Server.ImplicitIndexIsExplicit`, `Server.EntryIsHtml` and `ServerScenarios.ScriptUnder` |
| Server.RequestPath | app-bun.js:45-51 | the asset path before the SPA reroute: the implicit index when there is no extension, else the pathname; stated by `Server.ImplicitIndexIsExplicit` and `Server.SpaReroute` |
| Server.ServedBase | app-bun.js:58 | the asset path after the SPA reroute; stated by `Server.SpaReroute` |
| Server.Cacheable | app-bun.js:74-78 | the long-lived cache policy applies; stated by `Server.ServiceWorkerNeverCached`, `Server.DispatchHeaders` and `ServerScenarios.ScriptCachePolicy` |
| Server.IndexPathShape | app-bun.js:48 | the implicit index extends the pathname, ends in `/index.html`, and is 10 characters longer when the pathname ends in `/`, 11 otherwise |
| Server.IndexPathNoDoubledSlash | app-bun.js:48 | the implicit index never has two adjacent `/` unless the pathname already had them |
| Server.ExtnameOfIndexPath | app-bun.js:47-49 | the implicit index of any pathname has the extension `.html`, matching the forced `ext_name` |
| Server.ImplicitIndexIsExplicit | app-bun.js:45-51 | a pathname without extension is handled as `.html`, under the same asset path and served path as its implicit `index.html` |
| Server.ImplicitIndexAnswersAlike | app-bun.js:45-51 | a pathname without extension is answered exactly as its implicit `index.html` would be |
| Server.SpaReroute | app-bun.js:58 | with the switch on, a request handled as `.html` is served from exactly `/index.html`; any other request, and every request with the switch off, keeps its path |
| Server.SpaAnswersAlike | app-bun.js:58 | with the switch on, any two requests handled as `.html` get the same answer |
| Server.SpaAnswersAsEntry | app-bun.js:58 | with the switch on, every request handled as `.html` is answered as `/index.html` itself |
| Server.EntryIsHtml | app-bun.js:58 | the SPA entry point `/index.html` is itself handled as `.html` |
| Server.SanitisedHeader | app-bun.js:42 | the optional `Accept-Encoding` value after the filter; an absent header stays absent; stated by `AcceptEncoding.Sanitise` and the lemmas beside it |
| Server.Accepts | app-bun.js:63-67 | the sanitised header is present and contains the token as a substring; stated by `Strings.IncludesIff`, `ServerScenarios.BrAndGzipHeader` and `ServerScenarios.GzipOnlyHeader` |
| Server.EncodedHeaders | app-bun.js:55-69 | the header map after the content type and the encoding steps; stated by `Server.DispatchHeaders` and `ServerScenarios.SpaFallback` |
| Server.FoundHeaders | app-bun.js:55-79 | the complete header map of a found asset; stated by `Server.DispatchHeaders` and `Server.FoundDispatches` |
| Server.Encoding | app-bun.js:61-71 | the suffix is empty, `.br` or `.gz`; it is non-empty only for `.html`, `.js` or `.css` and only when that variant is present; `.br` is chosen exactly when Brotli is accepted and its variant present; `.gz` only when gzip is accepted; an empty suffix for a compressible extension means neither variant was both accepted and present |
| Server.ServiceWorkerNeverCached | app-bun.js:77 | for every prefix, the path `prefix + "sw.js"` never gets the long-lived cache policy, whatever its content type |
| NodePath.Extname | app-bun.js:45 | `path.extname` of Node's POSIX path module; its behaviour is stated by the `NodePath.Extname*` lemmas below |
| NodePath.TrimmedEnd | app-bun.js:45 | the end of the path once trailing `/` are skipped: every skipped character is a `/` and the new last character is not |
| NodePath.SegmentStart | app-bun.js:45 | the start of the last segment: just after a `/`, with no `/` inside the segment |
| NodePath.LastDot | app-bun.js:45 | the index of the last `.` in the segment, or one before the segment when there is none |
| NodePath.ExtnameShape | app-bun.js:45 | `path.extname` returns either nothing, or a `.` followed by neither another `.` nor a `/` |
| NodePath.ExtnameEndsBaseName | app-bun.js:45 | the extension is a suffix of the last path segment, after trailing separators are skipped |
| NodePath.ExtnameEmptyIff | app-bun.js:45 | the extension is empty exactly when the last segment has no dot after its first character, or is `..` |
| NodePath.ExtnameIgnoresTrailingSlash | app-bun.js:45 | appending a `/` to a pathname does not change its extension |
| NodePath.ExtnameOfFile | app-bun.js:45 | `dir/stem.ext` has the extension `.ext` under any directory |
| NodePath.ExtnameOfPlainName | app-bun.js:45-47 | a last segment with no dot after its first character (`docs`, `.env`) gives no extension, so an implicit index is used |
| NodePath.ExtnameOfDottedDirectory | app-bun.js:45-47 | `dir/stem.ext/` keeps the extension `.ext`, so it gets no implicit index |
| NodePath.ExtnameOfIndexFile | app-bun.js:45 | `dir/index.html` has the extension `.html` |
| NodePath.ScanAgrees | app-bun.js:45 | the extension scan of the first `n` characters looks at nothing beyond them |
| Strings.ToLower | app-bun.js:45 | ASCII `toLowerCase`; stated by `Strings.ToLowerAt`, `Strings.ToLowerIdempotent` and `Strings.ToLowerOfLower` |
| Strings.LowerChar | app-bun.js:45 | one character lower-cased: an upper-case ASCII letter becomes its own lower-case letter (the code point moves by `'a' - 'A'`), the result is never upper-case, and any other character is kept |
| Strings.EndsWith | app-bun.js:47-77 | JavaScript's `endsWith`, the reference definition used by `Server.IndexPathShape` and `Server.ServiceWorkerNeverCached` |
| Strings.Includes | app-bun.js:63-67 | JavaScript's `includes`; stated by `Strings.IncludesIff` |
| Strings.ToLowerAt | app-bun.js:45 | lower-casing keeps the length and lower-cases each character independently |
| Strings.ToLowerIdempotent | app-bun.js:45 | lower-casing an extension twice changes nothing |
| Strings.ToLowerOfLower | app-bun.js:45 | lower-casing leaves text without upper-case letters unchanged |
| Strings.IncludesIff | app-bun.js:63-67 | `includes` holds exactly when the token occurs at some index of the header |
| MimeTable.ContentTypeOf | app-bun.js:14-54 | the content type is the table's entry for a listed extension, and `application/octet-stream` exactly for the extensions the table does not list |
| MimeTable.ContentTypeIsListed | app-bun.js:54 | every content type served is a value of the table or the default |
| MimeTable.HtmlTypeIff | app-bun.js:54-58 | only `.html` is served as `text/html`, so only `.html` requests are SPA-rerouted |
| MimeTable.KeysAreLowerCaseExtensions | app-bun.js:14-31 | every key of the table is a `.` followed by text without upper-case letters |
| MimeTable.KeysAreFixedByToLower | app-bun.js:14-45 | lower-casing leaves every key unchanged, so every key can be reached by the lookup of a lower-cased extension |
| MimeTable.LookupIgnoresCase | app-bun.js:45-54 | an extension spelled as a key with any of its letters in upper case lower-cases to that key and gets that key's content type |
| MimeTable.UpperCaseHtml | app-bun.js:45-54 | `.HTML` is served as `text/html` |
| AcceptEncoding.IsAllowed | app-bun.js:42 | the character class the filter keeps; stated by `AcceptEncoding.Sanitise` and `AcceptEncoding.SanitiseFixpointIff` |
| AcceptEncoding.Sanitise | app-bun.js:42 | the sanitised header holds only letters, digits, space and `"#$%&'()*+,-./:;=?@[]_`, and is no longer than the header |
| AcceptEncoding.SanitiseAppend | app-bun.js:42 | the filter works character by character: it distributes over concatenation |
| AcceptEncoding.SanitiseFixpointIff | app-bun.js:42 | the filter leaves a header unchanged exactly when every character is allowed |
| AcceptEncoding.SanitiseIdempotent | app-bun.js:42 | re-sanitising a sanitised header changes nothing |
| AcceptEncoding.SanitiseChar | app-bun.js:42 | a single character is kept exactly when it is allowed, and deleted otherwise |
| AcceptEncoding.SanitiseDeletes | app-bun.js:42 | a disallowed character is deleted, not replaced: the text on both sides of it is joined |
| AcceptEncoding.SanitiseJoinsAcrossRemoved | app-bun.js:42-63 | deleting characters can join tokens: `b<r` becomes `br` |
| ServerScenarios.CleanHeader | app-bun.js:42 | a header made only of allowed characters passes the filter unchanged |
| ServerScenarios.BrAndGzipHeader | app-bun.js:42-67 | the header `br, gzip` passes the filter unchanged and names both encodings |
| ServerScenarios.GzipOnlyHeader | app-bun.js:42-67 | the header `gzip` passes the filter unchanged, names gzip and does not name Brotli |
| ServerScenarios.ScriptServedAsItself | app-bun.js:51-58 | a request handled as `.js` has a non-empty extension and is served under its own path, with the SPA switch on or off |
| ServerScenarios.ScriptUnder | app-bun.js:45-51 | `dir/stem.js` is handled as `.js` under its own path |
| ServerScenarios.BrotliPreferred | app-bun.js:62-79 | for a script whose path does not end in `sw.js`, with both variants present and `br, gzip` accepted, the `.br` variant is streamed with exactly `Content-Type: text/javascript`, `Content-Encoding: br` and the immutable policy |
| ServerScenarios.GzipWhenOnlyGzipAccepted | app-bun.js:62-79 | for a script whose path does not end in `sw.js`, with its `.gz` variant present and only `gzip` accepted, the `.gz` variant is streamed with exactly `Content-Type: text/javascript`, `Content-Encoding: gzip` and the immutable policy, even if a `.br` variant exists |
| ServerScenarios.HtmlAnswer | app-bun.js:54-74 | a present `.html` asset that is served under its own path and requested without `Accept-Encoding` is streamed as itself with only `Content-Type: text/html` |
| ServerScenarios.SpaFallback | app-bun.js:47-85 | with the switch on, any GET handled as `.html`, including any route without an extension, is answered from `/index.html` plus the encoding suffix chosen for it under any `Accept-Encoding`: 200 exactly when that variant is an asset, streaming it with `Content-Type: text/html`, the matching `Content-Encoding` and no cache policy; otherwise a bare 404 |
| ServerScenarios.ScriptCachePolicy | app-bun.js:74-79 | a present script requested without `Accept-Encoding` and with the switch off is found, and gets the immutable cache policy exactly when its path does not end in `sw.js` |
| ServerScenarios.DirectoryIndex | app-bun.js:47-48 | `dir` and `dir/` get identical answers |
| ServerScenarios.DottedDirectoryNotIndexed | app-bun.js:45-85 | with the SPA switch on or off, a pathname ending in `/` with a non-compressible extension is served under its own path, and gets a bare 404 when no asset path ends in `/` |
| ServerScenarios.MissingAsset | app-bun.js:82-85 | a request whose served path begins no asset's path is a bare 404 |

## Left out

- Building the asset set (app-bun.js:1-12) is left out. It is a recursive `readdir` of `dist` at start-up. The set is a parameter; the model assumes nothing about it, except where a lemma says so.
- `new URL(encodeURI(request.url))` (app-bun.js:41) is left out. The pathname is an input string. `encodeURI` is what makes the pathname ASCII, which the lower-casing below relies on.
- Lower-casing (app-bun.js:45) is ASCII only. JavaScript's `toLowerCase` is full Unicode, but a pathname that has passed through `encodeURI` is ASCII, so the two agree on every pathname the handler sees.
- Strings are sequences of `char`, not UTF-16 code units. This does not matter for ASCII pathnames or for the header tests.
- `Bun.file` streaming and the `Response` constructor (app-bun.js:83, 85) become a descriptor: the status, the headers the handler sets, and the asset path. Headers the runtime adds by itself are not modelled. An example is the default `Content-Type` of a `""` body on a 405 or 404.
- `process.env.PORT` (app-bun.js:34) is not modelled. `process.env.SPA === "true"` (app-bun.js:58) is the `bool` parameter `spa`.
- The `async` handler and concurrent requests are not modelled. The handler shares no mutable state across requests, so nothing depends on the interleaving.
