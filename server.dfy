/**
 * The request handler of the static-asset server. A request's method,
 * pathname and `Accept-Encoding` header, the single-page-application switch
 * and the set of built asset paths are turned into a response descriptor:
 * a status (200, 404 or 405), the response headers and the asset to stream.
 *
 * The handler works in a fixed order: method gate, header sanitisation,
 * extension detection with implicit `index.html`, content type, SPA reroute,
 * pre-compressed variant, cache policy, existence check.
 */
module Server {
  import opened Wrappers
  import opened Strings
  import opened NodePath
  import opened MimeTable
  import opened AcceptEncoding

  /** The response headers the handler sets. */
  datatype Header = ContentType | ContentEncoding | CacheControl

  const IMMUTABLE := "public, max-age=31536000, immutable"
  const SPA_ENTRY := "/index.html"
  /** The extensions whose `.br` and `.gz` siblings may be served instead. */
  const COMPRESSIBLE: set<string> := {".html", ".js", ".css"}

  /** A response: its status, its headers and the asset path streamed as body (200 only). */
  datatype Response = Response(status: int, headers: map<Header, string>, file: Option<string>)

  /** A response with an empty body and no headers. */
  function Bare(status: int): Response {
    Response(status, map[], None)
  }

  /**
   * The implicit index of a pathname without extension: `index.html` inside
   * the directory it names. Exactly one `/` separates the two, whether or not
   * the pathname already ends in one.
   */
  function IndexPath(pathname: string): string {
    if EndsWith(pathname, "/") then pathname + "index.html" else pathname + "/index.html"
  }

  /**
   * The implicit index extends the pathname, ends in `/index.html`, and adds
   * 10 characters when the pathname already ends in `/`, 11 otherwise.
   */
  lemma IndexPathShape(pathname: string)
    ensures EndsWith(IndexPath(pathname), "/index.html")
    ensures |pathname| <= |IndexPath(pathname)| && IndexPath(pathname)[..|pathname|] == pathname
    ensures |IndexPath(pathname)| == |pathname| + (if EndsWith(pathname, "/") then 10 else 11)
  {
    var r := IndexPath(pathname);
    if EndsWith(pathname, "/") {
      assert pathname == pathname[..|pathname| - 1] + "/";
      assert r[|r| - 11..] == "/index.html";
    }
  }

  /** The lower-cased extension the request is handled under; `.html` for an index request. */
  function Extension(pathname: string): string {
    var ext := ToLower(Extname(pathname));
    if ext == "" then ".html" else ext
  }

  /** The asset path the pathname names, before the SPA reroute. */
  function RequestPath(pathname: string): string {
    if Extname(pathname) == "" then IndexPath(pathname) else pathname
  }

  /** The asset path after the SPA reroute, before any encoding suffix. */
  function ServedBase(pathname: string, spa: bool): string {
    if spa && ContentTypeOf(Extension(pathname)) == "text/html" then SPA_ENTRY else RequestPath(pathname)
  }

  /** The sanitised header; an absent header stays absent. */
  function SanitisedHeader(header: Option<string>): Option<string> {
    if header.Some? then Some(Sanitise(header.value)) else None
  }

  /** The (sanitised) header is present and contains `token` as a substring. */
  predicate Accepts(accepted: Option<string>, token: string) {
    accepted.Some? && Includes(accepted.value, token)
  }

  /**
   * The encoding suffix appended to the served path: a pre-compressed
   * variant is chosen only for a compressible extension, only when accepted
   * and present, and Brotli wins over gzip.
   */
  function Encoding(ext: string, accepted: Option<string>, base: string, files: set<string>): (suffix: string)
    ensures suffix == "" || suffix == ".br" || suffix == ".gz"
    ensures suffix != "" ==> ext in COMPRESSIBLE && base + suffix in files
    ensures suffix == ".br" <==> ext in COMPRESSIBLE && Accepts(accepted, "br") && base + ".br" in files
    ensures suffix == ".gz" ==> Accepts(accepted, "gzip")
    ensures suffix == "" && ext in COMPRESSIBLE ==>
              !(Accepts(accepted, "br") && base + ".br" in files) &&
              !(Accepts(accepted, "gzip") && base + ".gz" in files)
  {
    if ext !in COMPRESSIBLE then ""
    else if Accepts(accepted, "br") && base + ".br" in files then ".br"
    else if Accepts(accepted, "gzip") && base + ".gz" in files then ".gz"
    else ""
  }

  /** The long-lived immutable cache policy applies: not a document, manifest or service worker. */
  predicate Cacheable(contentType: string, path: string) {
    && contentType != "text/html"
    && contentType != "application/manifest+json"
    && contentType != "text/markdown"
    && !EndsWith(path, "sw.js")
  }

  /**
   * What the handler promises for one request. A non-GET request gets a bare
   * 405. A GET request is answered 200 exactly when the chosen variant of
   * the served path is an asset; the response then streams exactly that
   * asset, with its content type, the encoding of the variant (if any) and
   * the cache policy, and no other header. Any other GET gets a bare 404.
   */
  predicate Answers(resp: Response, httpMethod: string, pathname: string,
                    acceptEncoding: Option<string>, spa: bool, files: set<string>)
  {
    if httpMethod != "GET" then
      resp == Bare(405)
    else
      var ext := Extension(pathname);
      var base := ServedBase(pathname, spa);
      Dispatches(resp, ContentTypeOf(ext), base, Encoding(ext, SanitisedHeader(acceptEncoding), base, files), files)
  }

  /**
   * The last step of a GET: the asset `base + suffix` is streamed with its
   * headers when it exists, and a bare 404 is returned otherwise.
   */
  predicate Dispatches(resp: Response, contentType: string, base: string, suffix: string, files: set<string>) {
    if base + suffix in files then
      && resp.status == 200
      && resp.file == Some(base + suffix)
      && ContentType in resp.headers && resp.headers[ContentType] == contentType
      && (ContentEncoding in resp.headers <==> suffix != "")
      && (suffix == ".br" ==> resp.headers[ContentEncoding] == "br")
      && (suffix == ".gz" ==> resp.headers[ContentEncoding] == "gzip")
      && (CacheControl in resp.headers <==> Cacheable(contentType, base))
      && (CacheControl in resp.headers ==> resp.headers[CacheControl] == IMMUTABLE)
    else
      resp == Bare(404)
  }

  /** Lemma helper: a GET is answered by dispatching on its extension, served path and suffix. */
  lemma AnswersByParts(resp: Response, pathname: string, acceptEncoding: Option<string>, spa: bool,
                       files: set<string>, ext: string, base: string, suffix: string)
    requires Extension(pathname) == ext && ServedBase(pathname, spa) == base
    requires Encoding(ext, SanitisedHeader(acceptEncoding), base, files) == suffix
    ensures Answers(resp, "GET", pathname, acceptEncoding, spa, files) <==>
            Dispatches(resp, ContentTypeOf(ext), base, suffix, files)
  {
  }

  /** Any method other than GET gets a bare 405, whatever the path, header, switch or assets. */
  lemma NonGetIsRejected(resp: Response, httpMethod: string, pathname: string,
                         acceptEncoding: Option<string>, spa: bool, files: set<string>)
    requires httpMethod != "GET"
    ensures Answers(resp, httpMethod, pathname, acceptEncoding, spa, files) <==> resp == Bare(405)
  {
  }

  /**
   * A GET is answered 200 exactly when the chosen variant of the served path
   * is an asset, and then streams exactly that asset; otherwise it is a bare 404.
   */
  lemma GetStatus(resp: Response, pathname: string, acceptEncoding: Option<string>, spa: bool, files: set<string>)
    requires Answers(resp, "GET", pathname, acceptEncoding, spa, files)
    ensures var ext := Extension(pathname);
            var base := ServedBase(pathname, spa);
            var variant := base + Encoding(ext, SanitisedHeader(acceptEncoding), base, files);
            && (resp.status == 200 <==> variant in files)
            && (resp.status == 200 ==> resp.file == Some(variant))
            && (resp.status != 200 ==> resp == Bare(404))
  {
  }

  /**
   * The handler: the fixed sequence of steps, building the response headers
   * one assignment at a time.
   */
  method Fetch(httpMethod: string, pathname: string, acceptEncoding: Option<string>, spa: bool, files: set<string>)
    returns (resp: Response)
    ensures resp.status == 200 || resp.status == 404 || resp.status == 405
    ensures Answers(resp, httpMethod, pathname, acceptEncoding, spa, files)
  {
    if httpMethod != "GET" {
      return Bare(405);
    }

    var headers: map<Header, string> := map[];

    var accepted := if acceptEncoding.Some? then Some(Sanitise(acceptEncoding.value)) else None;
    assert accepted == SanitisedHeader(acceptEncoding);

    var ext := ToLower(Extname(pathname));
    var filePath: string;
    if ext == "" {
      filePath := if EndsWith(pathname, "/") then pathname + "index.html" else pathname + "/index.html";
      ext := ".html";
    } else {
      filePath := pathname;
    }

    var contentType := ContentTypeOf(ext);
    headers := headers[ContentType := contentType];
    assert headers == map[ContentType := contentType];

    if spa && contentType == "text/html" {
      filePath := SPA_ENTRY;
    }
    assert ext == Extension(pathname) && filePath == ServedBase(pathname, spa);

    var encoding := "";
    if ext in COMPRESSIBLE {
      if accepted.Some? && Includes(accepted.value, "br") && filePath + ".br" in files {
        encoding := ".br";
        headers := headers[ContentEncoding := "br"];
      } else if accepted.Some? && Includes(accepted.value, "gzip") && filePath + ".gz" in files {
        encoding := ".gz";
        headers := headers[ContentEncoding := "gzip"];
      }
    }
    assert encoding == Encoding(ext, SanitisedHeader(acceptEncoding), filePath, files);
    assert headers == EncodedHeaders(contentType, encoding);

    if && contentType != "text/html"
       && contentType != "application/manifest+json"
       && contentType != "text/markdown"
       && !EndsWith(filePath, "sw.js")
    {
      headers := headers[CacheControl := IMMUTABLE];
    }
    assert headers == FoundHeaders(contentType, filePath, encoding);

    if filePath + encoding in files {
      resp := Response(200, headers, Some(filePath + encoding));
    } else {
      resp := Bare(404);
    }
    GetAnswered(resp, pathname, acceptEncoding, spa, files, ext, filePath, encoding);
  }

  /**
   * Lemma helper: streaming the present variant with its headers, or a bare
   * 404 when it is absent, keeps the promise for a GET.
   */
  lemma GetAnswered(resp: Response, pathname: string, acceptEncoding: Option<string>, spa: bool,
                    files: set<string>, ext: string, base: string, suffix: string)
    requires Extension(pathname) == ext && ServedBase(pathname, spa) == base
    requires Encoding(ext, SanitisedHeader(acceptEncoding), base, files) == suffix
    requires resp == if base + suffix in files
                     then Response(200, FoundHeaders(ContentTypeOf(ext), base, suffix), Some(base + suffix))
                     else Bare(404)
    ensures Answers(resp, "GET", pathname, acceptEncoding, spa, files)
  {
    if base + suffix in files {
      FoundDispatches(ContentTypeOf(ext), base, suffix, files);
    }
    AnswersByParts(resp, pathname, acceptEncoding, spa, files, ext, base, suffix);
  }

  /** No two neighbouring characters of `s` are both `/`. */
  predicate NoDoubledSlash(s: string) {
    forall i :: 0 <= i < |s| - 1 ==> s[i] != '/' || s[i + 1] != '/'
  }

  /** The implicit index never introduces a `//` that the pathname did not have. */
  lemma IndexPathNoDoubledSlash(pathname: string)
    requires NoDoubledSlash(pathname)
    ensures NoDoubledSlash(IndexPath(pathname))
  {
    var r := IndexPath(pathname);
    var slashed := EndsWith(pathname, "/");
    var tail := if slashed then "index.html" else "/index.html";
    assert r == pathname + tail;
    forall i | 0 <= i < |r| - 1
      ensures r[i] != '/' || r[i + 1] != '/'
    {
      if i + 1 < |pathname| {
        assert r[i] == pathname[i] && r[i + 1] == pathname[i + 1];
      } else if i + 1 == |pathname| {
        assert r[i] == pathname[i] && r[i + 1] == tail[0];
        if !slashed {
          assert pathname[i..] == [pathname[i]];
        }
      } else {
        assert r[i + 1] == tail[i + 1 - |pathname|];
      }
    }
  }

  /** The implicit index of any pathname is handled as an `.html` file. */
  lemma ExtnameOfIndexPath(pathname: string)
    ensures Extname(IndexPath(pathname)) == ".html"
  {
    if EndsWith(pathname, "/") {
      var dir := pathname[..|pathname| - 1];
      assert IndexPath(pathname) == dir + "/index.html";
      ExtnameOfIndexFile(dir);
    } else {
      ExtnameOfIndexFile(pathname);
    }
  }

  /**
   * Asking for a directory and asking for its `index.html` are the same
   * request: same extension, same asset path, same served path.
   */
  lemma ImplicitIndexIsExplicit(pathname: string, spa: bool)
    requires Extname(pathname) == ""
    ensures Extension(pathname) == Extension(IndexPath(pathname)) == ".html"
    ensures RequestPath(IndexPath(pathname)) == RequestPath(pathname) == IndexPath(pathname)
    ensures ServedBase(IndexPath(pathname), spa) == ServedBase(pathname, spa)
  {
    ExtnameOfIndexPath(pathname);
    KeysAreFixedByToLower(".html");
  }

  /**
   * With the SPA switch on, every request handled as `.html` is served from
   * `/index.html` and every other request keeps its path; with it off, no
   * request is rerouted.
   */
  lemma SpaReroute(pathname: string, spa: bool)
    ensures spa && Extension(pathname) == ".html" ==> ServedBase(pathname, spa) == SPA_ENTRY
    ensures !(spa && Extension(pathname) == ".html") ==> ServedBase(pathname, spa) == RequestPath(pathname)
  {
    HtmlTypeIff(Extension(pathname));
  }

  /** Any path ending in `sw.js` (not only `/sw.js`) is exempt from the long-lived cache policy. */
  lemma ServiceWorkerNeverCached(contentType: string, prefix: string)
    ensures !Cacheable(contentType, prefix + "sw.js")
  {
    var p := prefix + "sw.js";
    assert p[|p| - 5..] == "sw.js";
  }

  /**
   * The promise pins the response down completely: resolving the same
   * request twice against the same assets gives identical descriptors.
   */
  lemma AnswerIsUnique(a: Response, b: Response, httpMethod: string, pathname: string,
                       acceptEncoding: Option<string>, spa: bool, files: set<string>)
    requires Answers(a, httpMethod, pathname, acceptEncoding, spa, files)
    requires Answers(b, httpMethod, pathname, acceptEncoding, spa, files)
    ensures a == b
  {
    if httpMethod == "GET" {
      var ext := Extension(pathname);
      var base := ServedBase(pathname, spa);
      var suffix := Encoding(ext, SanitisedHeader(acceptEncoding), base, files);
      DispatchIsUnique(a, b, ContentTypeOf(ext), base, suffix, files);
    }
  }

  /** The headers of a found asset: its content type, the encoding of its variant, the cache policy. */
  function FoundHeaders(contentType: string, base: string, suffix: string): map<Header, string> {
    var encoded := EncodedHeaders(contentType, suffix);
    if Cacheable(contentType, base) then encoded[CacheControl := IMMUTABLE] else encoded
  }

  /** The content type, and the encoding of a pre-compressed variant. */
  function EncodedHeaders(contentType: string, suffix: string): map<Header, string> {
    var typed := map[ContentType := contentType];
    if suffix == ".br" then typed[ContentEncoding := "br"]
    else if suffix == ".gz" then typed[ContentEncoding := "gzip"] else typed
  }

  /** A found asset carries exactly the headers its content type, suffix and path call for. */
  lemma DispatchHeaders(resp: Response, contentType: string, base: string, suffix: string, files: set<string>)
    requires suffix == "" || suffix == ".br" || suffix == ".gz"
    requires base + suffix in files
    requires Dispatches(resp, contentType, base, suffix, files)
    ensures resp.headers == FoundHeaders(contentType, base, suffix)
  {
    var expected := FoundHeaders(contentType, base, suffix);
    forall h: Header
      ensures h in resp.headers <==> h in expected
      ensures h in resp.headers ==> resp.headers[h] == expected[h]
    {
      match h
      case ContentType =>
      case ContentEncoding =>
      case CacheControl =>
    }
    assert resp.headers == expected;
  }

  /** Streaming a present variant with those headers is a dispatch that keeps the promise. */
  lemma FoundDispatches(contentType: string, base: string, suffix: string, files: set<string>)
    requires suffix == "" || suffix == ".br" || suffix == ".gz"
    requires base + suffix in files
    ensures Dispatches(Response(200, FoundHeaders(contentType, base, suffix), Some(base + suffix)),
                       contentType, base, suffix, files)
  {
  }

  /** Lemma helper: the dispatch step has one outcome. */
  lemma DispatchIsUnique(a: Response, b: Response, contentType: string, base: string, suffix: string, files: set<string>)
    requires suffix == "" || suffix == ".br" || suffix == ".gz"
    requires Dispatches(a, contentType, base, suffix, files)
    requires Dispatches(b, contentType, base, suffix, files)
    ensures a == b
  {
    if base + suffix in files {
      forall h: Header
        ensures h in a.headers <==> h in b.headers
        ensures h in a.headers ==> a.headers[h] == b.headers[h]
      {
        match h
        case ContentType =>
        case ContentEncoding =>
        case CacheControl =>
      }
      assert a.headers == b.headers;
    }
  }

  /** A pathname without extension is answered exactly as its implicit `index.html`. */
  lemma ImplicitIndexAnswersAlike(resp: Response, httpMethod: string, pathname: string,
                                  acceptEncoding: Option<string>, spa: bool, files: set<string>)
    requires Extname(pathname) == ""
    ensures Answers(resp, httpMethod, pathname, acceptEncoding, spa, files) <==>
            Answers(resp, httpMethod, IndexPath(pathname), acceptEncoding, spa, files)
  {
    ImplicitIndexIsExplicit(pathname, spa);
  }

  /** The SPA entry point is itself handled as an `.html` file. */
  lemma EntryIsHtml()
    ensures Extension(SPA_ENTRY) == ".html"
  {
    ExtnameOfIndexFile("");
    assert "" + "/index.html" == SPA_ENTRY;
    KeysAreFixedByToLower(".html");
  }

  /** With the SPA switch on, all requests handled as `.html` are answered alike. */
  lemma SpaAnswersAlike(resp: Response, httpMethod: string, pathname: string, other: string,
                        acceptEncoding: Option<string>, files: set<string>)
    requires Extension(pathname) == ".html" && Extension(other) == ".html"
    ensures Answers(resp, httpMethod, pathname, acceptEncoding, true, files) <==>
            Answers(resp, httpMethod, other, acceptEncoding, true, files)
  {
    SpaReroute(pathname, true);
    SpaReroute(other, true);
  }

  /** With the SPA switch on, every request handled as `.html` is answered as `/index.html`. */
  lemma SpaAnswersAsEntry(resp: Response, httpMethod: string, pathname: string,
                          acceptEncoding: Option<string>, files: set<string>)
    requires Extension(pathname) == ".html"
    ensures Answers(resp, httpMethod, pathname, acceptEncoding, true, files) <==>
            Answers(resp, httpMethod, SPA_ENTRY, acceptEncoding, true, files)
  {
    EntryIsHtml();
    SpaAnswersAlike(resp, httpMethod, pathname, SPA_ENTRY, acceptEncoding, files);
  }
}
