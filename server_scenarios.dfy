/**
 * The behaviours the handler's promise forces for whole families of
 * requests: encoding preference, SPA fallback, the service-worker cache
 * exemption, implicit directory indexes, dotted directory names and
 * missing assets.
 */
module ServerScenarios {
  import opened Wrappers
  import opened Strings
  import opened NodePath
  import opened MimeTable
  import opened AcceptEncoding
  import opened Server

  /** A header made only of allowed characters passes the sanitising filter unchanged. */
  lemma CleanHeader(h: string)
    requires AllAllowed(h)
    ensures SanitisedHeader(Some(h)) == Some(h)
  {
    SanitiseFixpointIff(h);
  }

  /** The header `br, gzip` is clean and names both encodings. */
  lemma BrAndGzipHeader()
    ensures SanitisedHeader(Some("br, gzip")) == Some("br, gzip")
    ensures Accepts(Some("br, gzip"), "br") && Accepts(Some("br, gzip"), "gzip")
  {
    assert AllAllowed("br, gzip");
    CleanHeader("br, gzip");
    assert OccursAt("br, gzip", "br", 0);
    IncludesIff("br, gzip", "br");
    assert OccursAt("br, gzip", "gzip", 4);
    IncludesIff("br, gzip", "gzip");
  }

  /** The header `gzip` is clean and names gzip but not Brotli. */
  lemma GzipOnlyHeader()
    ensures SanitisedHeader(Some("gzip")) == Some("gzip")
    ensures !Accepts(Some("gzip"), "br") && Accepts(Some("gzip"), "gzip")
  {
    assert AllAllowed("gzip");
    CleanHeader("gzip");
    IncludesIff("gzip", "br");
    forall i | 0 <= i && i + 2 <= 4
      ensures !OccursAt("gzip", "br", i)
    {
      assert "gzip"[i..i + 2][0] == "gzip"[i] != 'b';
    }
    assert OccursAt("gzip", "gzip", 0);
    IncludesIff("gzip", "gzip");
  }

  /** A request handled as `.js` is served under its own path, SPA switch or not. */
  lemma ScriptServedAsItself(pathname: string, spa: bool)
    requires Extension(pathname) == ".js"
    ensures Extname(pathname) != "" && ServedBase(pathname, spa) == pathname
  {
  }

  /** With both variants present and both encodings accepted, Brotli is served. */
  lemma BrotliPreferred(resp: Response, pathname: string, spa: bool, files: set<string>)
    requires Extension(pathname) == ".js" && !EndsWith(pathname, "sw.js")
    requires pathname + ".br" in files && pathname + ".gz" in files
    requires Answers(resp, "GET", pathname, Some("br, gzip"), spa, files)
    ensures resp.status == 200 && resp.file == Some(pathname + ".br")
    ensures resp.headers == map[ContentType := "text/javascript", ContentEncoding := "br", CacheControl := IMMUTABLE]
  {
    ScriptServedAsItself(pathname, spa);
    assert ContentTypeOf(".js") == "text/javascript" && ".js" in COMPRESSIBLE;
    BrAndGzipHeader();
    AnswersByParts(resp, pathname, Some("br, gzip"), spa, files, ".js", pathname, ".br");
    DispatchHeaders(resp, "text/javascript", pathname, ".br", files);
  }

  /** With only gzip accepted, the gzip variant is served even when a Brotli one exists. */
  lemma GzipWhenOnlyGzipAccepted(resp: Response, pathname: string, spa: bool, files: set<string>)
    requires Extension(pathname) == ".js" && !EndsWith(pathname, "sw.js")
    requires pathname + ".gz" in files
    requires Answers(resp, "GET", pathname, Some("gzip"), spa, files)
    ensures resp.status == 200 && resp.file == Some(pathname + ".gz")
    ensures resp.headers == map[ContentType := "text/javascript", ContentEncoding := "gzip", CacheControl := IMMUTABLE]
  {
    ScriptServedAsItself(pathname, spa);
    assert ContentTypeOf(".js") == "text/javascript" && ".js" in COMPRESSIBLE;
    GzipOnlyHeader();
    AnswersByParts(resp, pathname, Some("gzip"), spa, files, ".js", pathname, ".gz");
    DispatchHeaders(resp, "text/javascript", pathname, ".gz", files);
  }

  /**
   * A present `.html` asset served under its own path is sent uncompressed
   * to a request with no `Accept-Encoding`, and never long-cached.
   */
  lemma HtmlAnswer(resp: Response, pathname: string, spa: bool, files: set<string>)
    requires Extension(pathname) == ".html" && ServedBase(pathname, spa) == pathname && pathname in files
    requires Answers(resp, "GET", pathname, None, spa, files)
    ensures resp.status == 200 && resp.file == Some(pathname)
    ensures resp.headers == map[ContentType := "text/html"]
  {
    assert pathname + "" == pathname;
    AnswersByParts(resp, pathname, None, spa, files, ".html", pathname, "");
    DispatchHeaders(resp, "text/html", pathname, "", files);
  }

  /**
   * In SPA mode every route handled as `.html`, such as any route without
   * an extension, falls back to `/index.html`, or to its pre-compressed
   * variant when one is accepted and present; it is found exactly when that
   * variant is an asset, and is then sent as `text/html` and never
   * long-cached.
   */
  lemma SpaFallback(resp: Response, pathname: string, acceptEncoding: Option<string>, files: set<string>)
    requires Extension(pathname) == ".html"
    requires Answers(resp, "GET", pathname, acceptEncoding, true, files)
    ensures var suffix := Encoding(".html", SanitisedHeader(acceptEncoding), SPA_ENTRY, files);
            && (resp.status == 200 <==> SPA_ENTRY + suffix in files)
            && (resp.status == 200 ==> resp.file == Some(SPA_ENTRY + suffix))
            && (resp.status == 200 ==> resp.headers == EncodedHeaders("text/html", suffix))
            && (resp.status != 200 ==> resp == Bare(404))
  {
    SpaAnswersAsEntry(resp, "GET", pathname, acceptEncoding, files);
    EntryIsHtml();
    SpaReroute(SPA_ENTRY, true);
    HtmlTypeIff(".html");
    var suffix := Encoding(".html", SanitisedHeader(acceptEncoding), SPA_ENTRY, files);
    AnswersByParts(resp, SPA_ENTRY, acceptEncoding, true, files, ".html", SPA_ENTRY, suffix);
    if SPA_ENTRY + suffix in files {
      DispatchHeaders(resp, "text/html", SPA_ENTRY, suffix, files);
    }
  }

  /** A file `<stem>.js` under any directory is a script served under its own path. */
  lemma ScriptUnder(dir: string, stem: string)
    requires stem != [] && '/' !in stem
    ensures Extension(dir + "/" + stem + ".js") == ".js"
    ensures ServedBase(dir + "/" + stem + ".js", false) == dir + "/" + stem + ".js"
  {
    ExtnameOfFile(dir, stem, ".js");
    KeysAreFixedByToLower(".js");
  }

  /** A script that is present is served with the long-lived cache policy unless it is a service worker. */
  lemma ScriptCachePolicy(resp: Response, pathname: string, files: set<string>)
    requires Extension(pathname) == ".js" && pathname in files
    requires Answers(resp, "GET", pathname, None, false, files)
    ensures resp.status == 200
    ensures CacheControl in resp.headers <==> !EndsWith(pathname, "sw.js")
    ensures CacheControl in resp.headers ==> resp.headers[CacheControl] == IMMUTABLE
  {
    ScriptServedAsItself(pathname, false);
    assert ContentTypeOf(".js") == "text/javascript" && ".js" in COMPRESSIBLE;
    assert pathname + "" == pathname;
    AnswersByParts(resp, pathname, None, false, files, ".js", pathname, "");
  }

  /** A directory asked for with or without a trailing `/` is answered alike. */
  lemma DirectoryIndex(bare: Response, slashed: Response, httpMethod: string, dir: string,
                       acceptEncoding: Option<string>, spa: bool, files: set<string>)
    requires Extname(dir) == "" && !EndsWith(dir, "/")
    requires Answers(bare, httpMethod, dir, acceptEncoding, spa, files)
    requires Answers(slashed, httpMethod, dir + "/", acceptEncoding, spa, files)
    ensures bare == slashed
  {
    var slash := dir + "/";
    ExtnameIgnoresTrailingSlash(dir);
    assert EndsWith(slash, "/");
    assert IndexPath(slash) == slash + "index.html" == dir + "/index.html" == IndexPath(dir);
    ImplicitIndexAnswersAlike(bare, httpMethod, dir, acceptEncoding, spa, files);
    ImplicitIndexAnswersAlike(slashed, httpMethod, slash, acceptEncoding, spa, files);
    AnswerIsUnique(bare, slashed, httpMethod, IndexPath(dir), acceptEncoding, spa, files);
  }

  /**
   * A pathname ending in `/` whose last segment has an extension (`/v1.2/`,
   * see `NodePath.ExtnameOfDottedDirectory`) is not index-resolved but looked
   * up as it is, SPA switch or not: when that extension is not compressible,
   * such a request finds no asset, since asset paths never end in `/`.
   */
  lemma DottedDirectoryNotIndexed(resp: Response, pathname: string, acceptEncoding: Option<string>,
                                  spa: bool, files: set<string>)
    requires EndsWith(pathname, "/") && Extname(pathname) != ""
    requires Extension(pathname) !in COMPRESSIBLE
    requires forall f :: f in files ==> !EndsWith(f, "/")
    requires Answers(resp, "GET", pathname, acceptEncoding, spa, files)
    ensures ServedBase(pathname, spa) == pathname
    ensures resp == Bare(404)
  {
    HtmlTypeIff(Extension(pathname));
    assert ServedBase(pathname, spa) == pathname;
    assert pathname + "" == pathname;
    AnswersByParts(resp, pathname, acceptEncoding, spa, files, Extension(pathname), pathname, "");
  }

  /** A request whose served path begins no asset's path is a bare 404. */
  lemma MissingAsset(resp: Response, pathname: string, acceptEncoding: Option<string>, spa: bool, files: set<string>)
    requires forall f :: f in files ==> !(ServedBase(pathname, spa) <= f)
    requires Answers(resp, "GET", pathname, acceptEncoding, spa, files)
    ensures resp == Bare(404)
  {
    var base := ServedBase(pathname, spa);
    var suffix := Encoding(Extension(pathname), SanitisedHeader(acceptEncoding), base, files);
    assert base <= base + suffix;
  }
}
