/** The fixed table from lower-case file extension to `Content-Type`. */
module MimeTable {
  import opened Strings

  const OCTET_STREAM := "application/octet-stream"

  const MIME_TYPES: map<string, string> := map[
    ".html" := "text/html",
    ".js" := "text/javascript",
    ".css" := "text/css",
    ".json" := "application/json",
    ".webmanifest" := "application/manifest+json",
    ".png" := "image/png",
    ".jpg" := "image/jpg",
    ".webp" := "image/webp",
    ".gif" := "image/gif",
    ".svg" := "image/svg+xml",
    ".wav" := "audio/wav",
    ".mp4" := "video/mp4",
    ".woff2" := "font/woff2",
    ".wasm" := "application/wasm",
    ".md" := "text/markdown",
    ".txt" := "text/plain"
  ]

  /**
   * `mime_types.get(ext) || "application/octet-stream"`: the table's entry,
   * and the generic binary type exactly for the extensions it does not list.
   */
  function ContentTypeOf(ext: string): (ct: string)
    ensures ct == OCTET_STREAM <==> ext !in MIME_TYPES
    ensures ext in MIME_TYPES ==> ct == MIME_TYPES[ext]
  {
    if ext in MIME_TYPES then MIME_TYPES[ext] else OCTET_STREAM
  }

  /** Every content type served is a value of the table or the generic binary type. */
  lemma ContentTypeIsListed(ext: string)
    ensures ContentTypeOf(ext) in MIME_TYPES.Values || ContentTypeOf(ext) == OCTET_STREAM
  {
    if ext in MIME_TYPES {
      assert MIME_TYPES[ext] in MIME_TYPES.Values;
    }
  }

  /** Only `.html` is served as `text/html`. */
  lemma HtmlTypeIff(ext: string)
    ensures ContentTypeOf(ext) == "text/html" <==> ext == ".html"
  {
  }

  /** Every key is a dot followed by text without upper-case letters. */
  lemma KeysAreLowerCaseExtensions(ext: string)
    requires ext in MIME_TYPES
    ensures |ext| > 1 && ext[0] == '.'
    ensures NoUpper(ext)
  {
  }

  /** Lower-casing leaves every key of the table as it is. */
  lemma KeysAreFixedByToLower(ext: string)
    requires ext in MIME_TYPES
    ensures ToLower(ext) == ext
  {
    KeysAreLowerCaseExtensions(ext);
    ToLowerOfLower(ext);
  }

  /**
   * The lookup of a lower-cased extension ignores case: an extension that is
   * a key with some of its letters in upper case gets that key's content type.
   */
  lemma LookupIgnoresCase(ext: string, key: string)
    requires key in MIME_TYPES
    requires |ext| == |key| && forall i :: 0 <= i < |ext| ==> LowerChar(ext[i]) == key[i]
    ensures ToLower(ext) == key
    ensures ContentTypeOf(ToLower(ext)) == MIME_TYPES[key]
  {
    ToLowerAt(ext);
  }

  /** `.HTML` is served as `text/html`, like `.html`. */
  lemma UpperCaseHtml()
    ensures ContentTypeOf(ToLower(".HTML")) == "text/html"
  {
    LookupIgnoresCase(".HTML", ".html");
  }
}
