/**
 * How the `/` handler of the `serve` command turns a request path into the
 * page file it looks for. `path.Clean` and `path.Join` are library calls and
 * stay uninterpreted: they are passed in as `clean` and `join`, and the only
 * property of `clean` used is the one Go documents, that it never returns
 * the empty string.
 */
module Serve {

  /** Where page files live. */
  const PAGES_DIR := "./site/pages"

  /** What a request for `/` is rewritten to. */
  const INDEX_PATH := "/index.html"

  predicate EndsWith(s: string, suffix: string)
  {
    |suffix| <= |s| && s[|s| - |suffix|..] == suffix
  }

  /** The strings the handler derives from one request: the (possibly
      rewritten) request path, `url`, `maybeUrl`, and the two file names
      built from them; or the index-out-of-range panic on an empty path. */
  datatype Resolution =
    | Resolved(path: string, url: string, maybeUrl: string, file: string, maybeFile: string)
    | IndexOutOfRange

  /** The candidate page name: `url` itself when it already ends in `/` or
      `.html`, otherwise `url` with `.html` appended. */
  function HtmlCandidate(url: string): (m: string)
    requires url != ""
    ensures EndsWith(m, "/") || EndsWith(m, ".html")
    ensures url <= m
    ensures m == url <==> EndsWith(url, "/") || EndsWith(url, ".html")
    ensures m != url ==> m == url + ".html"
  {
    if url[|url| - 1] != '/' && !EndsWith(url, ".html") then url + ".html" else url
  }

  /** The path handling of the `/` handler, as written: the existence check
      uses `maybeFile`, built from `maybeUrl`, but the file that is read is
      `file`, built from `url`. */
  function Resolve(requestPath: string, clean: string -> string, join: (string, string) -> string): (r: Resolution)
    requires forall s :: clean(s) != ""
    ensures r.IndexOutOfRange? <==> requestPath == ""
    ensures requestPath == "/" ==> r.Resolved? && r.path == INDEX_PATH
    ensures requestPath != "/" && r.Resolved? ==> r.path == requestPath
    // cleaning may drop a trailing slash; it is put back
    ensures r.Resolved? ==> r.url == clean(r.path) + (if EndsWith(r.path, "/") then "/" else "")
    ensures r.Resolved? && EndsWith(r.path, "/") ==> EndsWith(r.url, "/")
    ensures r.Resolved? ==> r.maybeUrl == HtmlCandidate(r.url)
    ensures r.Resolved? ==> r.maybeFile == join(PAGES_DIR, r.maybeUrl)
    ensures r.Resolved? ==> r.file == join(PAGES_DIR, r.url)
  {
    var path := if requestPath == "/" then INDEX_PATH else requestPath;
    if path == "" then
      IndexOutOfRange
    else
      var url := clean(path) + (if path[|path| - 1] == '/' then "/" else "");
      var maybeUrl := HtmlCandidate(url);
      Resolved(path, url, maybeUrl, join(PAGES_DIR, url), join(PAGES_DIR, maybeUrl))
  }

  /** The handler's statements, step by step. */
  method ResolveRequest(requestPath: string, clean: string -> string, join: (string, string) -> string)
    returns (r: Resolution)
    requires forall s :: clean(s) != ""
    ensures r == Resolve(requestPath, clean, join)
  {
    var path := requestPath;
    if path == "/" {
      path := INDEX_PATH;
    }
    assert path == if requestPath == "/" then INDEX_PATH else requestPath;
    var url := clean(path);
    if path == "" {
      return IndexOutOfRange;
    }
    if path[|path| - 1] == '/' {
      url := url + "/";
    }
    assert url == clean(path) + (if path[|path| - 1] == '/' then "/" else "");
    var maybeUrl := url;
    if url[|url| - 1] != '/' && !EndsWith(url, ".html") {
      maybeUrl := url + ".html";
    }
    var file := join(PAGES_DIR, url);
    var maybeFile := join(PAGES_DIR, maybeUrl);
    assert maybeUrl == HtmlCandidate(url);
    r := Resolved(path, url, maybeUrl, file, maybeFile);
  }

  /** For a route without an extension the name whose existence is checked
      and the name that is read differ: whenever cleaning leaves `/about`
      as it is, `/about` checks `/about.html` and reads `/about`. */
  lemma ExtensionlessRouteReadsOtherName(clean: string -> string, join: (string, string) -> string)
    requires forall s :: clean(s) != ""
    requires clean("/about") == "/about"
    ensures Resolve("/about", clean, join)
         == Resolved("/about", "/about", "/about.html", join(PAGES_DIR, "/about"), join(PAGES_DIR, "/about.html"))
  {
    var about := "/about";
    assert about[|about| - 1] != '/';
    assert !EndsWith(about, ".html") by {
      assert about[1..] != ".html";
    }
    assert HtmlCandidate(about) == about + ".html";
    assert about + ".html" == "/about.html";
  }

  /** The path handling with the file read being the one whose existence
      was checked. */
  function ResolveFixed(requestPath: string, clean: string -> string, join: (string, string) -> string): (r: Resolution)
    requires forall s :: clean(s) != ""
    ensures r.IndexOutOfRange? <==> requestPath == ""
    ensures requestPath == "/" ==> r.Resolved? && r.path == INDEX_PATH
    ensures requestPath != "/" && r.Resolved? ==> r.path == requestPath
    ensures r.Resolved? ==> r.url == clean(r.path) + (if EndsWith(r.path, "/") then "/" else "")
    ensures r.Resolved? ==> r.maybeUrl == HtmlCandidate(r.url)
    ensures r.Resolved? ==> r.file == r.maybeFile == join(PAGES_DIR, r.maybeUrl)
    ensures r.Resolved? ==> EndsWith(r.maybeUrl, "/") || EndsWith(r.maybeUrl, ".html")
  {
    var r := Resolve(requestPath, clean, join);
    if r.Resolved? then r.(file := r.maybeFile) else r
  }

  /** With the correction, `/about` reads the `/about.html` it checked. */
  lemma ExtensionlessRouteReadsCheckedName(clean: string -> string, join: (string, string) -> string)
    requires forall s :: clean(s) != ""
    requires clean("/about") == "/about"
    ensures ResolveFixed("/about", clean, join)
         == Resolved("/about", "/about", "/about.html", join(PAGES_DIR, "/about.html"), join(PAGES_DIR, "/about.html"))
  {
    ExtensionlessRouteReadsOtherName(clean, join);
  }
}
