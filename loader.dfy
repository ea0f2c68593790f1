/** Which document the page loads (loadContent in docs/md-to-html.js): the
    name is read from the query string, checked against the allow-list and
    only then fetched; and where the page scrolls (scrollToAnchor). The
    browser's location, the response status and the clock are parameters;
    the markdown rendering and all DOM updates are not part of the model. */
module Loader {
  import opened Strings
  import opened Config
  import Links

  /** window.location.search.substring(1) */
  function QueryString(search: string): (q: string)
    ensures |search| > 0 ==> search == [search[0]] + q
    ensures |search| == 0 ==> q == ""
  {
    if |search| >= 1 then search[1..] else ""
  }

  /** targetFile of loadContent: the query string up to its first '#', the
      default document when that is empty, then one leading ./ dropped. */
  function DocName(search: string): (name: string)
    ensures '#' !in name
    ensures var first := TakeUntil(QueryString(search), '#');
      if first == "" then name == DefaultFile
      else if StartsWith(first, "./") then first == "./" + name
      else name == first
  {
    var first := TakeUntil(QueryString(search), '#');
    var fileName := if first == "" then DefaultFile else first;
    assert DefaultFile[0] != '.';
    DropPrefix(fileName, "./")
  }

  /** The two errors loadContent throws and turns into its not-found page. */
  datatype LoadError = Unauthorized | NotFound

  datatype Result<T> = Ok(value: T) | Err(error: LoadError)

  /** The allow-list check made before any request. */
  function Authorize(search: string): (r: Result<string>)
    ensures r.Ok? <==> DocName(search) in DocsWhitelist
    ensures r.Ok? ==> r.value == DocName(search) && r.value in DocsWhitelist
    ensures r.Err? ==> r.error == Unauthorized
  {
    var target := DocName(search);
    if target in DocsWhitelist then Ok(target) else Err(Unauthorized)
  }

  /** The URL fetched for an authorised document; `stamp` is the decimal
      text of Date.now(), appended to defeat caches. */
  function FetchUrl(file: string, stamp: string): (url: string)
    ensures StartsWith(url, RepoBase + file) && EndsWith(url, "?t=" + stamp)
    ensures |url| == |RepoBase| + |file| + 3 + |stamp|
  {
    RepoBase + file + "?t=" + stamp
  }

  /** The request loadContent sends, if it sends one. */
  function Request(search: string, stamp: string): (url: Option<string>)
    ensures url.Some? <==> Authorize(search).Ok?
    ensures url.Some? ==> url.value == FetchUrl(DocName(search), stamp)
    ensures url.Some? ==> exists f :: f in DocsWhitelist && url.value == FetchUrl(f, stamp)
  {
    match Authorize(search)
    case Ok(f) => Some(FetchUrl(f, stamp))
    case Err(_) => None
  }

  /** The outcome of loadContent, given whether the response it would get
      is ok: the document shown, or the error that sends it to the
      not-found page (both errors show the same page). */
  function Load(search: string, responseOk: bool): (r: Result<string>)
    ensures r.Ok? <==> Authorize(search).Ok? && responseOk
    ensures r.Ok? ==> r.value == DocName(search) && r.value in DocsWhitelist
    ensures r == Err(Unauthorized) <==> Request(search, "").None?
    ensures r == Err(NotFound) <==> Request(search, "").Some? && !responseOk
  {
    match Authorize(search)
    case Err(e) => Err(e)
    case Ok(f) => if responseOk then Ok(f) else Err(NotFound)
  }

  /** The documents the loader accepts, by the text before the first '#' of
      the query string: the name itself, the name after ./, or nothing at
      all for the default document. */
  lemma AuthorizeExactly(search: string, f: string)
    ensures Authorize(search) == Ok(f) <==>
      var first := TakeUntil(QueryString(search), '#');
      f in DocsWhitelist && (first == f || first == "./" + f || (first == "" && f == DefaultFile))
  {
    var first := TakeUntil(QueryString(search), '#');
    if first == "" {
      assert DefaultFile[0] != '.';
      assert DocName(search) == DefaultFile;
    } else if StartsWith(first, "./") {
      assert DocName(search) == first[2..];
      assert first == "./" + first[2..];
      if f in DocsWhitelist {
        WhitelistShape(f);
        assert first != f by {
          assert first[0] == '.';
        }
      }
    } else {
      assert DocName(search) == first;
      assert first != "./" + f;
    }
  }

  /** A query string that names nothing, or only an anchor, loads the default
      document. */
  lemma DefaultDocument(search: string)
    requires TakeUntil(QueryString(search), '#') == ""
    ensures Authorize(search) == Ok(DefaultFile)
  {
    AuthorizeExactly(search, DefaultFile);
  }

  /** Nothing outside the allow-list is ever requested: every request goes to
      the docs folder for one of the four allow-listed names. */
  lemma OnlyAllowListedRequested(search: string, stamp: string)
    requires Request(search, stamp).Some?
    ensures Request(search, stamp).value in
      [FetchUrl("README.md", stamp), FetchUrl("LOGS.md", stamp), FetchUrl("MANUAL.md", stamp), FetchUrl("ROADMAP.md", stamp)]
  {
    var f := Authorize(search).value;
    assert f in DocsWhitelist;
  }

  /** window.location after following a same-folder link ./?Q#H: search is
      ?Q (empty when Q is), hash is #H (empty when H is). The browser's URL
      parsing is not part of the model: it removes every tab, LF and CR,
      strips trailing spaces and control characters, and percent-encodes
      C0 controls, non-ASCII and a few ASCII characters in Q and H. With
      the decodeURIComponent that ScrollTarget leaves out, the encoding
      cancels for the anchor; the removals do not, and a '%' in the anchor
      is decoded. So the anchor arrives as written only when it holds no
      '%', no tab, LF or CR, and no trailing space or control character. */
  datatype Location = Location(search: string, hash: string)

  function Navigate(href: string): (loc: Location)
    requires StartsWith(href, "./?")
    ensures StartsWith(href[3..], QueryString(loc.search))
  {
    var rest := href[3..];
    var q := TakeUntil(rest, '#');
    Location(if q == "" then "" else "?" + q,
             if |q| + 1 < |rest| then rest[|q|..] else "")
  }

  /** The element id scrollToAnchor looks for: the hash without its '#'
      (decodeURIComponent is not part of the model). */
  function ScrollTarget(hash: string): (id: Option<string>)
    ensures id.Some? <==> hash != ""
    ensures id.Some? ==> hash == [hash[0]] + id.value
  {
    if hash == "" then None else Some(hash[1..])
  }

  /** Every link renderer.link rewrites to a document opens that document:
      following it, loadContent authorises and loads the file the link
      named, and scrollToAnchor looks for the anchor the link named (in the
      browser, for anchors without '%', tab, LF or CR and without a trailing
      space or control character; see Navigate). */
  lemma DocLinkOpensDoc(href: string)
    requires Links.RewriteLink(href).Doc?
    ensures var a := Links.RewriteLink(href);
      var loc := Navigate(a.Href());
      Authorize(loc.search) == Ok(a.file)
      && ScrollTarget(loc.hash) == (if a.fragment == "" then None else Some(a.fragment))
  {
    var a := Links.RewriteLink(href);
    WhitelistShape(a.file);
    NavigateDocHref(a.file, a.fragment);
    AuthorizeBare(a.file);
  }

  /** Where the browser goes on ./?f or ./?f#frag. */
  lemma NavigateDocHref(f: string, frag: string)
    requires IsDocName(f) && '#' !in frag
    ensures var loc := Navigate(Links.Doc(f, frag).Href());
      loc.search == "?" + f
      && ScrollTarget(loc.hash) == (if frag == "" then None else Some(frag))
  {
    var tail := if frag == "" then "" else "#" + frag;
    var rest := f + tail;
    var h := Links.Doc(f, frag).Href();
    assert h == "./?" + rest;
    assert h[3..] == rest;
    TakeUntilAppend(f, tail, '#');
    TakeUntilAbsent(f, '#');
    if frag != "" {
      assert TakeUntil(tail, '#') == [];
      assert rest[|f|..] == tail;
      assert tail[1..] == frag;
    } else {
      assert rest == f;
    }
  }

  /** The query ?f, for an allow-listed f, loads f. */
  lemma AuthorizeBare(f: string)
    requires f in DocsWhitelist
    ensures Authorize("?" + f) == Ok(f)
  {
    WhitelistShape(f);
    assert QueryString("?" + f) == f;
    TakeUntilAbsent(f, '#');
    assert f[0] != '.';
  }

  /** The not-found page's "Back to docs" link ./?README.md loads the
      README. */
  lemma BackLinkLoadsReadme()
    ensures Authorize(Navigate("./?README.md").search) == Ok("README.md")
  {
    DefaultAllowed();
    ListedLinkLoads(DefaultFile);
    BackLinkHref();
  }

  lemma BackLinkHref()
    ensures "./?" + DefaultFile == "./?README.md"
  {
  }

  /** The link ./?f, for an allow-listed f, loads f. */
  lemma ListedLinkLoads(f: string)
    requires f in DocsWhitelist
    ensures Authorize(Navigate("./?" + f).search) == Ok(f)
  {
    WhitelistShape(f);
    Links.DocHrefNoAnchor(f);
    NavigateDocHref(f, "");
    AuthorizeBare(f);
  }
}
