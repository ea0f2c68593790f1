/** The href of every rendered link (renderer.link in docs/md-to-html.js).
    A link is one of three kinds: an external link, opened in a new tab; a
    link to an allow-listed markdown document, rewritten to the page's own
    ./?FILE#anchor form; or any other link, emitted as written. The link
    text, rendered by the markdown library, is not part of the model. */
module Links {
  import opened Strings
  import opened Config

  /** The anchor element renderer.link emits, without its text. */
  datatype Anchor =
    | External(url: string)
    | Doc(file: string, fragment: string)
    | Unchanged(url: string)
  {
    /** The value of the href attribute: the href as written for an external
        or unchanged link; for a document link, the page's own ./? query,
        whose text splits at its first '#' back into the file and, when it
        is non-empty, the anchor, with nothing after it: no '#' at all for
        an empty anchor. */
    function Href(): (h: string)
      ensures !Doc? ==> h == url
      ensures Doc? ==> StartsWith(h, "./?")
      ensures Doc? ==> |h| == 3 + |file| + (if fragment == "" then 0 else 1 + |fragment|)
      ensures Doc? && '#' !in file && '#' !in fragment ==>
        TakeUntil(h[3..], '#') == file && Fragment(h[3..]) == fragment
    {
      match this
      case External(u) => u
      case Doc(f, a) =>
        var q := f + (if a == "" then "" else "#" + a);
        assert ("./?" + q)[3..] == q;
        DocQueryParts(f, a);
        "./?" + q
      case Unchanged(u) => u
    }

    /** Whether the anchor carries target="_blank" rel="noopener". */
    predicate OpensNewTab() {
      External?
    }
  }

  /** href.startsWith('http') */
  predicate IsExternal(href: string) {
    StartsWith(href, "http")
  }

  /** The guard of the document branch: the href ends with .md or contains
      .md# or .md/#. */
  predicate MentionsDoc(href: string) {
    EndsWith(href, ".md") || Contains(href, ".md#") || Contains(href, ".md/#")
  }

  /** href.replace(/^\.\//, '').replace('.md/#', '.md#'): one leading ./
      is dropped, and then the '/' of the first .md/# and nothing else. */
  function CleanHref(href: string): (clean: string)
    ensures var h := DropPrefix(href, "./");
      !Contains(h, ".md/#") ==> clean == h
    ensures var h := DropPrefix(href, "./");
      Contains(h, ".md/#") ==>
        var k := IndexOf(h, ".md/#").value;
        |clean| == |h| - 1 && clean == h[..k + 3] + h[k + 4..]
  {
    var h := DropPrefix(href, "./");
    ReplaceDeletesSlash(h);
    ReplaceFirst(h, ".md/#", ".md#")
  }

  /** Replacing .md/# by .md# deletes the '/' of its first occurrence. */
  lemma ReplaceDeletesSlash(h: string)
    ensures Contains(h, ".md/#") ==>
      var k := IndexOf(h, ".md/#").value;
      ReplaceFirst(h, ".md/#", ".md#") == h[..k + 3] + h[k + 4..]
  {
    if Contains(h, ".md/#") {
      var k := IndexOf(h, ".md/#").value;
      var w := h[k..k + 5];
      assert w == ".md/#";
      assert h[..k + 3] == h[..k] + w[..3];
      assert h[k + 4..] == w[4..] + h[k + 5..];
    }
  }

  /** `anchor` of `const [file, anchor] = cleanHref.split('#')`, with the
      undefined of a missing '#' read as the empty string: both are falsy, so
      both give an href without '#'. */
  function Fragment(clean: string): (anchor: string)
    ensures '#' !in anchor
    ensures '#' !in clean ==> anchor == ""
    ensures '#' in clean ==>
      var n := |TakeUntil(clean, '#')| + 1 + |anchor|;
      StartsWith(clean, TakeUntil(clean, '#') + "#" + anchor) && (n == |clean| || clean[n] == '#')
  {
    match SecondPiece(clean, '#')
    case Some(a) => a
    case None => ""
  }

  /** renderer.link on a token whose href is `href`. */
  function RewriteLink(href: string): (a: Anchor)
    ensures a.External? <==> IsExternal(href)
    ensures a.Doc? <==> !IsExternal(href) && MentionsDoc(href) && TakeUntil(CleanHref(href), '#') in DocsWhitelist
    ensures a.Doc? ==> a.file == TakeUntil(CleanHref(href), '#') && a.file in DocsWhitelist
    ensures a.Doc? ==> '#' !in a.fragment
    ensures a.Doc? && '#' !in CleanHref(href) ==> a.fragment == ""
    ensures a.Doc? && '#' in CleanHref(href) ==>
      var clean, n := CleanHref(href), |a.file| + 1 + |a.fragment|;
      StartsWith(clean, a.file + "#" + a.fragment) && (n == |clean| || clean[n] == '#')
    ensures !a.Doc? ==> a.Href() == href
  {
    if IsExternal(href) then External(href)
    else if MentionsDoc(href) then
      var clean := CleanHref(href);
      var file := TakeUntil(clean, '#');
      if file in DocsWhitelist then Doc(file, Fragment(clean)) else Unchanged(href)
    else Unchanged(href)
  }

  /** The same classification without the .md guard: only the allow-list
      decides whether a relative link is rewritten. */
  function RewriteLinkByWhitelist(href: string): (a: Anchor) {
    if IsExternal(href) then External(href)
    else
      var clean := CleanHref(href);
      var file := TakeUntil(clean, '#');
      if file in DocsWhitelist then Doc(file, Fragment(clean)) else Unchanged(href)
  }

  /** The .md guard never decides anything on its own: every name on the
      allow-list ends in .md, so any href whose cleaned file part is
      allow-listed passes it. */
  lemma MdGuardRedundant(href: string)
    ensures RewriteLink(href) == RewriteLinkByWhitelist(href)
  {
    var file := TakeUntil(CleanHref(href), '#');
    if !IsExternal(href) && file in DocsWhitelist {
      WhitelistShape(file);
      DocFilePassesGuard(href);
    }
  }

  /** A relative href whose cleaned file part is a bare .md name passes the
      .md guard. */
  lemma DocFilePassesGuard(href: string)
    requires IsDocName(TakeUntil(CleanHref(href), '#'))
    ensures MentionsDoc(href)
  {
    var h := DropPrefix(href, "./");
    var k := |href| - |h|;
    DropPrefixIsSuffix(href, "./");
    var clean := CleanHref(href);
    if Contains(h, ".md/#") {
      ContainsInSuffix(href, ".md/#", k);
    } else if '#' in clean {
      MdHashAfterFile(clean);
      ContainsInSuffix(href, ".md#", k);
    } else {
      TakeUntilAbsent(clean, '#');
      EndsWithSuffix(href, k, ".md");
    }
  }

  /** A bare .md name before the first '#' puts .md# in the text. */
  lemma MdHashAfterFile(clean: string)
    requires '#' in clean && IsDocName(TakeUntil(clean, '#'))
    ensures Contains(clean, ".md#")
  {
    var file := TakeUntil(clean, '#');
    TakeUntilWhole(clean, '#');
    assert clean[|file| - 3..|file| + 1] == ".md#";
    ContainsAt(clean, ".md#", |file| - 3);
  }

  /** An href already in the ./?FILE form is left as it is: its file part
      starts with '?', and no allow-listed name does. */
  lemma QueryFormUnchanged(href: string)
    requires StartsWith(href, "./?")
    ensures RewriteLink(href) == Unchanged(href)
  {
    QueryFileNotListed(href);
    NotListedUnchanged(href);
  }

  /** A relative href whose file part is not allow-listed is kept. */
  lemma NotListedUnchanged(href: string)
    requires !IsExternal(href) && TakeUntil(CleanHref(href), '#') !in DocsWhitelist
    ensures RewriteLink(href) == Unchanged(href)
  {
  }

  /** The file part of an href in ./? form starts with '?'. */
  lemma QueryFileNotListed(href: string)
    requires StartsWith(href, "./?")
    ensures !IsExternal(href) && TakeUntil(CleanHref(href), '#') !in DocsWhitelist
  {
    assert href[0] == '.';
    QueryCleanShape(href);
    var file := TakeUntil(CleanHref(href), '#');
    assert |file| > 0 && file[0] == '?';
    QueryNotListed(file);
  }

  /** Cleaning an href in ./? form leaves the '?' in front. */
  lemma QueryCleanShape(href: string)
    requires StartsWith(href, "./?")
    ensures |CleanHref(href)| > 0 && CleanHref(href)[0] == '?'
  {
    var h := DropPrefix(href, "./");
    assert h == href[2..] && h[0] == '?';
    assert !OccursAt(h, ".md/#", 0);
  }

  /** Rewriting is done once: feeding an emitted href back through
      renderer.link never rewrites it again, and an external link stays
      external. */
  lemma RewriteOnce(href: string)
    ensures var a := RewriteLink(href);
      RewriteLink(a.Href()) == if a.Doc? then Unchanged(a.Href()) else a
  {
    var a := RewriteLink(href);
    if a.Doc? {
      QueryFormUnchanged(a.Href());
    }
  }

  /** In f + "#" + rest, .md/# does not occur: a '#' stands only right after
      f, and f ends in 'd', not '/'. */
  lemma NoSlashHashAfterDoc(f: string, rest: string)
    requires IsDocName(f) && '#' !in rest
    ensures !Contains(f + "#" + rest, ".md/#")
  {
    var h := f + "#" + rest;
    forall j | 0 <= j && j + 5 <= |h| ensures !OccursAt(h, ".md/#", j) {
      if j + 4 < |f| {
        assert h[j..j + 5][4] == f[j + 4];
      } else if j + 4 == |f| {
        assert h[j..j + 5][3] == f[|f| - 3..][2];
      } else {
        assert h[j..j + 5][4] == rest[j + 4 - |f| - 1];
      }
    }
  }

  /** In f + "/#" + rest, the first .md/# is the one ending f. */
  lemma SlashHashAfterDoc(f: string, rest: string)
    requires IsDocName(f)
    ensures IndexOf(f + "/#" + rest, ".md/#") == Some(|f| - 3)
  {
    var h := f + "/#" + rest;
    assert OccursAt(h, ".md/#", |f| - 3) by {
      assert h[|f| - 3..|f| + 2] == f[|f| - 3..] + "/#";
    }
    forall j | 0 <= j < |f| - 3 ensures !OccursAt(h, ".md/#", j) {
      assert h[j..j + 5][3] == f[j + 3];
    }
  }

  /** Dropping the optional leading ./ of a relative link to f. */
  lemma DropDotSlashOfDoc(pre: string, rest: string)
    requires pre == "" || pre == "./"
    requires |rest| > 0 && rest[0] != '.' && rest[0] != 'h'
    ensures DropPrefix(pre + rest, "./") == rest
    ensures !IsExternal(pre + rest)
  {
    var href := pre + rest;
    assert href[0] != 'h';
    if pre == "" {
      assert href == rest;
    } else {
      assert href == "./" + rest;
    }
  }

  /** The cleaning step on f#anchor and ./f#anchor. */
  lemma CleanHashHref(pre: string, f: string, anchor: string)
    requires pre == "" || pre == "./"
    requires IsDocName(f) && '#' !in anchor
    ensures var href := pre + f + "#" + anchor;
      !IsExternal(href) && MentionsDoc(href) && CleanHref(href) == f + "#" + anchor
  {
    AppendAssoc4(pre, f, "#", anchor);
    DropDotSlashOfDoc(pre, f + "#" + anchor);
    NoSlashHashAfterDoc(f, anchor);
    MdHashAt(pre, f, anchor);
  }

  /** The .md# that ends f in pre + f + "#" + anchor. */
  lemma MdHashAt(pre: string, f: string, anchor: string)
    requires IsDocName(f)
    ensures Contains(pre + f + "#" + anchor, ".md#")
  {
    var href := pre + f + "#" + anchor;
    assert href[|pre| + |f| - 3..|pre| + |f| + 1] == f[|f| - 3..] + "#";
    ContainsAt(href, ".md#", |pre| + |f| - 3);
  }

  /** The cleaning step on f/#anchor and ./f/#anchor. */
  lemma CleanSlashHashHref(pre: string, f: string, anchor: string)
    requires pre == "" || pre == "./"
    requires IsDocName(f)
    ensures var href := pre + f + "/#" + anchor;
      !IsExternal(href) && MentionsDoc(href) && CleanHref(href) == f + "#" + anchor
  {
    var href := pre + f + "/#" + anchor;
    var h := f + "/#" + anchor;
    assert href == pre + h;
    DropDotSlashOfDoc(pre, h);
    assert href[|pre|..] == h;
    ReplaceSlashHash(f, anchor);
    ContainsInSuffix(href, ".md/#", |pre|);
  }

  /** The replace of the first .md/# in f/#anchor. */
  lemma ReplaceSlashHash(f: string, anchor: string)
    requires IsDocName(f)
    ensures Contains(f + "/#" + anchor, ".md/#")
    ensures ReplaceFirst(f + "/#" + anchor, ".md/#", ".md#") == f + "#" + anchor
  {
    var h := f + "/#" + anchor;
    SlashHashAfterDoc(f, anchor);
    var k := |f| - 3;
    assert h[..k] + ".md#" + h[k + 5..] == f + "#" + anchor by {
      assert h[..k] + ".md" == f;
      assert h[k + 5..] == anchor;
    }
  }

  /** Splitting f + "#" + anchor at '#' gives back f and anchor. */
  lemma SplitDocHref(f: string, anchor: string)
    requires '#' !in f && '#' !in anchor
    ensures TakeUntil(f + "#" + anchor, '#') == f
    ensures Fragment(f + "#" + anchor) == anchor
  {
    var clean := f + "#" + anchor;
    TakeUntilAppend(f, "#" + anchor, '#');
    assert TakeUntil("#" + anchor, '#') == [];
    assert clean == f + ("#" + anchor);
    TakeUntilAbsent(anchor, '#');
    assert clean[|f| + 1..] == anchor;
  }

  /** A document link without an anchor is ./?f. */
  lemma DocHrefNoAnchor(f: string)
    ensures Doc(f, "").Href() == "./?" + f
  {
    assert f + "" == f;
  }

  /** The query text of a document link, f or f#a, splits back into f and a. */
  lemma DocQueryParts(f: string, a: string)
    ensures var q := f + (if a == "" then "" else "#" + a);
      '#' !in f && '#' !in a ==> TakeUntil(q, '#') == f && Fragment(q) == a
  {
    if '#' in f || '#' in a {
    } else if a == "" {
      assert f + "" == f;
      TakeUntilAbsent(f, '#');
    } else {
      AppendAssoc(f, "#", a);
      SplitDocHref(f, a);
    }
  }

  /** The relative links the renderer is written for are rewritten: an
      allow-listed file, with or without a leading ./, followed by # or /#
      and an anchor, becomes Doc(file, anchor). */
  lemma DocLinkRecognised(pre: string, f: string, sep: string, anchor: string)
    requires pre == "" || pre == "./"
    requires sep == "#" || sep == "/#"
    requires f in DocsWhitelist && '#' !in anchor
    ensures RewriteLink(pre + f + sep + anchor) == Doc(f, anchor)
  {
    WhitelistShape(f);
    if sep == "#" {
      CleanHashHref(pre, f, anchor);
    } else {
      CleanSlashHashHref(pre, f, anchor);
    }
    SplitDocHref(f, anchor);
  }

  /** The cleaning step on the hrefs of BareDocLinkRecognised. */
  lemma CleanBareDocHref(pre: string, f: string)
    requires pre == "" || pre == "./"
    requires IsDocName(f)
    ensures !IsExternal(pre + f) && MentionsDoc(pre + f) && CleanHref(pre + f) == f
  {
    var href := pre + f;
    assert href[0] != 'h';
    assert DropPrefix(href, "./") == f by {
      if pre == "" {
        assert href == f;
      } else {
        assert href == "./" + f;
      }
    }
    assert EndsWith(href, ".md") by {
      assert href[|href| - 3..] == f[|f| - 3..];
    }
    forall j | 0 <= j && j + 5 <= |f| ensures !OccursAt(f, ".md/#", j) {
      assert f[j..j + 5][4] == f[j + 4];
    }
  }

  /** A bare allow-listed file name, with or without a leading ./, becomes
      a link to that document with no anchor. */
  lemma BareDocLinkRecognised(pre: string, f: string)
    requires pre == "" || pre == "./"
    requires f in DocsWhitelist
    ensures RewriteLink(pre + f) == Doc(f, "")
  {
    WhitelistShape(f);
    CleanBareDocHref(pre, f);
    TakeUntilAbsent(f, '#');
    TakeUntilWhole(f, '#');
  }
}
