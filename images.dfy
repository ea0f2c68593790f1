/** The src of every rendered image (renderer.image in
    docs/md-to-html.js): shields.io badges get the site's badge style
    appended as query parameters, absolute http(s) sources are kept, and
    every other source is resolved against the repository's docs folder. */
module Images {
  import opened Strings
  import opened Config

  /** The parameters appended to every shields.io badge. */
  const BadgeStyle: string := "style=flat-square&color=06b6d4"

  /** The img element renderer.image emits, without its alt text: a badge
      (class badge-cyber) or a framed picture. */
  datatype Image = Badge(src: string) | Picture(src: string)

  /** href.includes('shields.io') */
  predicate IsBadge(href: string) {
    Contains(href, "shields.io")
  }

  /** The badge src: the href, then '&' if it already has a query and '?'
      otherwise, then the style parameters. */
  function BadgeSrc(href: string): (src: string)
    ensures StartsWith(src, href) && EndsWith(src, BadgeStyle)
    ensures |src| == |href| + 1 + |BadgeStyle|
    ensures src[|href|] == if '?' in href then '&' else '?'
  {
    var separator := if '?' in href then "&" else "?";
    var src := href + separator + BadgeStyle;
    assert src[|src| - |BadgeStyle|..] == BadgeStyle;
    src
  }

  /** renderer.image on a token whose href is `href`, as written: a relative
      source loses the FIRST "./" anywhere in it (href.replace('./', '')). */
  function RewriteImage(href: string): (img: Image)
    ensures img.Badge? <==> IsBadge(href)
    ensures img.Badge? ==> img.src == BadgeSrc(href)
    ensures img.Picture? && StartsWith(href, "http") ==> img.src == href
    ensures img.Picture? && !StartsWith(href, "http") ==>
      img.src == RepoBase + ReplaceFirst(href, "./", "")
  {
    if IsBadge(href) then Badge(BadgeSrc(href))
    else if StartsWith(href, "http") then Picture(href)
    else Picture(RepoBase + ReplaceFirst(href, "./", ""))
  }

  /** The style parameters always land in the query part of a badge URL: the
      part before the first '?' is the badge's own, and a '?' is present. */
  lemma BadgeKeepsPath(href: string)
    requires IsBadge(href)
    ensures var src := RewriteImage(href).src;
      '?' in src && TakeUntil(src, '?') == TakeUntil(href, '?')
  {
    var src := BadgeSrc(href);
    var tail := src[|href|..];
    assert src == href + tail;
    TakeUntilAppend(href, tail, '?');
    if '?' !in href {
      assert tail[0] == '?';
      assert TakeUntil(tail, '?') == [];
      TakeUntilAbsent(href, '?');
    }
  }

  /** A source written ./path is fetched from the docs folder as path. */
  lemma DotSlashImage(path: string)
    requires !IsBadge("./" + path)
    ensures RewriteImage("./" + path) == Picture(RepoBase + path)
  {
    var href := "./" + path;
    assert href[0] == '.';
    assert OccursAt(href, "./", 0);
    assert href[..0] + "" + href[2..] == path;
  }

  /** A relative source with no "./" in it is appended to the docs folder
      unchanged. */
  lemma PlainRelativeImage(href: string)
    requires !IsBadge(href) && !StartsWith(href, "http") && !Contains(href, "./")
    ensures RewriteImage(href) == Picture(RepoBase + href)
  {
  }

  /** The relative-source rule as the link renderer writes it: only a
      leading ./ is dropped (href.replace(/^\.\//, '')). */
  function RewriteImageFixed(href: string): (img: Image)
    ensures img.Badge? <==> IsBadge(href)
    ensures img.Badge? ==> img.src == BadgeSrc(href)
    ensures img.Picture? && StartsWith(href, "http") ==> img.src == href
    ensures img.Picture? && !StartsWith(href, "http") ==>
      img.src == RepoBase + DropPrefix(href, "./")
  {
    if IsBadge(href) then Badge(BadgeSrc(href))
    else if StartsWith(href, "http") then Picture(href)
    else Picture(RepoBase + DropPrefix(href, "./"))
  }

  /** As written, a parent-folder source ../path has the "./" inside its
      "../" removed: ../logo.png is fetched as docs/.logo.png, not as
      docs/../logo.png. */
  lemma ParentImageMangled(path: string)
    requires !IsBadge("../" + path)
    ensures RewriteImage("../" + path) == Picture(RepoBase + "." + path)
    ensures RewriteImage("../" + path) != Picture(RepoBase + "../" + path)
  {
    var href := "../" + path;
    assert href[0] == '.' && href[1] == '.';
    assert !OccursAt(href, "./", 0);
    assert OccursAt(href, "./", 1);
    assert IndexOf(href, "./") == Some(1);
    assert href[..1] + "" + href[3..] == "." + path;
    assert |RepoBase + "." + path| != |RepoBase + "../" + path|;
  }

  /** With only a leading ./ dropped, every other relative source, ../
      included, reaches the docs folder exactly as written. */
  lemma FixedKeepsPath(href: string)
    requires !IsBadge(href) && !StartsWith(href, "http") && !StartsWith(href, "./")
    ensures RewriteImageFixed(href) == Picture(RepoBase + href)
  {
  }

  /** The two rules agree except on sources with a "./" that is not leading. */
  lemma FixedAgrees(href: string)
    requires StartsWith(href, "./") || !Contains(href, "./")
    ensures RewriteImage(href) == RewriteImageFixed(href)
  {
    if StartsWith(href, "./") {
      assert OccursAt(href, "./", 0);
    }
  }
}
