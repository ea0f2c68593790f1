/** The CONFIG object and the DOCS_WHITELIST array of docs/md-to-html.js. */
module Config {
  import opened Strings

  /** Base URL against which documents and relative images are fetched. */
  const RepoBase: string := "https://raw.githubusercontent.com/frontier-org/frontier/main/docs/"

  /** Document loaded when the query string names none. */
  const DefaultFile: string := "README.md"

  /** Height of the fixed navigation bar; this version of the script never
      reads it. */
  const NavbarHeight: nat := 90

  /** The only documents the page will load or link to internally. */
  const DocsWhitelist: seq<string> := ["README.md", "LOGS.md", "MANUAL.md", "ROADMAP.md"]

  /** The shape every allow-listed name shares, which the link and loader
      proofs rely on: a plain .md file name with no path, query or
      fragment, and not starting with '.' or with "http". */
  predicate IsDocName(f: string) {
    |f| > 3 && EndsWith(f, ".md")
    && '#' !in f && '/' !in f && '?' !in f
    && f[0] != '.' && f[0] != 'h'
  }

  lemma WhitelistShape(f: string)
    requires f in DocsWhitelist
    ensures IsDocName(f)
  {
    var stem := f[..|f| - 3];
    assert f == stem + ".md";
    forall i | 0 <= i < |stem| ensures 'A' <= stem[i] <= 'Z' {
    }
    UpperStemName(stem);
  }

  /** An upper-case stem followed by .md is a plain document name. */
  lemma UpperStemName(stem: string)
    requires |stem| > 0
    requires forall i :: 0 <= i < |stem| ==> 'A' <= stem[i] <= 'Z'
    ensures IsDocName(stem + ".md")
  {
    var f := stem + ".md";
    assert f[|f| - 3..] == ".md";
    forall i | 0 <= i < |f| ensures f[i] != '#' && f[i] != '/' && f[i] != '?' {
      if i < |stem| {
        assert f[i] == stem[i];
      }
    }
  }

  /** A name with a '?' in it is not on the allow-list. */
  lemma QueryNotListed(f: string)
    requires '?' in f
    ensures f !in DocsWhitelist
  {
    forall g | g in DocsWhitelist ensures '?' !in g {
      WhitelistShape(g);
    }
  }

  lemma DefaultAllowed()
    ensures DefaultFile in DocsWhitelist
  {
  }
}
