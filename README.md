# Frontier documentation page: renderer and loader model

The Frontier documentation page (`docs/md-to-html.js`) fetches a markdown
document from the framework's repository, renders it with the `marked`
library and injects it into the page. Around the library call it does four
small string computations, and this project models and proves them:

- **Heading ids** (`renderer.heading`): the slug of a heading's text
  (`slug.dfy`, module `Slug`).
- **Link hrefs** (`renderer.link`): external links open in a new tab.
  Relative links to allow-listed `.md` documents are rewritten to the page's
  own `./?FILE#anchor` form. Every other link is left as written
  (`links.dfy`, module `Links`).
- **Image sources** (`renderer.image`): shields.io badges get the site's
  style parameters. Relative images are resolved against the repository's
  `docs/` folder (`images.dfy`, module `Images`).
- **Document selection** (`loadContent`): the document name comes from the
  query string, is checked against `DOCS_WHITELIST` before any request, and
  is then fetched. `scrollToAnchor` picks its target from the hash
  (`loader.dfy`, module `Loader`).

`config.dfy` holds `CONFIG` and `DOCS_WHITELIST`. `strings.dfy` models the
JavaScript string operations these are built from: `startsWith`, `endsWith`,
`includes`, `replace` with a string pattern (first occurrence only), and
`split('#')`. `Strings.IndexOf` is the search behind `includes` and
`replace`; the file itself never calls `indexOf`.

The modelled computations are pure (the DOM writes of `loadContent` are
not modelled), so every operation is a function. The browser's location, the response status and
the `Date.now()` stamp are parameters. Some properties relate several
operations, for example that every link rewritten to a document opens that
document. Those are stated as lemmas.

Some facts the model relies on:

- The regular-expression class `\s` is modelled exactly as ECMAScript
  defines it, Unicode spaces included.
- The class `\w` is ASCII only: ECMAScript defines it as `[A-Za-z0-9_]`,
  and only the `u` and `i` flags together would widen it.
- `toLowerCase` is modelled for ASCII letters only (see "Left out").

## Model

| member | source | states |
|---|---|---|
| Strings.IndexOf | docs/md-to-html.js:50 | the search behind `includes`: the result is the first index where the pattern occurs, or None exactly when it occurs nowhere |
| Strings.ReplaceFirst | docs/md-to-html.js:34 | a string-pattern `replace` changes only the first occurrence, and returns the input unchanged when there is none |
| Strings.TakeUntil | docs/md-to-html.js:36 | `split(c)[0]` is the longest prefix without `c`; it is all of the input exactly when `c` does not occur |
| Strings.DropPrefix | docs/md-to-html.js:34 | `replace(/^\.\//, '')` and `startsWith('./') ? substring(2)` (line 79): with the prefix, the input is the prefix followed by the result; without it, the input is returned unchanged |
| Strings.SecondPiece | docs/md-to-html.js:36 | `split(c)[1]` is undefined exactly when `c` is absent; otherwise it is the text after the first `c`, up to the second `c` or the end |
| Config.WhitelistShape | docs/md-to-html.js:10-12 | every allow-listed name is a bare `.md` file name with no `#`, `/` or `?`, not starting with `.` or `h` |
| Config.DefaultAllowed | docs/md-to-html.js:4-12 | the default document `README.md` is on the allow-list |
| Slug.ToLower | docs/md-to-html.js:18 | lower-casing keeps the length, maps A-Z to a-z and leaves every other character alone |
| Slug.StripTags | docs/md-to-html.js:19 | after `/<[^>]*>/g` no `<` is followed by a `>`; it only deletes characters, and text without `<`, or without `>`, is unchanged |
| Slug.StripTagsPrefix | docs/md-to-html.js:19 | text before the first `<` passes through the tag deletion unchanged |
| Slug.StripTagsSpan | docs/md-to-html.js:19 | a complete `<t>` span is deleted as a whole and nothing before it is touched |
| Slug.DropDisallowed | docs/md-to-html.js:20 | `/[^\w\s-]/g` keeps exactly the word, whitespace and `-` characters, deletes a single other character, and changes nothing when all characters are kept |
| Slug.DropDisallowedAppend | docs/md-to-html.js:20 | the filter works character by character: filtering a concatenation filters each part and keeps their order |
| Slug.DropDisallowedChar | docs/md-to-html.js:20 | deleting one character outside the kept class anywhere in a text does not change the filtered text |
| Slug.DashSpaces | docs/md-to-html.js:21 | each whitespace character becomes `-`, every other character is kept, and the length is unchanged |
| Slug.Slugify | docs/md-to-html.js:18-21 | a slug holds only `a-z`, `0-9`, `_` and `-` (no whitespace, no upper case, no `<` or `>`), and is never longer than its heading text |
| Slug.SlugDropsPunctuation | docs/md-to-html.js:18-21 | in a heading without `>`, a character other than a word character, whitespace or `-` adds nothing to the slug |
| Slug.SlugFixedPoints | docs/md-to-html.js:18-21 | slug generation leaves a string unchanged exactly when it is made of slug characters |
| Slug.SlugIdempotent | docs/md-to-html.js:18-21 | generating the slug of a slug returns it unchanged |
| Slug.SlugIgnoresTag | docs/md-to-html.js:18-21 | a tag in a heading adds nothing to its slug when no `<` comes before the tag |
| Slug.SlugIgnoresStrayClose | docs/md-to-html.js:18-21 | a stray `>`, as in an arrow `->`, adds nothing to the slug when no `<` comes before it |
| Slug.PlainHeadingSlug | docs/md-to-html.js:18-21 | a heading with nothing to delete keeps its length: its lower-cased text with whitespace turned into `-` |
| Links.CleanHref | docs/md-to-html.js:34 | one leading `./` is dropped, then only the `/` of the first `.md/#` is deleted |
| Links.Fragment | docs/md-to-html.js:36-39 | the anchor is the text after the first `#` up to the second `#` or the end, and empty when there is no `#` |
| Links.Anchor.Href | docs/md-to-html.js:30-44 | an external or unchanged link keeps its href; a document link's href starts with `./?`, the text after it splits at its first `#` back into the file and the anchor, and its length leaves room for nothing else: no `#` for an empty anchor (line 39), nothing after a non-empty one (line 40) |
| Links.RewriteLink | docs/md-to-html.js:25-45 | external exactly for `http` hrefs; rewritten exactly when the guard passes and the file before `#` is allow-listed; the anchor runs from the first `#` of the cleaned href to the second `#` or the end, and is empty without a `#`; otherwise the href is kept verbatim |
| Links.DocFilePassesGuard | docs/md-to-html.js:33-36 | an href whose cleaned file part is a bare `.md` name passes the `.md` guard |
| Links.MdGuardRedundant | docs/md-to-html.js:33-38 | the `.md` guard never decides alone: dropping it and keeping only the allow-list check gives the same link |
| Links.QueryFormUnchanged | docs/md-to-html.js:29-44 | an href already in `./?` form is not rewritten |
| Links.NotListedUnchanged | docs/md-to-html.js:38-44 | a relative href whose file part is not allow-listed is emitted as written |
| Links.RewriteOnce | docs/md-to-html.js:29-44 | feeding an emitted href back through the renderer never rewrites it again, and external links stay external |
| Links.DocLinkRecognised | docs/md-to-html.js:33-41 | `f#a`, `./f#a`, `f/#a` and `./f/#a` with `f` allow-listed all become a link to document `f`, anchor `a` |
| Links.BareDocLinkRecognised | docs/md-to-html.js:33-41 | `f` and `./f` with `f` allow-listed become a link to `f` with no anchor |
| Images.BadgeSrc | docs/md-to-html.js:51-52 | the badge src is the href, then `&` if it has a `?` and `?` otherwise, then `style=flat-square&color=06b6d4` |
| Images.RewriteImage | docs/md-to-html.js:47-57 | a badge exactly when the src contains `shields.io`, with the badge src; an `http` src is kept verbatim; any other src is the repository base followed by the src with its first `./` removed |
| Images.BadgeKeepsPath | docs/md-to-html.js:50-53 | a badge URL always has a query, and its part before the first `?` is unchanged |
| Images.DotSlashImage | docs/md-to-html.js:55 | `./path` is fetched as base + `path` |
| Images.PlainRelativeImage | docs/md-to-html.js:55 | a relative src with no `./` in it is appended to the base unchanged |
| Images.ParentImageMangled | docs/md-to-html.js:55 | as written, `../path` is fetched as base + `.path`, not base + `../path` |
| Images.RewriteImageFixed | docs/md-to-html.js:55 | the corrected rule: the same classification and badge src, with only a leading `./` dropped from a relative src |
| Images.FixedKeepsPath | docs/md-to-html.js:55 | under the corrected rule every relative src not starting with `./`, `../` included, reaches the base as written |
| Images.FixedAgrees | docs/md-to-html.js:55 | the code and the corrected rule agree on every src whose only `./` is leading |
| Loader.QueryString | docs/md-to-html.js:77 | `search.substring(1)` is the search string without its first character, and empty for an empty search |
| Loader.DocName | docs/md-to-html.js:77-79 | the document name has no `#`; it is the default when the query is empty before its `#`, that text with one leading `./` dropped otherwise |
| Loader.Authorize | docs/md-to-html.js:77-85 | succeeds exactly when the resolved name is allow-listed, with that name; otherwise fails with UNAUTHORIZED |
| Loader.AuthorizeExactly | docs/md-to-html.js:77-85 | document `f` is loaded exactly when `f` is allow-listed and the query up to `#` is `f`, `./f`, or empty with `f` the default |
| Loader.AuthorizeBare | docs/md-to-html.js:77-85 | the query `?f` for an allow-listed `f` loads `f` |
| Loader.DefaultDocument | docs/md-to-html.js:78 | a query that names nothing before its `#` loads `README.md` |
| Loader.FetchUrl | docs/md-to-html.js:86 | the URL is the repository base and the file name, followed by `?t=` and the stamp |
| Loader.Request | docs/md-to-html.js:85-86 | a request is made exactly when the name passes the allow-list, and it is the fetch URL of the resolved name, an allow-listed one |
| Loader.OnlyAllowListedRequested | docs/md-to-html.js:85-86 | every request goes to one of the four allow-listed documents |
| Loader.Load | docs/md-to-html.js:84-118 | the document is shown exactly when it is authorised and the response is ok; otherwise UNAUTHORIZED if nothing was requested, or 404 |
| Loader.ScrollTarget | docs/md-to-html.js:63-65 | there is a target exactly when the hash is non-empty, and it is the hash without its `#` |
| Loader.DocLinkOpensDoc | docs/md-to-html.js:38-40 | following a rewritten link loads the document it named and scrolls to the anchor it named |
| Loader.BackLinkLoadsReadme | docs/md-to-html.js:113 | the not-found page's "Back to docs" link loads `README.md` |
| Loader.ListedLinkLoads | docs/md-to-html.js:77-85 | the link `./?f` for an allow-listed `f` loads `f` |

## Findings

| source | as written | input that shows it | evidently intended | confidence | as-written member | corrected member |
|---|---|---|---|---|---|---|
| docs/md-to-html.js:55 | `href.replace('./', '')` removes the first `./` anywhere in the src | `../logo.png` becomes base + `.logo.png`, which is `docs/.logo.png` | drop only a leading `./`, as the link renderer does with `/^\.\//` at line 34, so the src becomes base + `../logo.png` | medium; not executed | Images.ParentImageMangled | Images.FixedKeepsPath |

`Images.RewriteImage` keeps the code's behaviour. `Images.RewriteImageFixed`
is the corrected rule. `Images.FixedAgrees` shows the two differ only on a
src with a non-leading `./`.

## Left out

- The markdown library (`marked`, `this.parser.parseInline`, `marked.parse`): the rendered link and heading text is not part of the model, and neither is the alt text.
- The HTML around the modelled values (tags, class lists, `alt`): the markup is fixed, and the code does no escaping.
- Network and clock: `fetch` is not modelled. The `responseOk` parameter of `Loader.Load` stands for the whole try block of lines 84-107 succeeding: `fetch` resolving, `response.ok` holding, and nothing after it (`response.text`, `marked.parse`, the DOM updates, `hljs`) throwing. Any of those failing ends on the same not-found page. The decimal text of `Date.now()` is the `stamp` parameter of `Loader.FetchUrl`.
- DOM and UI work: `innerHTML`, moving the first `h1` into the header, `document.title`, `classList`, `hljs.highlightElement`, `scrollIntoView`, `setTimeout`, and the `popstate` and `hashchange` listeners.
- Loader.Load: both errors lead to the same inline not-found markup (lines 108-117), which is not modelled. This file shows that message inline and does not redirect.
- Loader.ScrollTarget: does not model the `decodeURIComponent` applied to the hash, a library call.
- Loader.Navigate: the browser's URL parsing is modelled only for the `./?Q#H` hrefs the link renderer emits. It removes every tab, LF and CR, strips trailing spaces and C0 control characters, and percent-encodes C0 controls, non-ASCII characters and some ASCII characters (in the query: space, `"`, `#`, `<`, `>`, and `'` for http(s)); none of this is modelled. Together with the `decodeURIComponent` that `Loader.ScrollTarget` leaves out, the encoding cancels for the anchor, but the removals do not: the anchor of `<README.md#a >` reaches the browser as `a`, while the model gives `a `. A `%` in the anchor is decoded too: `a%41` scrolls to `aA`, and a lone `%` makes `decodeURIComponent` throw so nothing scrolls.
- Loader.DocLinkOpensDoc: its anchor clause holds in the browser only for anchors with no `%`, no tab, LF or CR, and no trailing space or control character, for the reasons on the Navigate line; the document clause holds for every link.
- Slug.ToLower: lower-cases ASCII `A`-`Z` only. Non-ASCII case mappings of `toLowerCase` are not modelled, such as the Kelvin sign to `k` or `İ` to two code points.
- Characters are Unicode scalar values, whereas JavaScript strings are UTF-16 code units, so a surrogate pair counts as one character here.
- `CONFIG.navbarHeight` is declared (`Config.NavbarHeight`), but this file never reads it, so nothing uses it.
