/** The id given to every rendered heading (renderer.heading in
    docs/md-to-html.js): the heading text lower-cased, with <...> tag spans
    deleted, then every character other than a word character, whitespace or
    '-' deleted, then every whitespace character turned into '-'. */
module Slug {
  import opened Strings

  predicate IsUpper(c: char) { 'A' <= c <= 'Z' }
  predicate IsLower(c: char) { 'a' <= c <= 'z' }
  predicate IsDigit(c: char) { '0' <= c <= '9' }

  /** The regular-expression class \w: ECMAScript defines it as [A-Za-z0-9_],
      and only the u and i flags together would widen it. */
  predicate IsWordChar(c: char) {
    IsUpper(c) || IsLower(c) || IsDigit(c) || c == '_'
  }

  /** The regular-expression class \s: the ECMAScript WhiteSpace and
      LineTerminator code points. */
  predicate IsSpace(c: char) {
    c == '\t' || c == '\n' || c == '\U{000B}' || c == '\U{000C}' || c == '\r' || c == ' '
    || c == '\U{00A0}' || c == '\U{1680}' || ('\U{2000}' <= c <= '\U{200A}')
    || c == '\U{2028}' || c == '\U{2029}' || c == '\U{202F}' || c == '\U{205F}'
    || c == '\U{3000}' || c == '\U{FEFF}'
  }

  /** The characters that the class [^\w\s-] does not match. */
  predicate IsKept(c: char) {
    IsWordChar(c) || IsSpace(c) || c == '-'
  }

  /** The characters a finished slug is made of. */
  predicate IsSlugChar(c: char) {
    IsLower(c) || IsDigit(c) || c == '_' || c == '-'
  }

  predicate IsSlug(s: string) {
    forall i :: 0 <= i < |s| ==> IsSlugChar(s[i])
  }

  /** No '<' is followed, anywhere later, by a '>': the string holds no span
      that /<[^>]*>/ could match. */
  predicate NoTag(s: string) {
    forall i, j :: 0 <= i < j < |s| && s[i] == '<' ==> s[j] != '>'
  }

  /** toLowerCase on one character, for ASCII letters. */
  function LowerChar(c: char): (d: char)
    ensures !IsUpper(d)
    ensures IsUpper(c) ==> IsLower(d) && d as int == c as int + 32
    ensures !IsUpper(c) ==> d == c
  {
    if IsUpper(c) then (c as int + 32) as char else c
  }

  /** text.toLowerCase() */
  function ToLower(s: string): (r: string)
    ensures |r| == |s|
    ensures forall i :: 0 <= i < |s| ==> r[i] == LowerChar(s[i])
  {
    if s == [] then [] else [LowerChar(s[0])] + ToLower(s[1..])
  }

  /** .replace(/<[^>]*>/g, ''): scanning left to right, a '<' that has a '>'
      somewhere after it starts a match that ends at the first such '>', and
      the whole span is deleted; a '<' with no '>' after it is kept. */
  function StripTags(s: string): (r: string)
    ensures |r| <= |s|
    ensures forall c :: c in r ==> c in s
    ensures NoTag(r)
    ensures '<' !in s ==> r == s
    ensures '>' !in s ==> r == s
    decreases |s|
  {
    if s == [] then []
    else if s[0] == '<' && '>' in s[1..] then
      var close := |TakeUntil(s[1..], '>')| + 1;
      assert s[close] == '>';
      StripTags(s[close + 1..])
    else
      [s[0]] + StripTags(s[1..])
  }

  /** A first character other than '<' is kept by the tag scan. */
  lemma StripTagsCons(s: string)
    requires |s| > 0 && s[0] != '<'
    ensures StripTags(s) == [s[0]] + StripTags(s[1..])
  {
  }

  /** Text before the first '<' passes through the tag scan untouched. */
  lemma {:induction false} StripTagsPrefix(x: string, y: string)
    requires '<' !in x
    ensures StripTags(x + y) == x + StripTags(y)
    decreases |x|
  {
    if x == [] {
      assert x + y == y;
    } else {
      assert '<' !in x[1..];
      StripTagsPrefix(x[1..], y);
      StripTagsPrefixStep(x, y);
    }
  }

  /** One step of StripTagsPrefix: its first character. */
  lemma StripTagsPrefixStep(x: string, y: string)
    requires x != [] && x[0] != '<'
    requires StripTags(x[1..] + y) == x[1..] + StripTags(y)
    ensures StripTags(x + y) == x + StripTags(y)
  {
    AppendCons(x, y);
    StripTagsCons(x + y);
    AppendAssoc([x[0]], x[1..], StripTags(y));
  }

  /** A complete tag span <t> is deleted as a whole, together with nothing
      before it, and the scan carries on after its '>'. */
  lemma StripTagsSpan(x: string, t: string, y: string)
    requires '<' !in x && '>' !in t
    ensures StripTags(x + ['<'] + t + ['>'] + y) == x + StripTags(y)
  {
    SpanRegroup(x, t, y);
    StripTagsPrefix(x, ['<'] + t + ['>'] + y);
    StripTagsLeadingSpan(t, y);
  }

  lemma SpanRegroup(x: string, t: string, y: string)
    ensures x + ['<'] + t + ['>'] + y == x + (['<'] + t + ['>'] + y)
  {
  }

  lemma StripTagsLeadingSpan(t: string, y: string)
    requires '>' !in t
    ensures StripTags(['<'] + t + ['>'] + y) == StripTags(y)
  {
    TagSpanShape(t, y);
  }

  /** Where the scan finds the end of a leading <t>. */
  lemma TagSpanShape(t: string, y: string)
    requires '>' !in t
    ensures var s := ['<'] + t + ['>'] + y;
      s[0] == '<' && '>' in s[1..] && |TakeUntil(s[1..], '>')| == |t| && s[|t| + 2..] == y
  {
    var s := ['<'] + t + ['>'] + y;
    var rest := t + ['>'] + y;
    assert s[1..] == rest;
    assert rest[|t|] == '>';
    assert rest == t + (['>'] + y);
    TakeUntilAppend(t, ['>'] + y, '>');
    assert TakeUntil(['>'] + y, '>') == [];
  }

  /** .replace(/[^\w\s-]/g, '') */
  function DropDisallowed(s: string): (r: string)
    ensures |r| <= |s|
    ensures forall c :: c in r <==> c in s && IsKept(c)
    ensures (forall i :: 0 <= i < |s| ==> IsKept(s[i])) ==> r == s
    ensures |s| == 1 ==> r == if IsKept(s[0]) then s else []
  {
    if s == [] then []
    else if IsKept(s[0]) then [s[0]] + DropDisallowed(s[1..])
    else DropDisallowed(s[1..])
  }

  /** .replace(/\s/g, '-') */
  function DashSpaces(s: string): (r: string)
    ensures |r| == |s|
    ensures forall i :: 0 <= i < |s| ==> r[i] == if IsSpace(s[i]) then '-' else s[i]
  {
    if s == [] then [] else [if IsSpace(s[0]) then '-' else s[0]] + DashSpaces(s[1..])
  }

  /** The class filter works character by character: filtering a
      concatenation filters each part and keeps their order. */
  lemma {:induction false} DropDisallowedAppend(x: string, y: string)
    ensures DropDisallowed(x + y) == DropDisallowed(x) + DropDisallowed(y)
    decreases |x|
  {
    if x == [] {
      assert x + y == y;
    } else {
      var xy := x + y;
      assert xy[0] == x[0] && xy[1..] == x[1..] + y;
      DropDisallowedAppend(x[1..], y);
    }
  }

  lemma ToLowerAppend(x: string, y: string)
    ensures ToLower(x + y) == ToLower(x) + ToLower(y)
  {
    var l, r := ToLower(x + y), ToLower(x) + ToLower(y);
    forall i | 0 <= i < |x + y| ensures l[i] == r[i] {
      if i < |x| {
        assert (x + y)[i] == x[i];
      } else {
        assert (x + y)[i] == y[i - |x|];
      }
    }
  }

  /** The id renderer.heading puts on a heading whose text is `text`. It
      holds only lower-case letters, digits, '_' and '-' (no whitespace, no
      upper case, no '<' or '>'), and it is never longer than the text. */
  function Slugify(text: string): (slug: string)
    ensures IsSlug(slug)
    ensures |slug| <= |text|
  {
    var lower := ToLower(text);
    var stripped := StripTags(lower);
    var kept := DropDisallowed(stripped);
    assert forall c :: c in stripped ==> !IsUpper(c) by {
      forall c | c in stripped ensures !IsUpper(c) {
        var i :| 0 <= i < |lower| && lower[i] == c;
      }
    }
    assert forall i :: 0 <= i < |kept| ==> !IsSpace(kept[i]) ==> IsSlugChar(kept[i]) by {
      forall i | 0 <= i < |kept| ensures !IsSpace(kept[i]) ==> IsSlugChar(kept[i]) {
        assert kept[i] in kept;
      }
    }
    DashSpaces(kept)
  }

  /** A tag inside a heading contributes nothing to its slug, provided no
      '<' comes before it. */
  lemma SlugIgnoresTag(x: string, t: string, y: string)
    requires '<' !in x && '>' !in t
    ensures Slugify(x + "<" + t + ">" + y) == Slugify(x + y)
  {
    var lx, lt, ly := ToLower(x), ToLower(t), ToLower(y);
    ToLowerAppend(x + "<" + t + ">", y);
    ToLowerAppend(x + "<" + t, ">");
    ToLowerAppend(x + "<", t);
    ToLowerAppend(x, "<");
    ToLowerAppend(x, y);
    assert ToLower("<") == "<" && ToLower(">") == ">";
    assert ToLower(x + "<" + t + ">" + y) == lx + ['<'] + lt + ['>'] + ly;
    assert '<' !in lx by {
      forall i | 0 <= i < |lx| ensures lx[i] != '<' {
        assert x[i] in x;
      }
    }
    assert '>' !in lt by {
      forall i | 0 <= i < |lt| ensures lt[i] != '>' {
        assert t[i] in t;
      }
    }
    StripTagsSpan(lx, lt, ly);
    StripTagsPrefix(lx, ly);
  }

  /** A heading with nothing for the filters to delete keeps its length: its
      slug is its lower-cased text with each whitespace character made '-'. */
  lemma PlainHeadingSlug(text: string)
    requires forall i :: 0 <= i < |text| ==> IsKept(text[i])
    ensures Slugify(text) == DashSpaces(ToLower(text))
    ensures |Slugify(text)| == |text|
  {
    var lower := ToLower(text);
    forall i | 0 <= i < |lower| ensures IsKept(lower[i]) && lower[i] != '<' {
      assert IsKept(text[i]);
    }
  }

  /** A heading without '>' has no tag to delete, and a character outside
      word characters, whitespace and '-' (punctuation such as the ' and ?
      of "What's New?") adds nothing to its slug. */
  lemma SlugDropsPunctuation(x: string, c: char, y: string)
    requires !IsKept(c) && c != '>' && '>' !in x && '>' !in y
    ensures Slugify(x + [c] + y) == Slugify(x + y)
  {
    LowerAroundChar(x, c, y);
    DropDisallowedChar(ToLower(x), c, ToLower(y));
  }

  /** Lower-casing x + [c] + y for a c that is not a letter, and keeping
      out '>'. */
  lemma LowerAroundChar(x: string, c: char, y: string)
    requires !IsUpper(c) && c != '>' && '>' !in x && '>' !in y
    ensures ToLower(x + [c] + y) == ToLower(x) + [c] + ToLower(y)
    ensures ToLower(x + y) == ToLower(x) + ToLower(y)
    ensures '>' !in ToLower(x + [c] + y) && '>' !in ToLower(x + y)
  {
    var lx, ly := ToLower(x), ToLower(y);
    ToLowerAppend(x + [c], y);
    ToLowerAppend(x, [c]);
    ToLowerAppend(x, y);
    assert ToLower([c]) == [c];
    forall i | 0 <= i < |lx| ensures lx[i] != '>' {
      assert x[i] in x;
    }
    forall i | 0 <= i < |ly| ensures ly[i] != '>' {
      assert y[i] in y;
    }
  }

  /** The class filter deletes a single character it does not keep. */
  lemma DropDisallowedChar(a: string, c: char, b: string)
    requires !IsKept(c)
    ensures DropDisallowed(a + [c] + b) == DropDisallowed(a + b)
  {
    DropDisallowedAppend(a + [c], b);
    DropDisallowedAppend(a, [c]);
    DropDisallowedAppend(a, b);
    assert DropDisallowed(a) + [] == DropDisallowed(a);
  }

  /** A stray '>', as in an arrow ->, adds nothing to the slug when no '<'
      comes before it: no tag can end there, and the class filter drops it. */
  lemma SlugIgnoresStrayClose(x: string, y: string)
    requires '<' !in x
    ensures Slugify(x + ">" + y) == Slugify(x + y)
  {
    LowerAroundClose(x, y);
    StripStrayClose(ToLower(x), ToLower(y));
    DropDisallowedChar(ToLower(x), '>', StripTags(ToLower(y)));
  }

  lemma LowerAroundClose(x: string, y: string)
    requires '<' !in x
    ensures ToLower(x + ">" + y) == ToLower(x) + ">" + ToLower(y)
    ensures ToLower(x + y) == ToLower(x) + ToLower(y)
    ensures '<' !in ToLower(x)
  {
    var lx := ToLower(x);
    ToLowerAppend(x + ">", y);
    ToLowerAppend(x, ">");
    ToLowerAppend(x, y);
    assert ToLower(">") == ">";
    forall i | 0 <= i < |lx| ensures lx[i] != '<' {
      assert x[i] in x;
    }
  }

  lemma StripStrayClose(a: string, b: string)
    requires '<' !in a
    ensures StripTags(a + ">" + b) == a + ">" + StripTags(b)
    ensures StripTags(a + b) == a + StripTags(b)
  {
    AppendAssoc(a, ">", b);
    StripTagsPrefix(a, ">" + b);
    AppendCons(">", b);
    StripTagsCons(">" + b);
    AppendAssoc(a, ">", StripTags(b));
    StripTagsPrefix(a, b);
  }

  /** Every step keeps a string made of slug characters as it is. */
  lemma {:induction false} ToLowerKeepsSlug(s: string)
    requires IsSlug(s)
    ensures ToLower(s) == s
  {
    var r := ToLower(s);
    forall i | 0 <= i < |s| ensures r[i] == s[i] {
      assert IsSlugChar(s[i]);
    }
  }

  /** The slugs are exactly the strings Slugify leaves unchanged. */
  lemma SlugFixedPoints(s: string)
    ensures Slugify(s) == s <==> IsSlug(s)
  {
    if IsSlug(s) {
      ToLowerKeepsSlug(s);
      assert forall i :: 0 <= i < |s| ==> IsKept(s[i]) by {
        forall i | 0 <= i < |s| ensures IsKept(s[i]) {
          assert IsSlugChar(s[i]);
        }
      }
      var d := DashSpaces(s);
      forall i | 0 <= i < |s| ensures d[i] == s[i] {
        assert IsSlugChar(s[i]);
      }
    }
  }

  /** Generating the slug of a slug changes nothing. */
  lemma SlugIdempotent(text: string)
    ensures Slugify(Slugify(text)) == Slugify(text)
  {
    SlugFixedPoints(Slugify(text));
  }
}
