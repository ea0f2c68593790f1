/** The few JavaScript string operations the renderer callbacks and the
    loader are built from: startsWith, endsWith, includes (through the first
    index at which the pattern occurs), a replace with a string pattern
    (first occurrence only) and the pieces of split('#'). */
module Strings {

  datatype Option<T> = None | Some(value: T)

  /** s.startsWith(p) */
  predicate StartsWith(s: string, p: string) {
    |p| <= |s| && s[..|p|] == p
  }

  /** s.endsWith(p) */
  predicate EndsWith(s: string, p: string) {
    |p| <= |s| && s[|s| - |p|..] == p
  }

  /** p occurs in s starting at index k. */
  predicate OccursAt(s: string, p: string, k: int) {
    0 <= k && k + |p| <= |s| && s[k..k + |p|] == p
  }

  lemma OccursShift(s: string, p: string)
    requires |s| > 0
    ensures OccursAt(s, p, 0) <==> StartsWith(s, p)
    ensures forall j :: 1 <= j ==> (OccursAt(s, p, j) <==> OccursAt(s[1..], p, j - 1))
  {
    forall j | 1 <= j ensures OccursAt(s, p, j) <==> OccursAt(s[1..], p, j - 1) {
      if j + |p| <= |s| {
        assert s[1..][j - 1..j - 1 + |p|] == s[j..j + |p|];
      }
    }
  }

  /** The first index at which p occurs in s, or None when there is none:
      the search behind s.includes(p) and the string-pattern s.replace(p, q). */
  function IndexOf(s: string, p: string): (r: Option<nat>)
    ensures r.Some? ==> OccursAt(s, p, r.value)
    ensures r.Some? ==> forall j :: 0 <= j < r.value ==> !OccursAt(s, p, j)
    ensures r.None? ==> forall j :: !OccursAt(s, p, j)
    decreases |s|
  {
    if StartsWith(s, p) then Some(0)
    else if |s| == 0 then None
    else
      OccursShift(s, p);
      match IndexOf(s[1..], p)
      case Some(k) => Some(k + 1)
      case None => None
  }

  /** s.includes(p) */
  predicate Contains(s: string, p: string) {
    IndexOf(s, p).Some?
  }

  lemma ContainsAt(s: string, p: string, k: int)
    requires OccursAt(s, p, k)
    ensures Contains(s, p)
  {
  }

  /** p cannot occur where its first character does not. */
  lemma FirstCharAbsent(s: string, p: string)
    requires |p| > 0 && p[0] !in s
    ensures !Contains(s, p)
  {
    forall j | 0 <= j && j + |p| <= |s| ensures !OccursAt(s, p, j) {
      assert s[j..j + |p|][0] == s[j];
    }
  }

  /** An occurrence in a suffix is an occurrence in the whole string. */
  lemma ContainsInSuffix(s: string, p: string, k: nat)
    requires k <= |s| && Contains(s[k..], p)
    ensures Contains(s, p)
  {
    var i := IndexOf(s[k..], p).value;
    assert s[k..][i..i + |p|] == s[k + i..k + i + |p|];
    ContainsAt(s, p, k + i);
  }

  /** s.replace(p, q) with a string pattern: only the first occurrence of p
      is replaced; without one, s is returned unchanged. */
  function ReplaceFirst(s: string, p: string, q: string): (r: string)
    ensures !Contains(s, p) ==> r == s
    ensures Contains(s, p) ==>
      var k := IndexOf(s, p).value;
      r == s[..k] + q + s[k + |p|..] && StartsWith(r, s[..k])
  {
    match IndexOf(s, p)
    case None => s
    case Some(k) => s[..k] + q + s[k + |p|..]
  }

  /** The text before the first c, i.e. s.split(c)[0]; all of s if c does not
      occur. The contract characterises the result uniquely. */
  function TakeUntil(s: string, c: char): (r: string)
    ensures StartsWith(s, r)
    ensures c !in r
    ensures |r| < |s| ==> s[|r|] == c

  {
    if s == [] then []
    else if s[0] == c then []
    else [s[0]] + TakeUntil(s[1..], c)
  }

  lemma TakeUntilWhole(s: string, c: char)
    ensures |TakeUntil(s, c)| == |s| <==> c !in s
  {
    var r := TakeUntil(s, c);
    if |r| == |s| {
      assert r == s;
    }
  }

  lemma TakeUntilAbsent(s: string, c: char)
    requires c !in s
    ensures TakeUntil(s, c) == s
  {
    TakeUntilWhole(s, c);
  }

  /** A suffix's ending is the whole string's ending. */
  lemma EndsWithSuffix(s: string, k: nat, p: string)
    requires k <= |s| && EndsWith(s[k..], p)
    ensures EndsWith(s, p)
  {
    assert s[|s| - |p|..] == s[k..][|s| - k - |p|..];
  }

  /** s with one leading p removed, if s starts with p: the shape of both
      href.replace(/^\.\//, '') and
      fileName.startsWith('./') ? fileName.substring(2) : fileName. */
  function DropPrefix(s: string, p: string): (r: string)
    ensures StartsWith(s, p) ==> s == p + r
    ensures !StartsWith(s, p) ==> r == s
  {
    if StartsWith(s, p) then s[|p|..] else s
  }

  lemma DropPrefixIsSuffix(s: string, p: string)
    ensures var r := DropPrefix(s, p); r == s[|s| - |r|..]
  {
  }

  /** The second piece of s.split(c), or None when c does not occur (the
      JavaScript value undefined). */
  function SecondPiece(s: string, c: char): (r: Option<string>)
    ensures r.None? <==> c !in s
    ensures r.Some? ==> c !in r.value && StartsWith(s, TakeUntil(s, c) + [c] + r.value)
    ensures r.Some? ==> var n := |TakeUntil(s, c)| + 1 + |r.value|; n == |s| || s[n] == c
  {
    var first := TakeUntil(s, c);
    TakeUntilWhole(s, c);
    if |first| == |s| then None
    else
      var rest := s[|first| + 1..];
      assert s[..|first| + 1 + |TakeUntil(rest, c)|] == first + [c] + TakeUntil(rest, c);
      Some(TakeUntil(rest, c))
  }

  /** Concatenation regrouped. */
  lemma AppendAssoc(a: string, b: string, c: string)
    ensures a + b + c == a + (b + c)
  {
  }

  lemma AppendAssoc4(a: string, b: string, c: string, d: string)
    ensures a + b + c + d == a + (b + c + d)
  {
  }

  /** A concatenation split after its first character. */
  lemma AppendCons(x: string, y: string)
    requires x != []
    ensures x == [x[0]] + x[1..]
    ensures (x + y)[0] == x[0] && (x + y)[1..] == x[1..] + y
  {
  }

  /** Splitting a concatenation at the first c. */
  lemma {:induction false} TakeUntilAppend(x: string, y: string, c: char)
    ensures TakeUntil(x + y, c) == if c in x then TakeUntil(x, c) else x + TakeUntil(y, c)
    decreases |x|
  {
    if x == [] {
      assert x + y == y;
    } else {
      AppendCons(x, y);
      if x[0] != c {
        TakeUntilAppend(x[1..], y, c);
        assert c in x <==> c in x[1..];
        if c !in x {
          AppendAssoc([x[0]], x[1..], TakeUntil(y, c));
        }
      }
    }
  }
}
