/** `re.search` for the one shape of regular expression the wrapper uses:
    a literal prefix, a greedy one-or-more run of a character class captured
    as group 1, and a terminator character outside the class —
    `(\d+)%` and `Project '([^']+)'`. */
module RegexSearch {
  import opened Text
  import opened Wrappers

  /** The character classes used: `\d`, `\w`, `\s` and `[^c]`. */
  datatype CharClass = Digit | Word | Space | NotChar(excluded: char)

  predicate InClass(cls: CharClass, c: char) {
    match cls
    case Digit => IsDigit(c)
    case Word => IsWordChar(c)
    case Space => IsSpace(c)
    case NotChar(e) => c != e
  }

  /** `prefix(cls+)terminator`; the terminator must lie outside the class,
      so the greedy run never has to give characters back. */
  datatype RunPattern = RunPattern(prefix: string, cls: CharClass, terminator: char)

  predicate ValidPattern(pat: RunPattern) {
    !InClass(pat.cls, pat.terminator)
  }

  /** A match found by the search: `s[start..end]` is group 1 and
      `s[end]` the terminator. */
  datatype Span = Span(start: nat, end: nat)

  /** The pattern matches at `a` with group 1 spanning `s[a + |prefix|..q]`. */
  predicate MatchAt(s: string, pat: RunPattern, a: int, q: int) {
    && OccursAt(s, pat.prefix, a)
    && a + |pat.prefix| < q < |s|
    && (forall j :: a + |pat.prefix| <= j < q ==> InClass(pat.cls, s[j]))
    && s[q] == pat.terminator
  }

  /** The end of the maximal run of `cls` characters from `p`. */
  function RunEnd(s: string, cls: CharClass, p: nat): (q: nat)
    requires p <= |s|
    ensures p <= q <= |s|
    ensures forall j :: p <= j < q ==> InClass(cls, s[j])
    ensures q == |s| || !InClass(cls, s[q])
    decreases |s| - p
  {
    if p < |s| && InClass(cls, s[p]) then RunEnd(s, cls, p + 1) else p
  }

  /** A maximal run ending at `q` is the run `RunEnd` finds. */
  lemma RunEndAt(s: string, cls: CharClass, p: nat, q: nat)
    requires p <= q <= |s|
    requires forall j :: p <= j < q ==> InClass(cls, s[j])
    requires q == |s| || !InClass(cls, s[q])
    ensures RunEnd(s, cls, p) == q
  {
  }

  /** At a given start there is at most one match: the greedy run. */
  lemma MatchAtRunEnd(s: string, pat: RunPattern, a: nat, q: int)
    requires ValidPattern(pat) && MatchAt(s, pat, a, q)
    ensures q == RunEnd(s, pat.cls, a + |pat.prefix|)
  {
  }

  /** The search from position `p` on, trying each start from left to
      right: `None` exactly when nothing matches, otherwise the leftmost
      match. */
  function SearchFrom(s: string, pat: RunPattern, p: nat): (r: Option<Span>)
    requires ValidPattern(pat) && p <= |s|
    ensures r.None? <==> forall a, q :: p <= a ==> !MatchAt(s, pat, a, q)
    ensures r.Some? ==> && p <= r.value.start
                        && MatchAt(s, pat, r.value.start, r.value.end)
                        && forall a, q :: p <= a < r.value.start ==> !MatchAt(s, pat, a, q)
    decreases |s| - p
  {
    if p == |s| then None
    else
      var g := p + |pat.prefix|;
      if OccursAt(s, pat.prefix, p) then
        var q := RunEnd(s, pat.cls, g);
        if g < q < |s| && s[q] == pat.terminator then
          assert MatchAt(s, pat, p, q);
          Some(Span(p, q))
        else
          NoMatchAt(s, pat, p);
          SearchFrom(s, pat, p + 1)
      else
        SearchFrom(s, pat, p + 1)
  }

  /** When the greedy run at `p` is empty or not followed by the
      terminator, nothing matches at `p`. */
  lemma NoMatchAt(s: string, pat: RunPattern, p: nat)
    requires ValidPattern(pat) && p + |pat.prefix| <= |s|
    requires var g := p + |pat.prefix|;
             var q := RunEnd(s, pat.cls, g);
             !(g < q < |s| && s[q] == pat.terminator)
    ensures forall q :: !MatchAt(s, pat, p, q)
  {
    forall q | MatchAt(s, pat, p, q) ensures q == RunEnd(s, pat.cls, p + |pat.prefix|) {
      MatchAtRunEnd(s, pat, p, q);
    }
  }

  /** `re.search(pattern, s)`. */
  function Search(s: string, pat: RunPattern): Option<Span>
    requires ValidPattern(pat)
  {
    SearchFrom(s, pat, 0)
  }

  /** Group 1 of a match. */
  function Group(s: string, pat: RunPattern, sp: Span): string
    requires MatchAt(s, pat, sp.start, sp.end)
  {
    s[sp.start + |pat.prefix|..sp.end]
  }

  /** The search finds the first match when nothing matches before it. */
  lemma SearchFindsFirst(s: string, pat: RunPattern, a: nat, q: nat)
    requires ValidPattern(pat) && MatchAt(s, pat, a, q)
    requires forall a', q' :: 0 <= a' < a ==> !MatchAt(s, pat, a', q')
    ensures Search(s, pat) == Some(Span(a, q))
  {
    var r := Search(s, pat);
    assert r.Some?;
    MatchAtRunEnd(s, pat, a, q);
    MatchAtRunEnd(s, pat, a, r.value.end);
  }
}
