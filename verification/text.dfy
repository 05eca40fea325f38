/** The Python `str` operations the wrapper relies on, written over `seq<char>`:
    `in` (substring), `startswith`, `endswith`, `lower`, `strip`, `split`,
    `join` and `replace`, plus the character classes behind the regular
    expressions `\d`, `\w` and `\s` and `str.isupper`. */
module Text {

  // ---------------------------------------------------------------------
  // Character classes
  // ---------------------------------------------------------------------

  /** Python's `str.isspace` for one character (and the regex class `\s`,
      which uses the same table): the ASCII controls 9-13 and 28-31, space,
      and the Unicode separators below. */
  predicate IsSpace(c: char) {
    var n := c as int;
    || n == 0x20 || 0x09 <= n <= 0x0d || 0x1c <= n <= 0x1f
    || n == 0x85 || n == 0xa0 || n == 0x1680 || 0x2000 <= n <= 0x200a
    || n == 0x2028 || n == 0x2029 || n == 0x202f || n == 0x205f || n == 0x3000
  }

  /** `\d` on ASCII digits. */
  predicate IsDigit(c: char) { '0' <= c <= '9' }

  /** `\w` on ASCII: letters, digits and underscore. */
  predicate IsWordChar(c: char) {
    'a' <= c <= 'z' || 'A' <= c <= 'Z' || IsDigit(c) || c == '_'
  }

  /** `str.isupper` of a one-character string, on ASCII letters. */
  predicate IsUpper(c: char) { 'A' <= c <= 'Z' }

  // ---------------------------------------------------------------------
  // Prefixes, suffixes and substrings
  // ---------------------------------------------------------------------

  /** Python's `s.startswith(prefix)`. */
  predicate StartsWith(s: string, prefix: string) {
    |prefix| <= |s| && s[..|prefix|] == prefix
  }

  /** Python's `s.endswith(suffix)`. */
  predicate EndsWith(s: string, suffix: string) {
    |suffix| <= |s| && s[|s| - |suffix|..] == suffix
  }

  /** Being a prefix is transitive. */
  lemma StartsWithTrans(s: string, p: string, q: string)
    requires StartsWith(s, p) && StartsWith(p, q)
    ensures StartsWith(s, q)
  {
    assert s[..|q|] == s[..|p|][..|q|];
  }

  /** `sub` occurs in `s` starting at index `i`. */
  predicate OccursAt(s: string, sub: string, i: int) {
    0 <= i && i + |sub| <= |s| && s[i..i + |sub|] == sub
  }

  /** Python's `sub in s`: some start position holds an occurrence. */
  predicate Contains(s: string, sub: string) {
    exists i | 0 <= i <= |s| :: OccursAt(s, sub, i)
  }

  /** The bound on the start position is no restriction. */
  lemma ContainsIff(s: string, sub: string)
    ensures Contains(s, sub) <==> exists i :: OccursAt(s, sub, i)
  {
  }

  /** A witness occurrence is enough to conclude `sub in s`. */
  lemma ContainsAt(s: string, sub: string, i: int)
    requires OccursAt(s, sub, i)
    ensures Contains(s, sub)
  {
    ContainsIff(s, sub);
  }

  /** A string without the first character of `sub` does not contain
      `sub`. */
  lemma AbsentLeadChar(s: string, sub: string)
    requires |sub| > 0 && sub[0] !in s
    ensures !Contains(s, sub)
  {
    forall i | 0 <= i && i + |sub| <= |s| ensures !OccursAt(s, sub, i) {
      assert s[i..i + |sub|][0] == s[i];
    }
  }

  /** An occurrence after the first character is an occurrence. */
  lemma ContainsTail(s: string, sub: string)
    requires |s| > 0
    ensures Contains(s[1..], sub) ==> Contains(s, sub)
  {
    if Contains(s[1..], sub) {
      var i :| 0 <= i <= |s[1..]| && OccursAt(s[1..], sub, i);
      assert s[1..][i..i + |sub|] == s[i + 1..i + 1 + |sub|];
      assert OccursAt(s, sub, i + 1);
    }
  }

  /** An occurrence inside a slice is an occurrence in the whole string. */
  lemma ContainsInSlice(s: string, lo: nat, hi: nat, sub: string)
    requires lo <= hi <= |s| && Contains(s[lo..hi], sub)
    ensures Contains(s, sub)
  {
    ContainsIff(s[lo..hi], sub);
    var i :| OccursAt(s[lo..hi], sub, i);
    forall k | 0 <= k < |sub| ensures s[lo + i + k] == sub[k] {
      assert s[lo..hi][i..i + |sub|][k] == sub[k];
    }
    assert s[lo + i..lo + i + |sub|] == sub;
    ContainsAt(s, sub, lo + i);
  }

  /** If the first character of `sub` never appears in `a`, an occurrence of
      `sub` in `a + b` lies entirely inside `b`. */
  lemma ContainsSkipPrefix(a: string, b: string, sub: string)
    requires |sub| > 0
    requires forall k :: 0 <= k < |a| ==> a[k] != sub[0]
    ensures Contains(a + b, sub) ==> Contains(b, sub)
  {
    ContainsIff(a + b, sub);
    ContainsIff(b, sub);
    if Contains(a + b, sub) {
      var i :| OccursAt(a + b, sub, i);
      assert (a + b)[i] == sub[0];
      assert i >= |a|;
      assert (a + b)[i..i + |sub|] == b[i - |a|..i - |a| + |sub|];
      assert OccursAt(b, sub, i - |a|);
    }
  }

  /** If the last character of `b` does not occur in `sub`, an occurrence of
      `sub` in `a + b` with `|b| == 1` lies entirely inside `a`. */
  lemma ContainsDropLast(a: string, c: char, sub: string)
    requires forall k :: 0 <= k < |sub| ==> sub[k] != c
    ensures Contains(a + [c], sub) ==> Contains(a, sub)
  {
    ContainsIff(a + [c], sub);
    ContainsIff(a, sub);
    if Contains(a + [c], sub) {
      var i :| OccursAt(a + [c], sub, i);
      if |sub| == 0 {
        assert OccursAt(a, sub, 0);
      } else {
        assert (a + [c])[i..i + |sub|][|sub| - 1] == sub[|sub| - 1];
        assert (a + [c])[i + |sub| - 1] != c;
        assert (a + [c])[i..i + |sub|] == a[i..i + |sub|];
        assert OccursAt(a, sub, i);
      }
    }
  }

  // ---------------------------------------------------------------------
  // Case folding
  // ---------------------------------------------------------------------

  /** `str.lower` on one character: ASCII capitals are folded, every other
      character is kept. */
  function LowerChar(c: char): char {
    if 'A' <= c <= 'Z' then (c as int + 32) as char else c
  }

  function Lower(s: string): (r: string)
    ensures |r| == |s|
    ensures forall i :: 0 <= i < |s| ==> r[i] == LowerChar(s[i])
  {
    seq(|s|, i requires 0 <= i < |s| => LowerChar(s[i]))
  }

  // ---------------------------------------------------------------------
  // strip
  // ---------------------------------------------------------------------

  /** Number of leading whitespace characters. */
  function LeadingSpaces(s: string): (n: nat)
    ensures n <= |s|
    ensures forall i :: 0 <= i < n ==> IsSpace(s[i])
    ensures n < |s| ==> !IsSpace(s[n])
  {
    if |s| > 0 && IsSpace(s[0]) then 1 + LeadingSpaces(s[1..]) else 0
  }

  /** Number of trailing whitespace characters. */
  function TrailingSpaces(s: string): (n: nat)
    ensures n <= |s|
    ensures forall i :: |s| - n <= i < |s| ==> IsSpace(s[i])
    ensures n < |s| ==> !IsSpace(s[|s| - 1 - n])
  {
    if |s| > 0 && IsSpace(s[|s| - 1]) then 1 + TrailingSpaces(s[..|s| - 1]) else 0
  }

  /** Python's `str.strip()`: drops leading and trailing whitespace. The
      result is the slice that starts after the leading whitespace and is
      followed by whitespace only, and it neither starts nor ends with
      whitespace. */
  function Strip(s: string): (r: string)
    ensures LeadingSpaces(s) + |r| <= |s|
    ensures r == s[LeadingSpaces(s)..LeadingSpaces(s) + |r|]
    ensures forall i :: LeadingSpaces(s) + |r| <= i < |s| ==> IsSpace(s[i])
    ensures r == [] ==> forall i :: 0 <= i < |s| ==> IsSpace(s[i])
    ensures r != [] ==> !IsSpace(r[0]) && !IsSpace(r[|r| - 1])
  {
    var a := LeadingSpaces(s);
    var t := s[a..];
    var b := TrailingSpaces(t);
    assert t[..|t| - b] == s[a..a + |t| - b];
    assert forall i :: a + |t| - b <= i < |s| ==> s[i] == t[i - a];
    t[..|t| - b]
  }

  /** Leading whitespace in front of a string that does not start with
      whitespace is exactly the padding. */
  lemma {:induction false} LeadingSpacesPadded(pad: string, s: string)
    requires forall i :: 0 <= i < |pad| ==> IsSpace(pad[i])
    requires s != [] && !IsSpace(s[0])
    ensures LeadingSpaces(pad + s) == |pad|
    decreases |pad|
  {
    if |pad| > 0 {
      assert (pad + s)[1..] == pad[1..] + s;
      LeadingSpacesPadded(pad[1..], s);
    } else {
      assert pad + s == s;
    }
  }

  /** `strip()` removes indentation in front of a string that neither
      starts nor ends with whitespace. */
  lemma StripPadded(pad: string, s: string)
    requires forall i :: 0 <= i < |pad| ==> IsSpace(pad[i])
    requires s != [] && !IsSpace(s[0]) && !IsSpace(s[|s| - 1])
    ensures Strip(pad + s) == s
  {
    var l := pad + s;
    LeadingSpacesPadded(pad, s);
    var r := Strip(l);
    assert l[|pad|] == s[0];
    assert l[|l| - 1] == s[|s| - 1];
    assert |pad| + |r| == |l|;
    assert l[|pad|..] == s;
  }

  /** A string that neither starts nor ends with whitespace is its own strip. */
  lemma StripUnchanged(s: string)
    requires s != [] ==> !IsSpace(s[0]) && !IsSpace(s[|s| - 1])
    ensures Strip(s) == s
  {
  }

  /** Stripping adds no character: one absent from `s` is absent from
      its strip. */
  lemma StripKeepsOut(s: string, c: char)
    requires c !in s
    ensures c !in Strip(s)
  {
    var r := Strip(s);
    var a := LeadingSpaces(s);
    forall k | 0 <= k < |r| ensures r[k] != c {
      assert r[k] == s[a + k];
    }
  }

  // ---------------------------------------------------------------------
  // split / join
  // ---------------------------------------------------------------------

  /** Python's `s.split(sep)` for a one-character separator: always at least
      one piece, and no piece contains the separator. */
  function Split(s: string, sep: char): (r: seq<string>)
    ensures |r| >= 1
    ensures forall i :: 0 <= i < |r| ==> sep !in r[i]
    decreases |s|
  {
    if |s| == 0 then [[]]
    else if s[0] == sep then [[]] + Split(s[1..], sep)
    else
      var rest := Split(s[1..], sep);
      [[s[0]] + rest[0]] + rest[1..]
  }

  /** Python's `sep.join(pieces)`. */
  function Join(pieces: seq<string>, sep: char): string {
    if |pieces| == 0 then []
    else if |pieces| == 1 then pieces[0]
    else pieces[0] + [sep] + Join(pieces[1..], sep)
  }

  /** Joining the pieces of a split restores the string. */
  lemma {:induction false} JoinSplit(s: string, sep: char)
    ensures Join(Split(s, sep), sep) == s
    decreases |s|
  {
    if |s| == 0 {
    } else if s[0] == sep {
      JoinSplit(s[1..], sep);
      assert s == [sep] + s[1..];
    } else {
      var rest := Split(s[1..], sep);
      JoinSplit(s[1..], sep);
      if |rest| == 1 {
        assert s == [s[0]] + s[1..];
      } else {
        assert Join(rest, sep) == rest[0] + [sep] + Join(rest[1..], sep);
        assert s == [s[0]] + s[1..];
      }
    }
  }

  /** A string without the separator splits into itself. */
  lemma {:induction false} SplitNoSep(s: string, sep: char)
    requires sep !in s
    ensures Split(s, sep) == [s]
    decreases |s|
  {
    if |s| > 0 {
      SplitNoSep(s[1..], sep);
      assert s == [s[0]] + s[1..];
    }
  }

  /** Splitting `a + sep + b` where `a` has no separator. */
  lemma {:induction false} SplitCons(a: string, b: string, sep: char)
    requires sep !in a
    ensures Split(a + [sep] + b, sep) == [a] + Split(b, sep)
    decreases |a|
  {
    if |a| == 0 {
      assert a + [sep] + b == [sep] + b;
      assert (a + [sep] + b)[1..] == b;
    } else {
      SplitCons(a[1..], b, sep);
      assert (a + [sep] + b)[1..] == a[1..] + [sep] + b;
      assert a == [a[0]] + a[1..];
    }
  }

  /** Splitting the join of separator-free pieces gives the pieces back. */
  lemma {:induction false} SplitJoin(pieces: seq<string>, sep: char)
    requires |pieces| >= 1
    requires forall i :: 0 <= i < |pieces| ==> sep !in pieces[i]
    ensures Split(Join(pieces, sep), sep) == pieces
    decreases |pieces|
  {
    if |pieces| == 1 {
      SplitNoSep(pieces[0], sep);
    } else {
      SplitJoin(pieces[1..], sep);
      SplitCons(pieces[0], Join(pieces[1..], sep), sep);
      assert pieces == [pieces[0]] + pieces[1..];
    }
  }

  /** The text before the first `sep`, or the whole string when there is
      none. */
  function BeforeFirst(s: string, sep: char): (r: string)
    ensures StartsWith(s, r)
    ensures sep !in r
    ensures |r| < |s| ==> s[|r|] == sep
  {
    if |s| == 0 || s[0] == sep then [] else [s[0]] + BeforeFirst(s[1..], sep)
  }

  /** When `s[k]` is the first `sep`, the text before it is `s[..k]`. */
  lemma {:induction false} BeforeFirstAt(s: string, k: nat, sep: char)
    requires k < |s| && s[k] == sep && sep !in s[..k]
    ensures BeforeFirst(s, sep) == s[..k]
    decreases k
  {
    if k > 0 {
      assert s[0] in s[..k];
      assert s[1..][..k - 1] == s[1..k];
      assert sep !in s[1..][..k - 1] by {
        forall c | c in s[1..k] ensures c != sep {
          assert c in s[..k];
        }
      }
      BeforeFirstAt(s[1..], k - 1, sep);
      assert s[..k] == [s[0]] + s[1..k];
    }
  }

  /** A string without `sep` is its own `BeforeFirst`. */
  lemma {:induction false} BeforeFirstNoSep(s: string, sep: char)
    requires sep !in s
    ensures BeforeFirst(s, sep) == s
    decreases |s|
  {
    if |s| > 0 {
      assert s[1..] == s[1..];
      assert forall c :: c in s[1..] ==> c in s;
      BeforeFirstNoSep(s[1..], sep);
      assert s == [s[0]] + s[1..];
    }
  }

  /** `BeforeFirst` is Python's `s.split(sep)[0]`. */
  lemma {:induction false} BeforeFirstIsFirstPiece(s: string, sep: char)
    ensures BeforeFirst(s, sep) == Split(s, sep)[0]
    decreases |s|
  {
    if |s| > 0 && s[0] != sep {
      BeforeFirstIsFirstPiece(s[1..], sep);
    }
  }

  // ---------------------------------------------------------------------
  // replace
  // ---------------------------------------------------------------------

  /** Python's `s.replace(pat, repl)`: every non-overlapping occurrence of
      `pat`, scanning left to right, is replaced by `repl`. */
  function Replace(s: string, pat: string, repl: string): (r: string)
    requires |pat| > 0
    ensures !Contains(s, pat) ==> r == s
    decreases |s|
  {
    if |s| == 0 then []
    else if StartsWith(s, pat) then
      assert OccursAt(s, pat, 0);
      repl + Replace(s[|pat|..], pat, repl)
    else
      ContainsTail(s, pat);
      [s[0]] + Replace(s[1..], pat, repl)
  }

  /** Where `pat` does not occur at the start, `replace` keeps the first
      character. */
  lemma ReplaceSkip(s: string, pat: string, repl: string)
    requires |pat| > 0 && |s| > 0 && !OccursAt(s, pat, 0)
    ensures Replace(s, pat, repl) == [s[0]] + Replace(s[1..], pat, repl)
  {
  }

  /** Dropping the first character of `a` keeps `pat` out of the rest of
      `a`. */
  lemma NoEarlierOccurrence(a: string, pat: string, b: string)
    requires |a| > 0
    requires forall i :: 0 <= i < |a| ==> !OccursAt(a + pat + b, pat, i)
    ensures (a + pat + b)[1..] == a[1..] + pat + b
    ensures !OccursAt(a + pat + b, pat, 0)
    ensures forall i :: 0 <= i < |a[1..]| ==> !OccursAt(a[1..] + pat + b, pat, i)
  {
    var s := a + pat + b;
    var t := a[1..] + pat + b;
    assert s[1..] == t;
    forall i | 0 <= i < |a[1..]| ensures !OccursAt(t, pat, i) {
      assert !OccursAt(s, pat, i + 1);
      assert s[i + 1..i + 1 + |pat|] == t[i..i + |pat|];
    }
  }

  /** Where the first occurrence of `pat` is at `|a|`, `replace` copies
      `a`, puts `repl` in place of the occurrence and carries on after it. */
  lemma {:induction false} ReplaceFirst(a: string, pat: string, repl: string, b: string)
    requires |pat| > 0
    requires forall i :: 0 <= i < |a| ==> !OccursAt(a + pat + b, pat, i)
    ensures Replace(a + pat + b, pat, repl) == a + repl + Replace(b, pat, repl)
    decreases |a|
  {
    var s := a + pat + b;
    var rb := Replace(b, pat, repl);
    if |a| == 0 {
      assert s == pat + b;
      assert s[..|pat|] == pat && s[|pat|..] == b;
      assert a + repl + rb == repl + rb;
    } else {
      NoEarlierOccurrence(a, pat, b);
      ReplaceSkip(s, pat, repl);
      ReplaceFirst(a[1..], pat, repl, b);
      ConsConcat(a, repl, rb);
    }
  }

  /** Regrouping `[a[0]] + (a[1..] + x + y)`. */
  lemma ConsConcat(a: string, x: string, y: string)
    requires |a| > 0
    ensures [a[0]] + (a[1..] + x + y) == a + x + y
  {
    assert [a[0]] + a[1..] == a;
  }

  /** Replacing `pat` by nothing in `a + pat`, when `pat` starts nowhere
      before the appended copy, gives back `a`. */
  lemma ReplaceBeforeLast(a: string, pat: string)
    requires |pat| > 0
    requires forall i :: 0 <= i < |a| ==> !OccursAt(a + pat, pat, i)
    ensures Replace(a + pat, pat, "") == a
  {
    assert a + pat + [] == a + pat;
    ReplaceFirst(a, pat, "", []);
    assert a + "" + [] == a;
  }

}
