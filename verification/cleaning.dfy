/** `GradleWrapper._is_cleaning_task`: a task whose lower-cased name
    matches one of the cleaning patterns is refused by `run_task` and must go
    through `clean` instead. */
module TaskClassifier {
  import opened Text

  /** The two shapes of regular expression in the pattern table, as used by
      `re.match` (anchored at the start of the string):
      `Leading(lit)` is `^lit.*` and `Trailing(lit)` is `.*lit$`. */
  datatype Pattern = Leading(lit: string) | Trailing(lit: string)

  /** The cleaning-task table, in order: `^clean.*`, `.*clean$`,
      `^cleanBuild.*`, `^cleanTest.*`. */
  const CleaningPatterns: seq<Pattern> :=
    [Leading("clean"), Trailing("clean"), Leading("cleanBuild"), Leading("cleanTest")]

  /** Python's `$` (without MULTILINE) holds at position `e`: the end of
      the string, or just before a final newline. */
  predicate EndAnchorAt(s: string, e: int) {
    e == |s| || (0 <= e == |s| - 1 && s[e] == '\n')
  }

  /** `.*lit$` matches from the start with `.*` consuming `s[..k]`: the
      consumed text holds no newline (`.` does not match one), `lit` follows
      and `$` holds right after it. */
  predicate TrailingAt(s: string, lit: string, k: int) {
    0 <= k && k + |lit| <= |s| && '\n' !in s[..k] && s[k..k + |lit|] == lit && EndAnchorAt(s, k + |lit|)
  }

  /** The direct test for `.*lit$`: `lit` ends the string, or ends it just
      before a final newline, with no newline ahead of it. */
  predicate TrailingMatch(s: string, lit: string) {
    || (EndsWith(s, lit) && '\n' !in s[..|s| - |lit|])
    || (|s| > 0 && s[|s| - 1] == '\n' && EndsWith(s[..|s| - 1], lit) && '\n' !in s[..|s| - 1 - |lit|])
  }

  /** `re.match(pattern, s)` succeeds. */
  predicate Matches(p: Pattern, s: string) {
    match p
    case Leading(lit) => StartsWith(s, lit)
    case Trailing(lit) => TrailingMatch(s, lit)
  }

  /** The `for pattern in ...: if re.match(...): return True` loop. */
  function AnyMatch(patterns: seq<Pattern>, s: string): (r: bool)
    ensures r <==> exists i :: 0 <= i < |patterns| && Matches(patterns[i], s)
  {
    if |patterns| == 0 then false
    else if Matches(patterns[0], s) then true
    else
      assert forall i :: 1 <= i < |patterns| ==> patterns[i] == patterns[1..][i - 1];
      AnyMatch(patterns[1..], s)
  }

  /** `_is_cleaning_task(task)`: some pattern of the table matches the
      lower-cased name. */
  function IsCleaningTask(task: string): (r: bool)
    ensures r <==> exists i :: 0 <= i < |CleaningPatterns| && Matches(CleaningPatterns[i], Lower(task))
  {
    AnyMatch(CleaningPatterns, Lower(task))
  }

  // -----------------------------------------------------------------------
  // Properties
  // -----------------------------------------------------------------------

  /** The direct test agrees with the regular-expression semantics of
      `.*lit$` under `re.match`. */
  lemma TrailingMatchIff(s: string, lit: string)
    ensures TrailingMatch(s, lit) <==> exists k :: TrailingAt(s, lit, k)
  {
    if TrailingMatch(s, lit) {
      TrailingMatchSound(s, lit);
    }
    forall k | TrailingAt(s, lit, k) ensures TrailingMatch(s, lit) {
      TrailingMatchComplete(s, lit, k);
    }
  }

  /** Each way the direct test succeeds is a match of `.*lit$`. */
  lemma TrailingMatchSound(s: string, lit: string)
    requires TrailingMatch(s, lit)
    ensures exists k :: TrailingAt(s, lit, k)
  {
    if EndsWith(s, lit) && '\n' !in s[..|s| - |lit|] {
      assert TrailingAt(s, lit, |s| - |lit|);
    } else {
      var t := s[..|s| - 1];
      var k := |t| - |lit|;
      assert t[k..] == s[k..k + |lit|];
      assert EndAnchorAt(s, k + |lit|);
      assert TrailingAt(s, lit, k);
    }
  }

  /** Each match of `.*lit$` passes the direct test. */
  lemma TrailingMatchComplete(s: string, lit: string, k: int)
    requires TrailingAt(s, lit, k)
    ensures TrailingMatch(s, lit)
  {
    if k + |lit| == |s| {
      assert EndsWith(s, lit);
    } else {
      var t := s[..|s| - 1];
      assert t[|t| - |lit|..] == s[k..k + |lit|];
      assert EndsWith(t, lit);
      assert s[..|s| - 1 - |lit|] == s[..k];
    }
  }

  /** Lower-casing removes every upper-case ASCII letter. */
  lemma LowerHasNoUpper(task: string)
    ensures forall i :: 0 <= i < |Lower(task)| ==> !IsUpper(Lower(task)[i])
  {
  }

  /** `^cleanBuild.*` and `^cleanTest.*` can never match: they hold an
      upper-case letter and are tried against the lower-cased name (both are
      subsumed by `^clean.*` anyway). */
  lemma CamelCasePatternsDead(task: string)
    ensures !Matches(CleaningPatterns[2], Lower(task))
    ensures !Matches(CleaningPatterns[3], Lower(task))
  {
    var l := Lower(task);
    LowerHasNoUpper(task);
    if |l| >= 10 {
      assert l[..10][5] == l[5];
    }
    if |l| >= 9 {
      assert l[..9][5] == l[5];
    }
  }

  /** What the table amounts to: the lower-cased name starts with `clean`,
      or `.*clean$` matches it. */
  lemma CleaningIff(task: string)
    ensures IsCleaningTask(task) <==>
              StartsWith(Lower(task), "clean") || TrailingMatch(Lower(task), "clean")
  {
    CamelCasePatternsDead(task);
    assert Matches(CleaningPatterns[0], Lower(task)) == StartsWith(Lower(task), "clean");
    assert Matches(CleaningPatterns[1], Lower(task)) == TrailingMatch(Lower(task), "clean");
  }

  /** For a name on one line (every real task name) the test is simply:
      the lower-cased name starts or ends with `clean`. */
  lemma SingleLineCleaningIff(task: string)
    requires '\n' !in task
    ensures IsCleaningTask(task) <==> StartsWith(Lower(task), "clean") || EndsWith(Lower(task), "clean")
  {
    var l := Lower(task);
    CleaningIff(task);
    assert '\n' !in l;
    if EndsWith(l, "clean") {
      assert '\n' !in l[..|l| - 5];
    }
  }

  /** Lower-casing twice is lower-casing once. */
  lemma LowerIdempotent(s: string)
    ensures Lower(Lower(s)) == Lower(s)
  {
  }

  /** The test ignores case. */
  lemma CaseInsensitive(task: string)
    ensures IsCleaningTask(Lower(task)) == IsCleaningTask(task)
  {
    LowerIdempotent(task);
  }

  /** A qualified clean task such as `:app:clean` is a cleaning task. */
  lemma QualifiedCleanIsCleaning(prefix: string)
    requires '\n' !in prefix
    ensures IsCleaningTask(prefix + "clean")
  {
    var l := Lower(prefix + "clean");
    assert l[|l| - 5..] == "clean";
    assert '\n' !in prefix + "clean";
    SingleLineCleaningIff(prefix + "clean");
  }

  /** A name without upper-case letters is its own lower-cased form. */
  lemma LowerFixed(s: string)
    requires forall i :: 0 <= i < |s| ==> !IsUpper(s[i])
    ensures Lower(s) == s
  {
  }

  /** `clean` is refused. */
  lemma CleanRefused()
    ensures IsCleaningTask("clean")
  {
    QualifiedCleanIsCleaning("");
    assert "" + "clean" == "clean";
  }

  /** `:app:clean` is refused. */
  lemma QualifiedCleanRefused()
    ensures IsCleaningTask(":app:clean")
  {
    var t := ":app:clean";
    var l := Lower(t);
    assert l[5] == 'c' && l[6] == 'l' && l[7] == 'e' && l[8] == 'a' && l[9] == 'n';
    assert l[5..] == "clean";
    assert forall i :: 0 <= i < |t| ==> t[i] != '\n';
    SingleLineCleaningIff(t);
  }

  /** `CLEAN` is refused: the test ignores case. */
  lemma UpperCleanRefused()
    ensures IsCleaningTask("CLEAN")
  {
    var l := Lower("CLEAN");
    assert l[0] == 'c' && l[1] == 'l' && l[2] == 'e' && l[3] == 'a' && l[4] == 'n';
    assert l[..5] == "clean";
    CleaningIff("CLEAN");
  }

  /** `build` and `:app:assemble` are let through. */
  lemma BuildAllowed()
    ensures !IsCleaningTask("build") && !IsCleaningTask(":app:assemble")
  {
    NotCleanAtEitherEnd("build");
    NotCleanAtEitherEnd(":app:assemble");
  }

  /** A one-line name in lower case that neither begins with `c` nor ends
      with `n` is let through. */
  lemma NotCleanAtEitherEnd(s: string)
    requires forall i :: 0 <= i < |s| ==> !IsUpper(s[i]) && s[i] != '\n'
    requires |s| > 0 && s[0] != 'c' && s[|s| - 1] != 'n'
    ensures !IsCleaningTask(s)
  {
    LowerFixed(s);
    SingleLineCleaningIff(s);
    if |s| >= 5 {
      assert s[..5][0] != "clean"[0];
      assert s[|s| - 5..][4] != "clean"[4];
    }
  }

  /** Because `$` also matches before a final newline, a name with a
      trailing newline is still caught. */
  lemma TrailingNewlineRefused()
    ensures IsCleaningTask("buildclean\n")
  {
    var s := "buildclean\n";
    LowerFixed(s);
    var t := s[..|s| - 1];
    assert t[|t| - 5..] == "clean";
    assert s[..|s| - 1 - 5] == "build";
    assert TrailingMatch(s, "clean");
    CleaningIff(s);
  }

  /** Because `.` stops at a newline, a `clean` suffix after an inner
      newline is not caught. */
  lemma InnerNewlineAllowed()
    ensures !IsCleaningTask("build\nclean")
  {
    var s := "build\nclean";
    LowerFixed(s);
    CleaningIff(s);
    assert s[..|s| - 5][5] == '\n';
    assert s[..5][0] != "clean"[0];
    assert s[|s| - 1] != '\n';
  }
}
