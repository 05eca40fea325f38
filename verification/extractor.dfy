/** `GradleWrapper._extract_error_message`: the error text reported when a
    Gradle run fails, cut from the combined output so that it starts at the
    failed task that opened the failure. */
module ErrorExtractor {
  import opened Text
  import opened Wrappers

  /** How many lines before the last `BUILD FAILED` line the fallback keeps. */
  const BuildFailedContext: nat := 100

  /** How many trailing lines the last-resort fallback keeps. */
  const TailLines: nat := 50

  /** `stdout + "\n" + stderr` when both are non-empty, otherwise whichever
      is non-empty, otherwise the default message. */
  function CombineOutput(stdout: string, stderr: string, default: string): (r: string)
    ensures |stdout| > 0 ==> StartsWith(r, stdout)
    ensures |stderr| > 0 ==> EndsWith(r, stderr)
    ensures |stdout| > 0 && |stderr| > 0 ==> |r| == |stdout| + 1 + |stderr| && r[|stdout|] == '\n'
    ensures |stdout| > 0 && |stderr| == 0 ==> r == stdout
    ensures |stdout| == 0 && |stderr| > 0 ==> r == stderr
    ensures |stdout| == 0 && |stderr| == 0 ==> r == default
  {
    if |stdout| > 0 && |stderr| > 0 then
      var r := stdout + "\n" + stderr;
      assert r[..|stdout|] == stdout;
      assert r[|r| - |stderr|..] == stderr;
      r
    else if |stdout| > 0 then
      assert stdout[..|stdout|] == stdout;
      stdout
    else if |stderr| > 0 then
      assert stderr[|stderr| - |stderr|..] == stderr;
      stderr
    else default
  }

  /** `combined_output.strip().split('\n')`. */
  function OutputLines(combined: string): (lines: seq<string>)
    ensures |lines| >= 1
    ensures forall i :: 0 <= i < |lines| ==> '\n' !in lines[i]
    ensures Join(lines, '\n') == Strip(combined)
  {
    JoinSplit(Strip(combined), '\n');
    Split(Strip(combined), '\n')
  }

  // -----------------------------------------------------------------------
  // Line classes
  // -----------------------------------------------------------------------

  /** A task line reporting failure: `> Task :app:compileJava FAILED`. */
  predicate IsFailedTaskLine(line: string) {
    Contains(line, "FAILED") && Contains(line, "> Task")
  }

  /** The start of Gradle's failure summary. */
  predicate IsFailureHeader(line: string) {
    Contains(line, "FAILURE:") || Contains(line, "* What went wrong:")
  }

  /** The final build verdict. */
  predicate IsBuildFailedLine(line: string) {
    Contains(line, "BUILD FAILED")
  }

  /** A line at which the backward scan stops: a task line that did not
      fail (up to date, no source, from cache, ...) or a build-start
      indicator, unless the line is itself a failed-task line. */
  predicate StopsBackScan(line: string) {
    && !IsFailedTaskLine(line)
    && (Contains(line, "> Task") || Contains(line, "Configuration cache") || Contains(line, "BUILD SUCCESSFUL"))
  }

  /** The three line classes the forward scan records. */
  datatype Marker = FailedTask | FailureHeader | BuildFailed

  predicate Marks(m: Marker, line: string) {
    match m
    case FailedTask => IsFailedTaskLine(line)
    case FailureHeader => IsFailureHeader(line)
    case BuildFailed => IsBuildFailedLine(line)
  }

  /** `o` is the index of the first line among `lines[..n]` in class `m`,
      or `None` when there is none. */
  predicate FirstIn(lines: seq<string>, n: nat, m: Marker, o: Option<nat>)
    requires n <= |lines|
  {
    match o
    case None => forall j :: 0 <= j < n ==> !Marks(m, lines[j])
    case Some(i) => i < n && Marks(m, lines[i]) && forall j :: 0 <= j < i ==> !Marks(m, lines[j])
  }

  /** `o` is the index of the last line among `lines[..n]` in class `m`,
      or `None` when there is none. */
  predicate LastIn(lines: seq<string>, n: nat, m: Marker, o: Option<nat>)
    requires n <= |lines|
  {
    match o
    case None => forall j :: 0 <= j < n ==> !Marks(m, lines[j])
    case Some(i) => i < n && Marks(m, lines[i]) && forall j :: i < j < n ==> !Marks(m, lines[j])
  }

  /** The three indices of the forward scan (`-1` in the source is `None`). */
  datatype Markers = Markers(firstFailedTask: Option<nat>, failureHeader: Option<nat>, lastBuildFailed: Option<nat>)

  /** The forward scan's state after `lines[..n]`. */
  predicate ScannedUpTo(lines: seq<string>, n: nat, mk: Markers)
    requires n <= |lines|
  {
    && FirstIn(lines, n, FailedTask, mk.firstFailedTask)
    && FirstIn(lines, n, FailureHeader, mk.failureHeader)
    && LastIn(lines, n, BuildFailed, mk.lastBuildFailed)
  }

  /** Recording the first line of class `m` extends from `lines[..n]` to
      `lines[..n + 1]`. */
  lemma FirstStep(lines: seq<string>, n: nat, m: Marker, o: Option<nat>)
    requires n < |lines| && FirstIn(lines, n, m, o)
    ensures FirstIn(lines, n + 1, m, if Marks(m, lines[n]) && o.None? then Some(n) else o)
  {
  }

  /** Recording the last line of class `m` extends from `lines[..n]` to
      `lines[..n + 1]`. */
  lemma LastStep(lines: seq<string>, n: nat, m: Marker, o: Option<nat>)
    requires n < |lines| && LastIn(lines, n, m, o)
    ensures LastIn(lines, n + 1, m, if Marks(m, lines[n]) then Some(n) else o)
  {
  }

  /** The `for i, line in enumerate(error_lines)` loop from line `n` on. */
  function ScanFrom(lines: seq<string>, n: nat, mk: Markers): (r: Markers)
    requires n <= |lines| && ScannedUpTo(lines, n, mk)
    ensures ScannedUpTo(lines, |lines|, r)
    decreases |lines| - n
  {
    if n == |lines| then mk
    else
      var line := lines[n];
      var ff := if IsFailedTaskLine(line) && mk.firstFailedTask.None? then Some(n) else mk.firstFailedTask;
      var fh := if IsFailureHeader(line) && mk.failureHeader.None? then Some(n) else mk.failureHeader;
      var bf := if IsBuildFailedLine(line) then Some(n) else mk.lastBuildFailed;
      FirstStep(lines, n, FailedTask, mk.firstFailedTask);
      FirstStep(lines, n, FailureHeader, mk.failureHeader);
      LastStep(lines, n, BuildFailed, mk.lastBuildFailed);
      ScanFrom(lines, n + 1, Markers(ff, fh, bf))
  }

  /** The forward scan over all lines. */
  function ScanMarkers(lines: seq<string>): (r: Markers)
    ensures ScannedUpTo(lines, |lines|, r)
  {
    ScanFrom(lines, 0, Markers(None, None, None))
  }

  // -----------------------------------------------------------------------
  // Backward scan
  // -----------------------------------------------------------------------

  /** The failed-task line `i` lies before line `hi` with no stopping line
      between them, so the backward scan from `hi` reaches it. */
  predicate Reachable(lines: seq<string>, i: int, hi: int) {
    && 0 <= i < hi <= |lines| && IsFailedTaskLine(lines[i])
    && forall j :: i < j < hi ==> !StopsBackScan(lines[j])
  }

  /** `i` is the earliest failed-task line the backward scan from `hi`
      reaches. */
  predicate EarliestReachable(lines: seq<string>, i: int, hi: int) {
    Reachable(lines, i, hi) && forall j :: 0 <= j < i ==> !Reachable(lines, j, hi)
  }

  /** No failed-task line is reachable from `hi`. */
  ghost predicate NoneReachable(lines: seq<string>, hi: int) {
    forall i :: !Reachable(lines, i, hi)
  }

  /** Reachability from `lo + 1` through line `lo`, which does not stop
      the scan. */
  lemma ReachableStep(lines: seq<string>, i: int, lo: nat, hi: nat)
    requires hi == lo + 1 <= |lines| && !StopsBackScan(lines[lo])
    ensures Reachable(lines, i, hi) <==> (i == lo && IsFailedTaskLine(lines[i])) || Reachable(lines, i, lo)
  {
  }

  /** The `for i in range(marker_idx - 1, -1, -1)` loop, examining the
      lines below `hi` from the top down, starting from `first_failure_idx
      == cur`: the earliest reachable failed-task line, or `cur` unchanged
      when none is reachable. */
  function BackScan(lines: seq<string>, hi: nat, cur: Option<nat>): (r: Option<nat>)
    requires hi <= |lines|
    ensures !NoneReachable(lines, hi) ==> r.Some? && EarliestReachable(lines, r.value, hi)
    ensures NoneReachable(lines, hi) ==> r == cur
    decreases hi
  {
    if hi == 0 then cur
    else
      var line := lines[hi - 1];
      if IsFailedTaskLine(line) then
        ReachableFailedStep(lines, hi - 1, hi);
        BackScan(lines, hi - 1, Some(hi - 1))
      else if Contains(line, "> Task") && !Contains(line, "FAILED") then
        NothingReachablePastStop(lines, hi);
        cur
      else if Contains(line, "Configuration cache") || Contains(line, "BUILD SUCCESSFUL") then
        NothingReachablePastStop(lines, hi);
        cur
      else
        ReachableSkip(lines, hi - 1, hi);
        BackScan(lines, hi - 1, cur)
  }

  /** When line `lo` is a failed task, the earliest line reachable from
      `lo + 1` is the earliest reachable from `lo`, or `lo` itself. */
  lemma ReachableFailedStep(lines: seq<string>, lo: nat, hi: nat)
    requires hi == lo + 1 <= |lines| && IsFailedTaskLine(lines[lo])
    ensures !NoneReachable(lines, hi)
    ensures NoneReachable(lines, lo) ==> EarliestReachable(lines, lo, hi)
    ensures forall i :: EarliestReachable(lines, i, lo) ==> EarliestReachable(lines, i, hi)
  {
    assert Reachable(lines, lo, hi);
    forall i | Reachable(lines, i, lo) ensures Reachable(lines, i, hi) {
      ReachableStep(lines, i, lo, hi);
    }
    forall i | Reachable(lines, i, hi) ensures i == lo || Reachable(lines, i, lo) {
      ReachableStep(lines, i, lo, hi);
    }
  }

  /** A line that is neither a failed task nor a stopping line changes
      nothing about what is reachable. */
  lemma ReachableSkip(lines: seq<string>, lo: nat, hi: nat)
    requires hi == lo + 1 <= |lines| && !StopsBackScan(lines[lo]) && !IsFailedTaskLine(lines[lo])
    ensures NoneReachable(lines, hi) <==> NoneReachable(lines, lo)
    ensures forall i :: EarliestReachable(lines, i, hi) <==> EarliestReachable(lines, i, lo)
  {
    forall i | Reachable(lines, i, hi) ensures Reachable(lines, i, lo) {
      ReachableStep(lines, i, lo, hi);
    }
    forall i | Reachable(lines, i, lo) ensures Reachable(lines, i, hi) {
      ReachableStep(lines, i, lo, hi);
    }
  }

  /** When line `hi - 1` stops the scan, nothing below `hi` is reachable. */
  lemma NothingReachablePastStop(lines: seq<string>, hi: nat)
    requires 0 < hi <= |lines| && !IsFailedTaskLine(lines[hi - 1])
    requires Contains(lines[hi - 1], "> Task") || Contains(lines[hi - 1], "Configuration cache")
             || Contains(lines[hi - 1], "BUILD SUCCESSFUL")
    ensures NoneReachable(lines, hi)
  {
    assert StopsBackScan(lines[hi - 1]);
  }

  // -----------------------------------------------------------------------
  // The message
  // -----------------------------------------------------------------------

  /** The marker the backward scan starts from: the first failure header,
      or else the last `BUILD FAILED` line. */
  function MarkerIndex(mk: Markers): Option<nat> {
    if mk.failureHeader.Some? then mk.failureHeader else mk.lastBuildFailed
  }

  /** The index the message starts at, if a failed task decides it: the
      backward scan from the marker when there is one, else the first
      failed-task line. */
  function FailureStart(lines: seq<string>, mk: Markers): (r: Option<nat>)
    requires ScannedUpTo(lines, |lines|, mk)
    ensures r.Some? ==> r.value < |lines| && IsFailedTaskLine(lines[r.value])
    ensures mk.firstFailedTask.Some? ==> r.Some?
    ensures r.None? ==> mk.firstFailedTask.None?
    ensures MarkerIndex(mk).Some? && !NoneReachable(lines, MarkerIndex(mk).value) ==>
              r.Some? && EarliestReachable(lines, r.value, MarkerIndex(mk).value)
    ensures MarkerIndex(mk).None? || NoneReachable(lines, MarkerIndex(mk).value) ==> r == mk.firstFailedTask
  {
    match MarkerIndex(mk)
    case Some(m) => BackScan(lines, m, mk.firstFailedTask)
    case None => mk.firstFailedTask
  }

  /** `max(0, n)`. */
  function ClampToZero(n: int): nat {
    if n < 0 then 0 else n
  }

  /** The choice of message once the output is split into `lines`: from
      the failure start on; else the 100 lines before the last `BUILD
      FAILED` and everything after; else the last 50 lines; else the
      combined output unchanged. It is always the whole combined output or
      a run of lines that reaches the last one. */
  function Message(lines: seq<string>, combined: string): (r: string)
    ensures || r == combined
            || exists k :: 0 <= k < |lines| && r == Join(lines[k..], '\n')
  {
    var mk := ScanMarkers(lines);
    var start := FailureStart(lines, mk);
    if start.Some? then
      Join(lines[start.value..], '\n')
    else if mk.lastBuildFailed.Some? then
      Join(lines[ClampToZero(mk.lastBuildFailed.value - BuildFailedContext)..], '\n')
    else if |lines| > TailLines then
      Join(lines[|lines| - TailLines..], '\n')
    else
      combined
  }

  /** `_extract_error_message(stdout, stderr, default_message)`: the whole
      combined output or a run of its lines reaching the last one, and a
      run from a failed-task line whenever some line reports a failed
      task. */
  function ExtractError(stdout: string, stderr: string, default: string): (r: string)
    ensures var combined := CombineOutput(stdout, stderr, default);
            var lines := OutputLines(combined);
            && (r == combined || exists k :: 0 <= k < |lines| && r == Join(lines[k..], '\n'))
            && ((exists f :: 0 <= f < |lines| && IsFailedTaskLine(lines[f])) ==>
                  exists k :: 0 <= k < |lines| && IsFailedTaskLine(lines[k]) && r == Join(lines[k..], '\n'))
  {
    var combined := CombineOutput(stdout, stderr, default);
    var lines := OutputLines(combined);
    MessageFromFailedTask(lines, combined);
    Message(lines, combined)
  }

  // -----------------------------------------------------------------------
  // Properties
  // -----------------------------------------------------------------------

  /** `MessageStartsAtFailedTask` for whichever line reports a failed task. */
  lemma MessageFromFailedTask(lines: seq<string>, combined: string)
    ensures (exists f :: 0 <= f < |lines| && IsFailedTaskLine(lines[f])) ==>
              exists k :: 0 <= k < |lines| && IsFailedTaskLine(lines[k]) && Message(lines, combined) == Join(lines[k..], '\n')
  {
    if f :| 0 <= f < |lines| && IsFailedTaskLine(lines[f]) {
      MessageStartsAtFailedTask(lines, combined, f);
    }
  }

  /** Whenever some line reports a failed task, the message is the run of
      lines from a failed-task line to the end. */
  lemma MessageStartsAtFailedTask(lines: seq<string>, combined: string, f: nat)
    requires f < |lines| && IsFailedTaskLine(lines[f])
    ensures exists k :: 0 <= k < |lines| && IsFailedTaskLine(lines[k]) && Message(lines, combined) == Join(lines[k..], '\n')
  {
    var mk := ScanMarkers(lines);
    assert mk.firstFailedTask.Some?;
  }

  /** The failure chain is kept: when the first failed-task line comes
      before the marker with no stopping line in between, the message
      starts exactly at that first failed task. */
  lemma ChainBeforeMarkerKept(lines: seq<string>, combined: string, f: nat, m: nat)
    requires FirstIn(lines, |lines|, FailedTask, Some(f))
    requires MarkerIndex(ScanMarkers(lines)) == Some(m)
    requires f < m && forall j :: f < j < m ==> !StopsBackScan(lines[j])
    ensures Message(lines, combined) == Join(lines[f..], '\n')
  {
    var mk := ScanMarkers(lines);
    FirstUnique(lines, FailedTask, mk.firstFailedTask, Some(f));
    assert Reachable(lines, f, m);
    var k := BackScan(lines, m, mk.firstFailedTask).value;
    assert EarliestReachable(lines, k, m);
    assert k == f;
    assert FailureStart(lines, mk) == Some(f);
  }

  /** The backward scan can move the start past the first failure: when a
      stopping line (a task that did not fail) lies above a failed task
      that is reachable from the marker, the message starts below the
      stopping line, so any failure above that line is not in it. */
  lemma EarlierFailureDropped(lines: seq<string>, combined: string, s: nat, g: nat, m: nat)
    requires MarkerIndex(ScanMarkers(lines)) == Some(m)
    requires s < g < m && StopsBackScan(lines[s]) && IsFailedTaskLine(lines[g])
    requires forall j :: g < j < m ==> !StopsBackScan(lines[j])
    ensures exists k :: s < k < |lines| && Message(lines, combined) == Join(lines[k..], '\n')
  {
    var mk := ScanMarkers(lines);
    assert Reachable(lines, g, m);
    var k := BackScan(lines, m, mk.firstFailedTask).value;
    ReachableBelowStop(lines, s, m);
    assert Message(lines, combined) == Join(lines[k..], '\n');
  }

  /** Nothing at or above a stopping line is reachable from below it. */
  lemma ReachableBelowStop(lines: seq<string>, s: nat, m: nat)
    requires s < m <= |lines| && StopsBackScan(lines[s])
    ensures forall i :: Reachable(lines, i, m) ==> s < i
  {
  }

  /** Without any failed-task line, a `BUILD FAILED` line at `b` (the last
      one) gives the 100 lines before it and everything after. */
  lemma BuildFailedFallback(lines: seq<string>, combined: string, b: nat)
    requires forall j :: 0 <= j < |lines| ==> !IsFailedTaskLine(lines[j])
    requires LastIn(lines, |lines|, BuildFailed, Some(b))
    ensures Message(lines, combined) == Join(lines[ClampToZero(b - BuildFailedContext)..], '\n')
  {
    var mk := ScanMarkers(lines);
    LastUnique(lines, BuildFailed, mk.lastBuildFailed, Some(b));
    assert FailureStart(lines, mk).None?;
  }

  /** Without failed-task and `BUILD FAILED` lines (a `FAILURE:` header
      alone does not count) the message is the last 50 lines, or the
      combined output unchanged when there are at most 50. */
  lemma TailFallback(lines: seq<string>, combined: string)
    requires forall j :: 0 <= j < |lines| ==> !IsFailedTaskLine(lines[j]) && !IsBuildFailedLine(lines[j])
    ensures |lines| > TailLines ==> Message(lines, combined) == Join(lines[|lines| - TailLines..], '\n')
    ensures |lines| <= TailLines ==> Message(lines, combined) == combined
  {
    var mk := ScanMarkers(lines);
    assert forall j :: 0 <= j < |lines| ==> !Marks(FailedTask, lines[j]);
    assert forall j :: 0 <= j < |lines| ==> !Marks(BuildFailed, lines[j]);
    UnmarkedFirst(lines, FailedTask, mk.firstFailedTask);
    UnmarkedLast(lines, BuildFailed, mk.lastBuildFailed);
  }

  /** The first line of a class comes no later than any line of it. */
  lemma FirstIsEarliest(lines: seq<string>, m: Marker, i: nat, j: nat)
    requires FirstIn(lines, |lines|, m, Some(i)) && j < |lines| && Marks(m, lines[j])
    ensures i <= j
  {
  }

  /** The last line of a class comes no earlier than any line of it. */
  lemma LastIsLatest(lines: seq<string>, m: Marker, i: nat, j: nat)
    requires LastIn(lines, |lines|, m, Some(i)) && j < |lines| && Marks(m, lines[j])
    ensures j <= i
  {
  }

  /** A class without lines has no first line. */
  lemma UnmarkedFirst(lines: seq<string>, m: Marker, o: Option<nat>)
    requires forall j :: 0 <= j < |lines| ==> !Marks(m, lines[j])
    requires FirstIn(lines, |lines|, m, o)
    ensures o.None?
  {
  }

  /** A class without lines has no last line. */
  lemma UnmarkedLast(lines: seq<string>, m: Marker, o: Option<nat>)
    requires forall j :: 0 <= j < |lines| ==> !Marks(m, lines[j])
    requires LastIn(lines, |lines|, m, o)
    ensures o.None?
  {
  }

  /** At most one index is the first line of a class. */
  lemma FirstUnique(lines: seq<string>, m: Marker, o1: Option<nat>, o2: Option<nat>)
    requires FirstIn(lines, |lines|, m, o1) && FirstIn(lines, |lines|, m, o2)
    ensures o1 == o2
  {
    if o1.Some? && o2.Some? {
      FirstIsEarliest(lines, m, o1.value, o2.value);
      FirstIsEarliest(lines, m, o2.value, o1.value);
    }
  }

  /** At most one index is the last line of a class. */
  lemma LastUnique(lines: seq<string>, m: Marker, o1: Option<nat>, o2: Option<nat>)
    requires LastIn(lines, |lines|, m, o1) && LastIn(lines, |lines|, m, o2)
    ensures o1 == o2
  {
    if o1.Some? && o2.Some? {
      LastIsLatest(lines, m, o1.value, o2.value);
      LastIsLatest(lines, m, o2.value, o1.value);
    }
  }

  /** With no output at all, a one-line default message that mentions no
      failed task and no `BUILD FAILED` is returned as it is. */
  lemma DefaultWhenNoOutput(default: string)
    requires '\n' !in default
    requires !IsFailedTaskLine(default) && !IsBuildFailedLine(default)
    ensures ExtractError("", "", default) == default
  {
    var t := Strip(default);
    var lo := LeadingSpaces(default);
    assert '\n' !in t;
    SplitNoSep(t, '\n');
    if IsFailedTaskLine(t) {
      ContainsInSlice(default, lo, lo + |t|, "FAILED");
      ContainsInSlice(default, lo, lo + |t|, "> Task");
    }
    if IsBuildFailedLine(t) {
      ContainsInSlice(default, lo, lo + |t|, "BUILD FAILED");
    }
    TailFallback([t], default);
  }
}
