/** Progress reporting in `run_task` and `clean`: the percentage is the
    first match of `(\d+)%` in an output line, reported against a total of
    100. */
module Progress {
  import opened Text
  import opened Wrappers
  import opened RegexSearch

  /** The total that every percentage is reported against. */
  const ProgressTotal: nat := 100

  /** The numeric value of an ASCII digit. */
  function DigitValue(c: char): nat
    requires IsDigit(c)
  {
    c as nat - '0' as nat
  }

  /** `(\d+)%`. */
  const ProgressPattern: RunPattern := RunPattern("", Digit, '%')

  /** `int(d)` for a string of decimal digits (leading zeros allowed). */
  function DigitsValue(d: string): nat
    requires forall j :: 0 <= j < |d| ==> IsDigit(d[j])
  {
    if |d| == 0 then 0 else DigitsValue(d[..|d| - 1]) * 10 + DigitValue(d[|d| - 1])
  }

  /** The digits of a match of `(\d+)%`. */
  lemma MatchDigits(line: string, sp: Span)
    requires MatchAt(line, ProgressPattern, sp.start, sp.end)
    ensures forall j :: 0 <= j < |Group(line, ProgressPattern, sp)| ==> IsDigit(Group(line, ProgressPattern, sp)[j])
  {
    var g := Group(line, ProgressPattern, sp);
    forall j | 0 <= j < |g| ensures IsDigit(g[j]) {
      assert g[j] == line[sp.start + j];
    }
  }

  /** `progress_pattern.search(line)` converted with
      `int(match.group(1))`: `None` exactly when nothing matches, otherwise
      the value of the digits of the leftmost match. */
  function ParseProgress(line: string): (r: Option<nat>)
    ensures r.None? <==> forall a, q :: !MatchAt(line, ProgressPattern, a, q)
    ensures r.Some? ==> exists sp :: && Search(line, ProgressPattern) == Some(sp)
                                     && MatchAt(line, ProgressPattern, sp.start, sp.end)
                                     && (forall j :: 0 <= j < |Group(line, ProgressPattern, sp)| ==> IsDigit(Group(line, ProgressPattern, sp)[j]))
                                     && r.value == DigitsValue(Group(line, ProgressPattern, sp))
  {
    match Search(line, ProgressPattern)
    case None => None
    case Some(sp) =>
      MatchDigits(line, sp);
      Some(DigitsValue(Group(line, ProgressPattern, sp)))
  }

  /** The arguments of one `ctx.report_progress(progress=..., total=100)`. */
  datatype ProgressReport = ProgressReport(progress: nat, total: nat)

  /** What is reported for one stdout line: only when a context is present
      and the line contains `%`, and then the parsed percentage out of 100. */
  function ReportedProgress(line: string, hasContext: bool): (r: Option<ProgressReport>)
    ensures r.Some? <==> hasContext && ParseProgress(line).Some?
    ensures r.Some? ==> r.value == ProgressReport(ParseProgress(line).value, ProgressTotal)
  {
    MatchHasPercent(line);
    if hasContext && '%' in line then
      match ParseProgress(line)
      case Some(n) => Some(ProgressReport(n, ProgressTotal))
      case None => None
    else None
  }

  /** The reports made while reading stdout line by line, in order. */
  function ReportsFor(lines: seq<string>, hasContext: bool): (r: seq<ProgressReport>)
    ensures |r| <= |lines|
    ensures !hasContext ==> r == []
    ensures forall k :: 0 <= k < |r| ==> r[k].total == ProgressTotal
  {
    if |lines| == 0 then []
    else
      var rest := ReportsFor(lines[1..], hasContext);
      match ReportedProgress(lines[0], hasContext)
      case Some(rep) => [rep] + rest
      case None => rest
  }

  // -----------------------------------------------------------------------
  // Properties
  // -----------------------------------------------------------------------

  /** One line read: a line the pattern matches adds exactly one report,
      with its value, in front of the reports for the lines after it; any
      other line adds none. */
  lemma ReportsForStep(line: string, rest: seq<string>, hasContext: bool)
    ensures hasContext && ParseProgress(line).Some? ==>
              ReportsFor([line] + rest, hasContext)
              == [ProgressReport(ParseProgress(line).value, ProgressTotal)] + ReportsFor(rest, hasContext)
    ensures !(hasContext && ParseProgress(line).Some?) ==>
              ReportsFor([line] + rest, hasContext) == ReportsFor(rest, hasContext)
  {
    assert ([line] + rest)[1..] == rest;
  }

  /** Reading the output in two parts reports the first part's percentages
      and then the second's: the reports keep the order of the lines. */
  lemma {:induction false} ReportsForAppend(a: seq<string>, b: seq<string>, hasContext: bool)
    ensures ReportsFor(a + b, hasContext) == ReportsFor(a, hasContext) + ReportsFor(b, hasContext)
    decreases |a|
  {
    if |a| == 0 {
      assert a + b == b;
    } else {
      assert a + b == [a[0]] + (a[1..] + b);
      assert a == [a[0]] + a[1..];
      ReportsForStep(a[0], a[1..] + b, hasContext);
      ReportsForStep(a[0], a[1..], hasContext);
      ReportsForAppend(a[1..], b, hasContext);
    }
  }


  /** Decimal rendering of a natural number, most significant digit first,
      no leading zeros. */
  function Decimal(n: nat): (d: string)
    ensures |d| > 0
    ensures forall j :: 0 <= j < |d| ==> IsDigit(d[j])
  {
    var c := ('0' as int + n % 10) as char;
    if n < 10 then [c] else Decimal(n / 10) + [c]
  }

  /** `int(str(n)) == n`. */
  lemma {:induction false} DecimalValue(n: nat)
    ensures DigitsValue(Decimal(n)) == n
  {
    var d := Decimal(n);
    if n >= 10 {
      DecimalValue(n / 10);
      assert d[..|d| - 1] == Decimal(n / 10);
    }
  }

  /** Every match ends at a `%` of the line. */
  lemma MatchHasPercent(line: string)
    ensures forall a, q :: MatchAt(line, ProgressPattern, a, q) ==> '%' in line
  {
    forall a, q | MatchAt(line, ProgressPattern, a, q) ensures '%' in line {
      assert line[q] == '%';
    }
  }

  /** Round trip: a line whose text before the number holds no digit,
      followed by the decimal rendering of `n` and `%`, reports `n`. */
  lemma ParseRendered(pre: string, n: nat, post: string)
    requires forall j :: 0 <= j < |pre| ==> !IsDigit(pre[j])
    ensures ParseProgress(pre + Decimal(n) + "%" + post) == Some(n)
  {
    var d := Decimal(n);
    var s := pre + d + "%" + post;
    var p, q := |pre|, |pre| + |d|;
    assert s[p..q] == d;
    assert OccursAt(s, "", p);
    assert MatchAt(s, ProgressPattern, p, q);
    forall a, b | 0 <= a < p ensures !MatchAt(s, ProgressPattern, a, b) {
      assert s[a] == pre[a];
    }
    SearchFindsFirst(s, ProgressPattern, p, q);
    assert Group(s, ProgressPattern, Span(p, q)) == d;
    DecimalValue(n);
  }

  /** A Gradle progress bar line reports its percentage. */
  lemma ProgressBarExample()
    ensures ParseProgress("<=====> 93% EXECUTING [19s]") == Some(93)
  {
    ProgressBarParts();
    ParseRendered("<=====> ", 93, " EXECUTING [19s]");
  }

  /** The pieces of the progress bar line. */
  lemma ProgressBarParts()
    ensures Decimal(93) == "93"
    ensures forall j :: 0 <= j < |"<=====> "| ==> !IsDigit("<=====> "[j])
    ensures "<=====> " + Decimal(93) + "%" + " EXECUTING [19s]" == "<=====> 93% EXECUTING [19s]"
  {
    assert Decimal(93) == "93";
  }

  /** The value is not clamped to the total: `150%` reports 150. */
  lemma NotClamped()
    ensures ParseProgress("150%") == Some(150)
  {
    RenderedPercent150();
    ParseRendered("", 150, "");
  }

  /** The line `150%` as a rendered percentage. */
  lemma RenderedPercent150()
    ensures "" + Decimal(150) + "%" + "" == "150%"
  {
    assert Decimal(1) == "1";
    assert Decimal(15) == Decimal(1) + "5";
    assert Decimal(150) == Decimal(15) + "0";
  }

  /** A line without a `%` reports nothing. */
  lemma NoPercentNoProgress(line: string)
    requires '%' !in line
    ensures ParseProgress(line) == None
  {
    MatchHasPercent(line);
  }
}
