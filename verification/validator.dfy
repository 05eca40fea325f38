/** `GradleWrapper._validate_gradle_args`: one left-to-right scan over the
    caller's extra arguments that rejects the first dangerous or unknown
    token (deny-by-default). */
module ArgValidator {
  import opened Text
  import opened Wrappers
  import opened ArgPolicy

  /** The outcome of validation: normal return, or the `ValueError` raised
      for a token "not allowed due to security concerns" or "not in the
      allow-list". */
  datatype Verdict = Ok | DangerousErr(arg: string) | UnknownErr(arg: string)

  /** `arg` is `d=value`, or `d` is a two-character flag and `arg` is `d`
      with something attached (`-Pkey=v`). */
  predicate DangerousPrefixed(arg: string, d: string) {
    StartsWith(arg, d + "=") || (|d| == 2 && StartsWith(arg, d) && |arg| > 2)
  }

  /** The two dangerous checks, exact membership then the prefix forms. */
  predicate IsDangerousForm(p: Policy, arg: string) {
    arg in p.dangerous || exists d :: d in p.dangerous && DangerousPrefixed(arg, d)
  }

  /** `arg.split('=')[0]`. */
  function BaseArg(arg: string): string {
    BeforeFirst(arg, '=')
  }

  /** The safe check: exact membership, or membership of the text before
      the first `=`. */
  predicate IsSafeForm(p: Policy, arg: string) {
    arg in p.safe || BaseArg(arg) in p.safe
  }

  /** A token the scan lets through when it examines it. */
  predicate Accepted(p: Policy, arg: string) {
    !IsDangerousForm(p, arg) && IsSafeForm(p, arg)
  }

  /** `args[j]` is the separate value of the value-taking flag `args[j-1]`;
      the scan skips it without checking it. */
  predicate IsValueOf(p: Policy, args: seq<string>, j: int) {
    0 < j < |args| && args[j - 1] in p.valueTaking && !StartsWith(args[j], "-")
  }

  /** Token `j` is fine for a scan that started at `lo`: it is accepted, or
      it is a skipped value (the token at `lo` itself is always examined). */
  predicate Covered(p: Policy, args: seq<string>, lo: int, j: int) {
    0 <= j < |args| && ((lo < j && IsValueOf(p, args, j)) || Accepted(p, args[j]))
  }

  /** Every token from `lo` on is fine. */
  predicate CoveredFrom(p: Policy, args: seq<string>, lo: int) {
    forall j :: lo <= j < |args| ==> Covered(p, args, lo, j)
  }

  /** `k` is the first token, from `lo` on, that is not fine. */
  predicate FirstOffence(p: Policy, args: seq<string>, lo: int, k: int) {
    lo <= k < |args| && !Covered(p, args, lo, k) && forall j :: lo <= j < k ==> Covered(p, args, lo, j)
  }

  /** There is at most one first offence. */
  lemma FirstOffenceUnique(p: Policy, args: seq<string>, lo: int, k1: int, k2: int)
    requires FirstOffence(p, args, lo, k1) && FirstOffence(p, args, lo, k2)
    ensures k1 == k2
  {
  }

  /** The `while` loop from cursor `i`: each step runs the dangerous checks,
      then the exact safe check (skipping the next token as the value of a
      value-taking flag unless it starts with `-`), then the `=`-prefix safe
      check, and otherwise rejects. The result is `Ok` exactly when every
      token from the cursor on is fine, and otherwise names the first token
      that is not, with the reason of the first check it fails. */
  function ValidateFrom(p: Policy, args: seq<string>, i: nat): (v: Verdict)
    requires WellFormed(p)
    requires i <= |args|
    ensures v.Ok? <==> CoveredFrom(p, args, i)
    ensures v.DangerousErr? ==>
              exists k :: FirstOffence(p, args, i, k) && IsDangerousForm(p, args[k]) && v.arg == args[k]
    ensures v.UnknownErr? ==>
              exists k :: && FirstOffence(p, args, i, k) && !IsDangerousForm(p, args[k])
                          && !IsSafeForm(p, args[k]) && v.arg == args[k]
    decreases |args| - i
  {
    if i == |args| then Ok
    else
      var arg := args[i];
      if arg in p.dangerous then
        assert FirstOffence(p, args, i, i);
        DangerousErr(arg)
      else if exists d :: d in p.dangerous && DangerousPrefixed(arg, d) then
        assert FirstOffence(p, args, i, i);
        DangerousErr(arg)
      else if arg in p.safe then
        if arg in p.valueTaking && i + 1 < |args| && !StartsWith(args[i + 1], "-") then
          SkipValueKeepsCoverage(p, args, i);
          ValidateFrom(p, args, i + 2)
        else
          StepKeepsCoverage(p, args, i);
          ValidateFrom(p, args, i + 1)
      else if BaseArg(arg) in p.safe then
        assert !IsValueOf(p, args, i + 1);
        StepKeepsCoverage(p, args, i);
        ValidateFrom(p, args, i + 1)
      else
        assert FirstOffence(p, args, i, i);
        UnknownErr(arg)
  }

  /** Moving the cursor from `i` to `lo` past tokens that are all fine, when
      the token at `lo` is examined rather than skipped, keeps coverage and
      first offences unchanged. */
  lemma AdvanceKeepsCoverage(p: Policy, args: seq<string>, i: nat, lo: nat)
    requires i < lo <= |args|
    requires forall j :: i <= j < lo ==> Covered(p, args, i, j)
    requires !IsValueOf(p, args, lo)
    ensures CoveredFrom(p, args, i) <==> CoveredFrom(p, args, lo)
    ensures forall k :: FirstOffence(p, args, lo, k) ==> FirstOffence(p, args, i, k)
  {
    assert forall j :: lo <= j < |args| ==> (Covered(p, args, i, j) <==> Covered(p, args, lo, j));
    forall k | FirstOffence(p, args, lo, k) ensures FirstOffence(p, args, i, k) {
      assert forall j :: i <= j < k ==> Covered(p, args, i, j);
    }
  }

  /** After an accepted token that does not swallow the next one, coverage
      from `i + 1` is coverage from `i`. */
  lemma StepKeepsCoverage(p: Policy, args: seq<string>, i: nat)
    requires i < |args| && Accepted(p, args[i])
    requires !IsValueOf(p, args, i + 1)
    ensures CoveredFrom(p, args, i) <==> CoveredFrom(p, args, i + 1)
    ensures forall k :: FirstOffence(p, args, i + 1, k) ==> FirstOffence(p, args, i, k)
  {
    assert Covered(p, args, i, i);
    AdvanceKeepsCoverage(p, args, i, i + 1);
  }

  /** After a value-taking flag and its value, coverage from `i + 2` is
      coverage from `i`: the value does not start with a dash, so it is not
      itself a value-taking flag. */
  lemma SkipValueKeepsCoverage(p: Policy, args: seq<string>, i: nat)
    requires WellFormed(p)
    requires i + 1 < |args| && Accepted(p, args[i])
    requires args[i] in p.valueTaking && !StartsWith(args[i + 1], "-")
    ensures CoveredFrom(p, args, i) <==> CoveredFrom(p, args, i + 2)
    ensures forall k :: FirstOffence(p, args, i + 2, k) ==> FirstOffence(p, args, i, k)
  {
    assert args[i + 1] !in p.valueTaking;
    assert Covered(p, args, i, i) && Covered(p, args, i, i + 1);
    AdvanceKeepsCoverage(p, args, i, i + 2);
  }

  /** The tokens of an optional argument list (`None` has none). */
  function Tokens(args: Option<seq<string>>): seq<string> {
    args.GetOr([])
  }

  /** Token `j` may reach the command line: it is accepted, or it is the
      value of the value-taking flag before it. */
  predicate Admitted(p: Policy, args: seq<string>, j: int) {
    0 <= j < |args| && (IsValueOf(p, args, j) || Accepted(p, args[j]))
  }

  /** `_validate_gradle_args(args)` against policy `p`: `None` and `[]`
      return at once; otherwise the scan runs from the first token. Returns
      normally exactly when every token is admitted, and otherwise reports
      the first token that is not, with the reason of the first check it
      fails. */
  function ValidateWith(p: Policy, args: Option<seq<string>>): (v: Verdict)
    requires WellFormed(p)
    ensures v.Ok? <==> forall j :: 0 <= j < |Tokens(args)| ==> Admitted(p, Tokens(args), j)
    ensures v.DangerousErr? ==>
              exists k :: && FirstOffence(p, Tokens(args), 0, k)
                          && IsDangerousForm(p, Tokens(args)[k]) && v.arg == Tokens(args)[k]
    ensures v.UnknownErr? ==>
              exists k :: && FirstOffence(p, Tokens(args), 0, k) && !IsDangerousForm(p, Tokens(args)[k])
                          && !IsSafeForm(p, Tokens(args)[k]) && v.arg == Tokens(args)[k]
  {
    match args
    case None => Ok
    case Some(a) =>
      if |a| == 0 then Ok
      else
        assert Tokens(args) == a;
        assert forall j :: Admitted(p, a, j) <==> Covered(p, a, 0, j);
        ValidateFrom(p, a, 0)
  }

  /** `_validate_gradle_args` with the wrapper's tables: returns normally
      exactly when every token is admitted, and otherwise names the first
      token that is not, flagged dangerous or unknown. */
  function Validate(args: Option<seq<string>>): (v: Verdict)
    ensures v.Ok? <==> forall j :: 0 <= j < |Tokens(args)| ==> Admitted(Gradle, Tokens(args), j)
    ensures v.DangerousErr? ==>
              exists k :: && FirstOffence(Gradle, Tokens(args), 0, k)
                          && IsDangerousForm(Gradle, Tokens(args)[k]) && v.arg == Tokens(args)[k]
    ensures v.UnknownErr? ==>
              exists k :: && FirstOffence(Gradle, Tokens(args), 0, k) && !IsDangerousForm(Gradle, Tokens(args)[k])
                          && !IsSafeForm(Gradle, Tokens(args)[k]) && v.arg == Tokens(args)[k]
  {
    GradleWellFormed();
    ValidateWith(Gradle, args)
  }

  // -----------------------------------------------------------------------
  // Properties
  // -----------------------------------------------------------------------

  /** No dangerous flag gets through: after a normal return, no token equals
      a dangerous flag, starts with `flag=`, or (for a two-character flag)
      carries an attached value. Skipped values are covered too, because
      they never start with a dash and every dangerous flag does. */
  lemma NoDangerousFlagPassesWith(p: Policy, args: seq<string>)
    requires WellFormed(p)
    requires ValidateWith(p, Some(args)).Ok?
    ensures forall j, d :: 0 <= j < |args| && d in p.dangerous ==>
              args[j] != d && !DangerousPrefixed(args[j], d)
  {
    assert Tokens(Some(args)) == args;
    forall j, d | 0 <= j < |args| && d in p.dangerous
      ensures args[j] != d && !DangerousPrefixed(args[j], d)
    {
      assert Admitted(p, args, j);
      if IsValueOf(p, args, j) {
        var t := args[j];
        assert StartsWith(d, "-");
        assert StartsWith(d + "=", "-") by {
          assert (d + "=")[..1] == d[..1];
        }
        if StartsWith(t, d + "=") {
          StartsWithTrans(t, d + "=", "-");
        }
        if StartsWith(t, d) {
          StartsWithTrans(t, d, "-");
        }
      }
    }
  }

  /** The same guarantee for the wrapper's tables. */
  lemma NoDangerousFlagPasses(args: seq<string>)
    requires Validate(Some(args)).Ok?
    ensures forall j, d :: 0 <= j < |args| && d in DangerousArgs ==>
              args[j] != d && !DangerousPrefixed(args[j], d)
  {
    GradleWellFormed();
    NoDangerousFlagPassesWith(Gradle, args);
  }

  /** Deny-by-default: after a normal return, every token is a safe flag,
      has a safe flag before its first `=`, or is the value following a
      value-taking flag. */
  lemma OnlyAllowListedPass(args: seq<string>)
    requires Validate(Some(args)).Ok?
    ensures forall j :: 0 <= j < |args| ==>
              || args[j] in SafeArgs || BaseArg(args[j]) in SafeArgs
              || (j > 0 && args[j - 1] in ValueTakingArgs && !StartsWith(args[j], "-"))
  {
    GradleWellFormed();
    assert Tokens(Some(args)) == args;
    assert Gradle.safe == SafeArgs && Gradle.valueTaking == ValueTakingArgs;
    forall j | 0 <= j < |args|
      ensures || args[j] in SafeArgs || BaseArg(args[j]) in SafeArgs
              || (j > 0 && args[j - 1] in ValueTakingArgs && !StartsWith(args[j], "-"))
    {
      assert Admitted(Gradle, args, j);
    }
  }

  /** Coverage of a prefix is unaffected by what follows it. */
  lemma PrefixCoverage(p: Policy, pre: seq<string>, rest: seq<string>)
    ensures forall j :: 0 <= j < |pre| ==> (Admitted(p, pre + rest, j) <==> Admitted(p, pre, j))
  {
    forall j | 0 <= j < |pre|
      ensures Admitted(p, pre + rest, j) <==> Admitted(p, pre, j)
    {
      assert (pre + rest)[j] == pre[j];
      if j > 0 {
        assert (pre + rest)[j - 1] == pre[j - 1];
      }
    }
  }

  /** A token starting with a dash that fails the checks is reported, with
      its reason, wherever it appears after an argument list that would
      itself be accepted. */
  lemma OffendingTokenRejectedWith(p: Policy, pre: seq<string>, t: string, post: seq<string>)
    requires WellFormed(p)
    requires ValidateWith(p, Some(pre)).Ok?
    requires StartsWith(t, "-") && !Accepted(p, t)
    ensures IsDangerousForm(p, t) ==> ValidateWith(p, Some(pre + [t] + post)) == DangerousErr(t)
    ensures !IsDangerousForm(p, t) ==> ValidateWith(p, Some(pre + [t] + post)) == UnknownErr(t)
  {
    var args := pre + [t] + post;
    var k := |pre|;
    assert Tokens(Some(pre)) == pre;
    assert Tokens(Some(args)) == args;
    PrefixCoverage(p, pre, [t] + post);
    assert args == pre + ([t] + post);
    assert args[k] == t;
    assert FirstOffence(p, args, 0, k) by {
      forall j | 0 <= j < k ensures Covered(p, args, 0, j) {
        assert Admitted(p, pre, j);
        assert Admitted(p, args, j);
      }
    }
    var v := ValidateWith(p, Some(args));
    if v.DangerousErr? {
      var k' :| FirstOffence(p, args, 0, k') && IsDangerousForm(p, args[k']) && v.arg == args[k'];
      FirstOffenceUnique(p, args, 0, k, k');
    } else if v.UnknownErr? {
      var k' :| FirstOffence(p, args, 0, k') && !IsDangerousForm(p, args[k']) && v.arg == args[k'];
      FirstOffenceUnique(p, args, 0, k, k');
    }
  }

  /** For the wrapper's tables: an unknown or dangerous dash-token is
      rejected after any accepted prefix. */
  lemma OffendingTokenRejected(pre: seq<string>, t: string, post: seq<string>)
    requires Validate(Some(pre)).Ok?
    requires StartsWith(t, "-") && !Accepted(Gradle, t)
    ensures IsDangerousForm(Gradle, t) ==> Validate(Some(pre + [t] + post)) == DangerousErr(t)
    ensures !IsDangerousForm(Gradle, t) ==> Validate(Some(pre + [t] + post)) == UnknownErr(t)
  {
    GradleWellFormed();
    OffendingTokenRejectedWith(Gradle, pre, t, post);
  }

  /** Every dangerous flag is rejected on its own, whatever accepted
      arguments precede it and whatever follows. */
  lemma DangerousFlagRejectedAnywhere(pre: seq<string>, d: string, post: seq<string>)
    requires Validate(Some(pre)).Ok?
    requires d in DangerousArgs
    ensures Validate(Some(pre + [d] + post)) == DangerousErr(d)
  {
    GradleWellFormed();
    OffendingTokenRejectedWith(Gradle, pre, d, post);
  }

  /** `None` and the empty list are accepted. */
  lemma EmptyArgumentsAccepted()
    ensures Validate(None) == Ok
    ensures Validate(Some([])) == Ok
  {
  }

  /** The loop over the deny-list amounts to three membership tests: the
      token itself, the text before its first `=` when there is an `=`, and
      its first two characters when it is longer than two. */
  lemma DangerousFormIff(p: Policy, arg: string)
    requires forall d :: d in p.dangerous ==> '=' !in d
    ensures IsDangerousForm(p, arg) <==>
              || arg in p.dangerous
              || (BaseArg(arg) in p.dangerous && |BaseArg(arg)| < |arg|)
              || (|arg| > 2 && arg[..2] in p.dangerous)
  {
    var b := BaseArg(arg);
    if exists d :: d in p.dangerous && DangerousPrefixed(arg, d) {
      var d :| d in p.dangerous && DangerousPrefixed(arg, d);
      if StartsWith(arg, d + "=") {
        assert arg[..|d|] == d && arg[|d|] == '=' by {
          assert arg[..|d| + 1] == d + "=";
          assert arg[..|d|] == arg[..|d| + 1][..|d|];
        }
        BeforeFirstAt(arg, |d|, '=');
      } else {
        assert arg[..2] == d;
      }
    }
    if b in p.dangerous && |b| < |arg| {
      assert arg[..|b| + 1] == b + "=" by {
        assert arg[..|b|] == b;
        assert arg[|b|] == '=';
      }
      assert DangerousPrefixed(arg, b);
    }
    if |arg| > 2 && arg[..2] in p.dangerous {
      assert DangerousPrefixed(arg, arg[..2]);
    }
  }

  /** A sufficient test for acceptance: the token or its `=`-prefix is
      safe, and neither the token nor its first two characters are on the
      deny-list. */
  lemma AcceptedByParts(p: Policy, arg: string)
    requires WellFormed(p)
    requires arg in p.safe || BaseArg(arg) in p.safe
    requires arg !in p.dangerous
    requires |arg| <= 2 || arg[..2] !in p.dangerous
    ensures Accepted(p, arg)
  {
    DangerousFormIff(p, arg);
    if arg in p.safe {
      BeforeFirstNoSep(arg, '=');
    } else {
      assert BaseArg(arg) !in p.safe * p.dangerous;
    }
  }

  /** For the wrapper's tables: a long option, or a token of at most two
      characters, that is safe (or has a safe `=`-prefix) and is not itself
      on the deny-list is accepted. */
  lemma AcceptedFlag(arg: string)
    requires arg in SafeArgs || BaseArg(arg) in SafeArgs
    requires arg !in DangerousArgs
    requires |arg| <= 2 || (|arg| > 1 && arg[1] == '-')
    ensures Accepted(Gradle, arg)
  {
    GradleWellFormed();
    ShortDangerousShape();
    if |arg| > 2 {
      assert arg[..2][1] == '-';
    }
    AcceptedByParts(Gradle, arg);
  }

  /** `--parallel --max-workers 4` is accepted: the `4` is skipped as the
      value of `--max-workers`. */
  lemma ParallelAdmitted()
    ensures Admitted(Gradle, ["--parallel", "--max-workers", "4"], 0)
  {
    AcceptedFlag("--parallel");
  }

  lemma MaxWorkersAdmitted()
    ensures Admitted(Gradle, ["--parallel", "--max-workers", "4"], 1)
  {
    AcceptedFlag("--max-workers");
  }

  /** `--parallel --max-workers 4` is accepted: the `4` is skipped as the
      value of `--max-workers`. */
  lemma SeparateValueAccepted()
    ensures Validate(Some(["--parallel", "--max-workers", "4"])) == Ok
  {
    var a := ["--parallel", "--max-workers", "4"];
    forall j | 0 <= j < |a| ensures Admitted(Gradle, a, j) {
      if j == 0 {
        ParallelAdmitted();
      } else if j == 1 {
        MaxWorkersAdmitted();
      } else {
        WorkerCountAdmitted();
      }
    }
    assert Tokens(Some(a)) == a;
    GradleWellFormed();
  }

  /** The `4` after `--max-workers` is admitted as its value. */
  lemma WorkerCountAdmitted()
    ensures Admitted(Gradle, ["--parallel", "--max-workers", "4"], 2)
  {
    var a := ["--parallel", "--max-workers", "4"];
    assert a[1] in ValueTakingArgs;
    assert a[2][..1][0] == '4';
  }

  /** A property with the value attached to `-P` is refused as dangerous. */
  lemma AttachedPropertyRejected()
    ensures Validate(Some(["-Pfoo=bar"])) == DangerousErr("-Pfoo=bar")
  {
    assert DangerousPrefixed("-Pfoo=bar", "-P");
    LoneFlagRejected("-Pfoo=bar");
  }

  /** `--init-script=evil.gradle` is refused as dangerous. */
  lemma InitScriptAssignmentRejected()
    ensures Validate(Some(["--init-script=evil.gradle"])) == DangerousErr("--init-script=evil.gradle")
  {
    assert DangerousPrefixed("--init-script=evil.gradle", "--init-script");
    LoneFlagRejected("--init-script=evil.gradle");
  }

  /** A long option with no `=` that is on neither list is neither safe
      nor dangerous. */
  lemma UnlistedLongOption(arg: string)
    requires '=' !in arg && StartsWith(arg, "--")
    requires arg !in SafeArgs && arg !in DangerousArgs
    ensures !IsDangerousForm(Gradle, arg) && !IsSafeForm(Gradle, arg)
  {
    BeforeFirstNoSep(arg, '=');
    DangerousArgsShape();
    ShortDangerousShape();
    DangerousFormIff(Gradle, arg);
    if |arg| > 2 {
      assert arg[..2][1] == '-';
    }
  }

  /** A lone flag the scan does not accept is refused, with the reason of
      the first check it fails. */
  lemma LoneFlagRejected(t: string)
    requires StartsWith(t, "-") && !Accepted(Gradle, t)
    ensures IsDangerousForm(Gradle, t) ==> Validate(Some([t])) == DangerousErr(t)
    ensures !IsDangerousForm(Gradle, t) ==> Validate(Some([t])) == UnknownErr(t)
  {
    EmptyArgumentsAccepted();
    OffendingTokenRejected([], t, []);
    assert [] + [t] + [] == [t];
  }

  /** An unknown flag is refused as not allow-listed. */
  lemma UnknownFlagRejected()
    ensures Validate(Some(["--offline"])) == UnknownErr("--offline")
  {
    var t := "--offline";
    assert t !in SafeArgs && t !in DangerousArgs;
    assert t[..2] == "--" && t[..1] == "-";
    UnlistedLongOption(t);
    LoneFlagRejected(t);
  }
}
