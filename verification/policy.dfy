/** The static policy tables of `GradleWrapper`: the allow-list of safe
    flags, the deny-list of dangerous flags, and the three safe flags that
    consume a following value. */
module ArgPolicy {
  import opened Text

  /** Flags accepted verbatim by `run_task` (logging, performance,
      execution, task exclusion and daemon options). */
  const SafeArgs: set<string> := {
    "--debug", "-d",
    "--info", "-i",
    "--warn", "-w",
    "--quiet", "-q",
    "--stacktrace", "-s",
    "--full-stacktrace", "-S",
    "--scan",
    "--no-scan",
    "--build-cache",
    "--no-build-cache",
    "--configure-on-demand",
    "--no-configure-on-demand",
    "--max-workers",
    "--parallel",
    "--no-parallel",
    "--continue",
    "--dry-run", "-m",
    "--refresh-dependencies",
    "--rerun-tasks",
    "--profile",
    "-x", "--exclude-task",
    "--daemon",
    "--no-daemon",
    "--foreground",
    "--stop",
    "--status"
  }

  /** Flags that can execute code or reach arbitrary files; never allowed,
      alone, as `<flag>=value`, or (for two-character flags) with the value
      attached. */
  const DangerousArgs: set<string> := {
    "--init-script", "-I",
    "--project-prop", "-P",
    "--system-prop", "-D",
    "--settings-file", "-c",
    "--build-file", "-b",
    "--gradle-user-home", "-g",
    "--project-dir", "-p",
    "--include-build",
    "--write-verification-metadata"
  }

  /** Safe flags whose value may follow as a separate token. */
  const ValueTakingArgs: set<string> := {"--max-workers", "-x", "--exclude-task"}

  /** An argument policy: the allow-list, the deny-list and the allow-listed
      flags that take a separate value. The validator is written against
      any policy; `Gradle` is the one the wrapper uses. */
  datatype Policy = Policy(safe: set<string>, dangerous: set<string>, valueTaking: set<string>)

  /** What the validator's guarantees rely on: the two lists are disjoint,
      value-taking flags are safe, every listed flag starts with a dash (so
      a token that does not start with a dash can never be one), and no
      listed flag contains `=`. */
  predicate WellFormed(p: Policy) {
    && p.safe * p.dangerous == {}
    && p.valueTaking <= p.safe
    && (forall d :: d in p.dangerous ==> StartsWith(d, "-"))
    && (forall v :: v in p.valueTaking ==> StartsWith(v, "-"))
    && (forall a :: a in p.safe ==> '=' !in a)
    && (forall d :: d in p.dangerous ==> '=' !in d)
  }

  /** The wrapper's policy. */
  const Gradle: Policy := Policy(SafeArgs, DangerousArgs, ValueTakingArgs)

  /** No safe flag contains `=`. */
  lemma SafeArgsShape()
    ensures forall a :: a in SafeArgs ==> '=' !in a
  {
  }

  /** Every dangerous flag starts with a dash and contains no `=`. */
  lemma DangerousArgsShape()
    ensures forall d :: d in DangerousArgs ==> '=' !in d
    ensures forall d :: d in DangerousArgs ==> StartsWith(d, "-")
  {
  }

  /** The two-character dangerous flags are a dash and a letter. */
  lemma ShortDangerousShape()
    ensures forall d :: d in DangerousArgs && |d| == 2 ==> d[0] == '-' && d[1] != '-'
  {
  }

  /** No flag is both safe and dangerous. */
  lemma PolicyDisjoint()
    ensures SafeArgs * DangerousArgs == {}
  {
  }

  /** The wrapper's tables are consistent. */
  lemma GradleWellFormed()
    ensures WellFormed(Gradle)
  {
    SafeArgsShape();
    DangerousArgsShape();
    PolicyDisjoint();
  }
}
