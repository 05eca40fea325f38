# GradleWrapper core, modelled in Dafny

This project models the core of gradle-mcp's `GradleWrapper`
(`src/gradle_mcp/gradle.py`). That is the class behind the MCP tools that
list a Gradle workspace's projects and tasks, run a task and clean a
project. The model covers:

- **Policy tables.** The cleaning-task patterns, the allow-list of safe
  Gradle arguments, the block-list of dangerous ones, and the three flags
  that take a separate value (module `ArgPolicy`).
- **`_validate_gradle_args`.** The left-to-right argument scan: exact
  dangerous flags, `flag=value` and attached-value forms of dangerous
  flags, allow-listed flags with or without `=value`, and the skipped value
  after `--max-workers`, `-x` or `--exclude-task` (module `ArgValidator`).
- **`_is_cleaning_task`.** Lower-casing followed by `re.match` against the
  four patterns. `.*` stops at a newline and `$` also matches before a
  final newline; both are modelled (module `TaskClassifier`).
- **`_extract_error_message`.** The combined output, the forward marker
  scan, the backward scan from `FAILURE:` / `BUILD FAILED` that stops at
  tasks which did not fail, and the fallbacks of 100 lines of context and
  the last 50 lines (module `ErrorExtractor`).
- **The progress parser of `run_task`/`clean`.** A `re.search` for `(\d+)%`
  and the report with total 100 (modules `RegexSearch` and `Progress`).
- **The parsers of `list_projects` and `list_tasks`.** Root-project
  detection, `Project '...'` extraction, group headers, skipped rules,
  `name - description` lines and the stop at the help text (module
  `Listing`). Round-trip lemmas show that a rendered project tree and a
  rendered task report parse back to what was rendered.
- **The operations that start Gradle.** The refusals `run_task` makes
  before running anything, the command lines of all four operations, and
  the mapping of the return code, output and exceptions to the result
  (module `Gateway`). Running a process is a parameter
  `run: seq<string> -> ProcessOutcome`.

Python's string helpers (`strip`, `split`, `'\n'.join`, `replace`, `lower`,
`startswith`, `in`) are in module `Text`. `Optional` and exceptions become
`Option` and `Result` (module `Wrappers`).

## Model

| member | source | states |
|---|---|---|
| ArgPolicy.PolicyDisjoint | src/gradle_mcp/gradle.py:45-95 | No argument is both allow-listed and block-listed, so the order of the checks in the scan never hides a dangerous flag. |
| ArgPolicy.DangerousArgsShape | src/gradle_mcp/gradle.py:85-95 | Every dangerous flag starts with `-` and contains no `=`. |
| ArgPolicy.ShortDangerousShape | src/gradle_mcp/gradle.py:85-95 | Every two-character dangerous flag is a dash followed by a non-dash letter (`-I`, `-D`, `-P`), which is the form whose attached value the scan also catches. |
| ArgPolicy.SafeArgsShape | src/gradle_mcp/gradle.py:45-81 | No allow-listed argument contains `=`, so `split('=')[0]` of a listed flag is the flag itself. |
| ArgPolicy.GradleWellFormed | src/gradle_mcp/gradle.py:45-95 | The tables are well formed: the lists are disjoint, the value-taking flags of line 177 are allow-listed, and flags start with a dash and contain no `=`. |
| ArgValidator.ValidateFrom | src/gradle_mcp/gradle.py:154-194 | The scan from token `i` returns normally iff every later token is accepted or is a skipped value. Otherwise it reports the first offending token, as dangerous when it is in a dangerous form and as unknown when it is neither dangerous nor safe. |
| ArgValidator.ValidateWith | src/gradle_mcp/gradle.py:151-194 | `None` and `[]` are accepted. Otherwise the whole list is accepted iff every token is admitted. A rejection names the first token that is not admitted, with the reason of the first check it fails. |
| ArgValidator.Validate | src/gradle_mcp/gradle.py:151-194 | With the wrapper's tables: the arguments are accepted iff every token is admitted. Otherwise the first token that is not admitted is named, as dangerous or as unknown by its form. |
| ArgValidator.NoDangerousFlagPasses | src/gradle_mcp/gradle.py:158-172 | After acceptance no token equals a dangerous flag, starts with `flag=`, or carries a value attached to a two-character dangerous flag. Skipped values are included. |
| ArgValidator.OnlyAllowListedPass | src/gradle_mcp/gradle.py:174-188 | After acceptance every token is allow-listed, or its text before `=` is, or it is a value without a leading dash that follows a value-taking flag. |
| ArgValidator.OffendingTokenRejected | src/gradle_mcp/gradle.py:155-194 | Suppose an accepted prefix is followed by a dash-led token that is not accepted. Then the whole list is rejected on that token, whatever follows, and the kind of error is dangerous iff the token is in a dangerous form. |
| ArgValidator.DangerousFlagRejectedAnywhere | src/gradle_mcp/gradle.py:159-163 | A dangerous flag placed after any accepted prefix makes the list fail with a dangerous-argument error naming that flag. |
| ArgValidator.EmptyArgumentsAccepted | src/gradle_mcp/gradle.py:151-152 | An absent or empty argument list is accepted. |
| ArgValidator.DangerousFormIff | src/gradle_mcp/gradle.py:159-172 | A token is dangerous iff one of three holds: it is a listed dangerous flag; its text before the first `=` is one, and an `=` follows; or its first two characters form a listed flag and more follows. |
| ArgValidator.FirstOffenceUnique | src/gradle_mcp/gradle.py:155-194 | The first offending token is unique, so the reported argument is determined by the input. |
| ArgValidator.AcceptedFlag | src/gradle_mcp/gradle.py:174-188 | A dash-dash flag that is allow-listed, alone or before `=`, and is not dangerous is accepted. |
| ArgValidator.SeparateValueAccepted | src/gradle_mcp/gradle.py:175-182 | `--parallel --max-workers 4` is accepted: the `4` is skipped as the value of `--max-workers`. |
| ArgValidator.WorkerCountAdmitted | src/gradle_mcp/gradle.py:177-180 | In `--parallel --max-workers 4`, the `4` is admitted as a value and not as a flag. |
| ArgValidator.AttachedPropertyRejected | src/gradle_mcp/gradle.py:167-172 | `-Pfoo=bar` is rejected as dangerous through its `-P` prefix. |
| ArgValidator.InitScriptAssignmentRejected | src/gradle_mcp/gradle.py:167-172 | `--init-script=evil.gradle` is rejected as dangerous through the `flag=` form. |
| ArgValidator.UnlistedLongOption | src/gradle_mcp/gradle.py:184-194 | A long option without `=` that is on neither list is neither dangerous nor safe, so the scan rejects it as unknown. |
| ArgValidator.LoneFlagRejected | src/gradle_mcp/gradle.py:155-194 | A single dash-led token that is not accepted is rejected with the error kind its form determines. |
| ArgValidator.UnknownFlagRejected | src/gradle_mcp/gradle.py:190-194 | `--offline`, which is not listed, is rejected as unknown. |
| TaskClassifier.AnyMatch | src/gradle_mcp/gradle.py:133-136 | The pattern loop returns true iff some pattern in the list matches. |
| TaskClassifier.IsCleaningTask | src/gradle_mcp/gradle.py:123-136 | A task is a cleaning task iff one of the four patterns matches its lower-cased name. |
| TaskClassifier.TrailingMatchIff | src/gradle_mcp/gradle.py:38 | The direct test for `.*clean$` agrees with the regex semantics in both directions: `.*` takes newline-free text, then `clean`, then the end of the string or a final newline. |
| TaskClassifier.CleaningIff | src/gradle_mcp/gradle.py:36-41 | A task is cleaning iff its lower-cased name starts with `clean` or `.*clean$` matches it. |
| TaskClassifier.CamelCasePatternsDead | src/gradle_mcp/gradle.py:39-40 | `^cleanBuild.*` and `^cleanTest.*` never match a lower-cased name, because they hold a capital. |
| TaskClassifier.SingleLineCleaningIff | src/gradle_mcp/gradle.py:36-41 | For a name without a newline: cleaning iff the lower-cased name starts or ends with `clean`. |
| TaskClassifier.CaseInsensitive | src/gradle_mcp/gradle.py:132 | Classification does not depend on letter case: a name and its lower-cased form are classified alike. |
| TaskClassifier.QualifiedCleanIsCleaning | src/gradle_mcp/gradle.py:38 | Any single-line project prefix followed by `clean` is a cleaning task. |
| TaskClassifier.NotCleanAtEitherEnd | src/gradle_mcp/gradle.py:36-41 | A single-line name without capitals that neither starts with `c` nor ends with `n` is not a cleaning task. |
| TaskClassifier.CleanRefused | src/gradle_mcp/gradle.py:37 | `clean` is a cleaning task. |
| TaskClassifier.UpperCleanRefused | src/gradle_mcp/gradle.py:132-134 | `CLEAN` is a cleaning task. |
| TaskClassifier.QualifiedCleanRefused | src/gradle_mcp/gradle.py:38 | `:app:clean` is a cleaning task. |
| TaskClassifier.BuildAllowed | src/gradle_mcp/gradle.py:36-41 | `build` and `:app:assemble` are not cleaning tasks. |
| TaskClassifier.TrailingNewlineRefused | src/gradle_mcp/gradle.py:38 | `buildclean` followed by a newline is a cleaning task, because `$` matches before a final newline. |
| TaskClassifier.InnerNewlineAllowed | src/gradle_mcp/gradle.py:37-38 | `build`, a newline, then `clean` is not a cleaning task, because `.` does not cross a newline. |
| ErrorExtractor.CombineOutput | src/gradle_mcp/gradle.py:213 | The combined text is stdout, a newline and stderr when both are non-empty. It is the one non-empty stream when only one is, and the default message when both are empty. |
| ErrorExtractor.OutputLines | src/gradle_mcp/gradle.py:214 | The lines contain no newline, and joined back with newlines they give the stripped combined text. |
| ErrorExtractor.ScanMarkers | src/gradle_mcp/gradle.py:224-238 | The forward scan records the first failed-task line, the first `FAILURE:`/`* What went wrong:` line and the last `BUILD FAILED` line. |
| ErrorExtractor.ScanFrom | src/gradle_mcp/gradle.py:229-238 | Continuing the scan from any line keeps the first/first/last records correct for all lines. |
| ErrorExtractor.BackScan | src/gradle_mcp/gradle.py:244-258 | The backward scan from the marker yields the earliest failed-task line reachable before a stopping line. If none is reachable, the scan keeps the earlier choice. |
| ErrorExtractor.FailureStart | src/gradle_mcp/gradle.py:240-261 | With a marker that reaches some failed-task line backwards, the start is the earliest reachable one. Without a marker, or when none is reachable, the start is the first failed-task line. It is a failed-task line, and there is one whenever some failed-task line exists. |
| ErrorExtractor.Message | src/gradle_mcp/gradle.py:260-269 | The message is always either the whole combined output or a run of lines that reaches the last line. |
| ErrorExtractor.MessageStartsAtFailedTask | src/gradle_mcp/gradle.py:229-262 | When any line reports a failed task, the message runs from a failed-task line to the end. |
| ErrorExtractor.ChainBeforeMarkerKept | src/gradle_mcp/gradle.py:240-262 | When no stopping line lies between the first failed task and the marker, the message starts at that first failed task. |
| ErrorExtractor.EarlierFailureDropped | src/gradle_mcp/gradle.py:246-258 | A failure before a stopping line (an up-to-date task, say) is replaced by the later failure the backward scan reaches: the message starts after the stopping line. |
| ErrorExtractor.ReachableBelowStop | src/gradle_mcp/gradle.py:251-258 | No line at or before a stopping line is reachable by the backward scan. |
| ErrorExtractor.BuildFailedFallback | src/gradle_mcp/gradle.py:264-266 | Without failed-task lines the message runs from 100 lines before the last `BUILD FAILED` (or from line 0) to the end of the output. |
| ErrorExtractor.TailFallback | src/gradle_mcp/gradle.py:267-269 | Without failed-task and `BUILD FAILED` lines the message is the last 50 lines, or the whole combined text when there are at most 50. |
| ErrorExtractor.DefaultWhenNoOutput | src/gradle_mcp/gradle.py:213-214 | With empty stdout and stderr the message is the default message. |
| ErrorExtractor.ExtractError | src/gradle_mcp/gradle.py:196-269 | The message is the combined output or a run of its lines reaching the last one. Whenever some line reports a failed task, it is a run starting at a failed-task line. |
| ErrorExtractor.FirstUnique | src/gradle_mcp/gradle.py:229-236 | The first marker of a kind is determined by the lines. |
| ErrorExtractor.LastUnique | src/gradle_mcp/gradle.py:237-238 | The last `BUILD FAILED` line is determined by the lines. |
| RegexSearch.SearchFrom | src/gradle_mcp/gradle.py:484 | `search` returns nothing iff no match starts at or after the position; otherwise it returns the leftmost match. |
| RegexSearch.SearchFindsFirst | src/gradle_mcp/gradle.py:484 | A match with none to its left is the one `search` returns. |
| Progress.ParseProgress | src/gradle_mcp/gradle.py:460 | `(\d+)%` finds nothing iff no digit run is followed by `%`. Otherwise the value is the decimal value of the leftmost match's digits. |
| Progress.ReportedProgress | src/gradle_mcp/gradle.py:482-487 | A progress report is sent iff there is a context and the line matches. The report carries the parsed value and the total 100. |
| Progress.ReportsFor | src/gradle_mcp/gradle.py:476-487 | The stdout lines give at most one report each, none without a context, and every report has total 100. |
| Progress.ReportsForStep | src/gradle_mcp/gradle.py:482-487 | One line read: a line the pattern matches, with a context, puts exactly its report in front of the reports for the later lines. Any other line adds none. |
| Progress.ReportsForAppend | src/gradle_mcp/gradle.py:476-487 | Reading the output in two parts gives the first part's reports followed by the second's: reports keep the order of the lines. |
| Progress.DecimalValue | src/gradle_mcp/gradle.py:486 | `int(...)` reads a printed decimal number back as the number. |
| Progress.ParseRendered | src/gradle_mcp/gradle.py:484-486 | Round trip: a line of a digit-free prefix, a percentage printed as `n%`, then anything, parses to `n`. |
| Progress.ProgressBarExample | src/gradle_mcp/gradle.py:459 | The progress bar `<=====> 93% EXECUTING [19s]` gives 93. |
| Progress.NotClamped | src/gradle_mcp/gradle.py:486-487 | `150%` reports 150: the value is not clamped to the total. |
| Progress.NoPercentNoProgress | src/gradle_mcp/gradle.py:483 | A line without `%` reports nothing. |
| Listing.SubprojectName | src/gradle_mcp/gradle.py:311-315 | Without a `Project '...'` match there is no name. Otherwise the name is group 1 of the leftmost match, or none when that group is `:`. |
| Listing.ClassifyProjectLine | src/gradle_mcp/gradle.py:296-321 | A line gives the root entry iff it mentions `Root project` and the root was not yet added. It gives a subproject entry iff it contains `Project '`, does not mention `Root project`, and yields a name; the entry carries that name. |
| Listing.ProjectsFrom | src/gradle_mcp/gradle.py:292-321 | Every entry has the project-root path. An entry is named `:` iff it is the root entry. Subproject entries have no description. |
| Listing.RootAtMostOnce | src/gradle_mcp/gradle.py:290-305 | The root entry occurs at most once in the result, and not at all once it has been added. |
| Listing.RootPresentIff | src/gradle_mcp/gradle.py:292-305 | Before the root is added, the root entry is produced iff some stripped line mentions `Root project`. |
| Listing.ParseProjects | src/gradle_mcp/gradle.py:292-323 | Every project has the project-root path. The root entry occurs at most once, and it occurs iff some line mentions `Root project`. |
| Listing.SubprojectLineParses | src/gradle_mcp/gradle.py:292-321 | A subproject line with any indentation and any tree branch (`+--- `, `\--- `, or a nested one under a vertical bar) strips to the branch line, which yields exactly that subproject. |
| Listing.BranchLineMatch | src/gradle_mcp/gradle.py:311-315 | In a branch line the leftmost `Project '...'` match is the printed one, so the name read is the printed name. |
| Listing.RootLineParses | src/gradle_mcp/gradle.py:296-305 | The `Root project '...'` line yields the root entry. |
| Listing.SubprojectLinesParse | src/gradle_mcp/gradle.py:292-321 | Subproject lines after the root parse to the subprojects in order. |
| Listing.ParseProjectTree | src/gradle_mcp/gradle.py:289-323 | Round trip: a printed tree of a root and indented, branched subprojects parses to the root entry followed by the subprojects, in order. |
| Listing.MatchTaskLine | src/gradle_mcp/gradle.py:382-397 | A matched line's task name is a non-empty run of word characters. |
| Listing.MatchTaskLineMeaning | src/gradle_mcp/gradle.py:382-397 | The first pattern matches iff the line is a word run, spaces, `-`, spaces and more. The name is the whole word run and the description is the rest after the greedy spaces. The second pattern matches iff the line is one word run, which is the name. |
| Listing.ClassifyTaskLine | src/gradle_mcp/gradle.py:359-397 | A line is skipped iff it is empty or is decoration and not a header. It is a header iff it is non-empty, ends with ` tasks` and starts with a capital, and the group it names is the line with ` tasks` removed, stripped. It stops the parse iff it is help text that is neither a header nor decoration. Otherwise an entry is the line's match. |
| Listing.TaskOf | src/gradle_mcp/gradle.py:383-405 | A matched line becomes a task of the current project and group, with the description or an empty one. |
| Listing.TasksFrom | src/gradle_mcp/gradle.py:358-405 | Every parsed task belongs to the project and has a word-character name, and there are no more tasks than lines. |
| Listing.ParseTasks | src/gradle_mcp/gradle.py:358-405 | Every parsed task belongs to the project and has a word-character name, and no task is parsed unless some line is a group header. |
| Listing.NoHeaderNoTasks | src/gradle_mcp/gradle.py:366-380 | When no line is a group header, no line is read as a task. |
| Listing.HelpTextStops | src/gradle_mcp/gradle.py:375-377 | Nothing after the help text (`To see all tasks`, `BUILD ...`) is read. |
| Listing.HeaderParses | src/gradle_mcp/gradle.py:366-369 | `Title tasks` is a header naming the group `Title`. |
| Listing.RuleSkipped | src/gradle_mcp/gradle.py:372-373 | A rule of dashes is skipped. |
| Listing.TaskEntryParses | src/gradle_mcp/gradle.py:359-397 | A listed task's printed line, `name` or `name - description`, reads back as that name and description. |
| Listing.EntriesParse | src/gradle_mcp/gradle.py:380-405 | A group's printed entries parse to its tasks, in order. |
| Listing.SectionParses | src/gradle_mcp/gradle.py:358-405 | A section (header, rule, entries) parses to the group's tasks and leaves the group current. |
| Listing.ReportParses | src/gradle_mcp/gradle.py:358-407 | Printed sections followed by help text parse to all the groups' tasks. |
| Listing.ParseTaskReport | src/gradle_mcp/gradle.py:354-407 | Round trip: a printed `tasks --all` report parses to exactly the tasks it lists, group by group. |
| Gateway.RunTaskCommand | src/gradle_mcp/gradle.py:430-444 | The command is built iff the task is not cleaning and every argument is admitted. It is the wrapper, the task, `--no-build-cache` and the arguments unchanged. A refusal names the cleaning task, or carries the validator's error. |
| Gateway.RunTaskRefusesIff | src/gradle_mcp/gradle.py:430-438 | `run_task` gets past its checks iff the task is not cleaning and the validator accepts the arguments. |
| Gateway.RunTaskCommandSafe | src/gradle_mcp/gradle.py:436-444 | A command `run_task` builds never runs a cleaning task and never carries a dangerous flag as an argument. |
| Gateway.CleaningTaskNeverRuns | src/gradle_mcp/gradle.py:430-434 | A cleaning task is refused before any process is started, whatever the arguments. |
| Gateway.Finish | src/gradle_mcp/gradle.py:499-517 | Success iff the process exits with 0. The error is absent iff success. An exception's text becomes the error. A non-zero exit gives the extracted message. |
| Gateway.RunTask | src/gradle_mcp/gradle.py:413-517 | `run_task` is refused exactly when its checks refuse. Otherwise its result is the outcome of running the built command, with "Task failed" as the fallback. |
| Gateway.SilentFailureReportsDefault | src/gradle_mcp/gradle.py:504-511 | A failing run with no output reports the default message ("Task failed" or "Clean failed"). |
| Gateway.CleanTaskName | src/gradle_mcp/gradle.py:536-540 | The clean task ends with `clean`. It is exactly `clean` iff the project is the root (`None`, empty or `:`), and `<project>:clean` otherwise. |
| Gateway.CleanCommand | src/gradle_mcp/gradle.py:536-540 | The clean command is the wrapper, the clean task (`clean` for the root, `<project>:clean` otherwise) and `--no-build-cache`. |
| Gateway.CleanTaskIsCleaning | src/gradle_mcp/gradle.py:536-540 | The task `clean` runs is itself a cleaning task. |
| Gateway.RunTaskRefusesCleanTask | src/gradle_mcp/gradle.py:430-434 | `run_task` refuses the very task `clean` would run, so cleaning goes only through `clean`. |
| Gateway.RootCleanCommand | src/gradle_mcp/gradle.py:536-540 | For `None`, `""` and `":"` the command is `gradlew clean --no-build-cache`. |
| Gateway.SubprojectCleanCommand | src/gradle_mcp/gradle.py:538-540 | For `:app` the command runs `:app:clean`. |
| Gateway.Clean | src/gradle_mcp/gradle.py:519-608 | Success iff the clean command exits with 0. Otherwise the error is the extracted message with "Clean failed" as the fallback, or an exception's text. |
| Gateway.ListProjects | src/gradle_mcp/gradle.py:280-327 | The parsed projects iff `projects -q` exits with 0. Otherwise `Failed to list projects: ` and the standard error. |
| Gateway.ProjectsCommand | src/gradle_mcp/gradle.py:282 | The command is the wrapper, `projects` and `-q`. |
| Gateway.ListProjectsTree | src/gradle_mcp/gradle.py:280-323 | Round trip through the operation: a run printing a project tree lists exactly that tree. |
| Gateway.TasksTaskName | src/gradle_mcp/gradle.py:344-345 | The task asked for ends with `tasks`. It is plain `tasks` iff the project is `:` or empty, and `<project>:tasks` otherwise. |
| Gateway.TasksCommand | src/gradle_mcp/gradle.py:344-346 | The command is the wrapper, the tasks task (`tasks` for the root, `<project>:tasks` otherwise) and `--all`. |
| Gateway.ListTasks | src/gradle_mcp/gradle.py:341-411 | The parsed tasks iff `tasks --all` exits with 0. Otherwise `Failed to list tasks for project <p>: ` and the standard error. |
| Gateway.ListTasksReport | src/gradle_mcp/gradle.py:341-407 | Round trip through the operation: a run printing a task report lists exactly its tasks. |
| Text.Strip | src/gradle_mcp/gradle.py:293 | The result is the slice after the leading whitespace, and only whitespace follows it. It is empty only when the line was all whitespace, and otherwise neither starts nor ends with whitespace. |
| Text.StripPadded | src/gradle_mcp/gradle.py:293 | Stripping indentation in front of a string that neither starts nor ends with whitespace gives the string back. |
| Text.SplitJoin | src/gradle_mcp/gradle.py:292 | Splitting newline-joined newline-free lines gives the lines back. |
| Text.JoinSplit | src/gradle_mcp/gradle.py:214 | Joining the pieces of a split restores the string. |
| Text.BeforeFirstIsFirstPiece | src/gradle_mcp/gradle.py:185 | The base argument is `split('=')[0]`. |
| Text.Replace | src/gradle_mcp/gradle.py:368 | `replace` leaves a string without the pattern unchanged. |
| Text.ReplaceFirst | src/gradle_mcp/gradle.py:368 | When the pattern first occurs after a prefix, `replace` keeps the prefix, puts the replacement in place of that occurrence and goes on with the rest. |
| Text.ReplaceBeforeLast | src/gradle_mcp/gradle.py:368 | Removing ` tasks` from a header whose title lacks it gives the title back. |

## Left out

- Process handling: `subprocess.run`/`Popen`, the `readline`/`poll` loop, `asyncio.sleep` and `ctx.info` logging are left out. Each operation takes `run`, which maps the command line to its return code and full output, or to an exception's text.
- The working directory (`cwd`) of each process is left out. The project root enters the model only as the `path` of each listed project, through the `root` parameter.
- Which stdout lines reach the progress parser depends on the timing of the read loop: lines drained after the process exits are never parsed. `Progress.ReportsFor` takes the parsed lines as a parameter.
- `clean`'s progress parsing is the same code as `run_task`'s and is modelled once, by `Progress.ReportsFor`.
- `__init__` and `_find_wrapper_script` (the wrapper path and the project root) are left out. Both are file-system lookups; the wrapper path and the root are parameters.
- `server.py` and the MCP tool layer are left out.
- Progress.ParseProgress: `\d` matches only ASCII digits, while Python's `re` also matches other Unicode decimal digits.
- Listing.MatchTaskLine: `\w` is ASCII letters, digits and `_`, while Python's `re` also matches Unicode word characters.
- Listing.ClassifyTaskLine: `isupper` recognises ASCII capitals only, while Python also recognises other Unicode uppercase letters.
- TaskClassifier.IsCleaningTask: `lower` folds ASCII letters only. No other character folds to one of `c`, `l`, `e`, `a`, `n` or to a newline, so the classification of every name is unaffected.
- The `ValueError` message texts are left out, including the sorted allow-list join. The model keeps the error's kind and the offending argument.
- The `project is None` test in `list_tasks`: the parameter is typed `str`, so the model's project is a string and `None` is not modelled.
- `GradleTask` description and group are strings rather than `Optional`, because the parser always sets both.
- `Gateway.ListProjects` and `Gateway.ListTasks`: an exception other than `CalledProcessError` (the wrapper cannot be started, say) propagates in the source. The model returns it as a failure carrying its text.
- The `clean` docstring promises `stdout` and `stderr` keys, but the code returns only `success` and `error`. The model follows the code.
- The `BUILD FAILED` fallback: the comment at line 263 speaks of context before the marker, but the code returns everything from 100 lines before it to the end of the output. The model follows the code (`ErrorExtractor.BuildFailedFallback`).
- Progress is reported against a total of 100, but the code does not clamp the value to it. The model follows the code (`Progress.NotClamped`).
