/** The operations of `GradleWrapper` that start Gradle: the command line
    each one builds, the checks `run_task` makes before starting anything,
    and how the outcome of the process becomes the returned value. The
    process itself is a parameter: `run` maps a command line to what
    running it gave. */
module Gateway {
  import opened Text
  import opened Wrappers
  import opened ArgPolicy
  import opened ArgValidator
  import opened TaskClassifier
  import opened ErrorExtractor
  import opened Listing

  /** What running a command gave: it exited with a return code and its
      whole standard output and error, or an exception was raised before
      that (the wrapper could not be started, say), with its text. */
  datatype ProcessOutcome = Exited(code: int, stdout: string, stderr: string) | Raised(message: string)

  /** The dictionary `run_task` and `clean` return: `success` and `error`,
      the error being `None` on success. */
  datatype ExecutionResult = ExecutionResult(success: bool, error: Option<string>)

  /** Why `run_task` raises `ValueError` before starting Gradle. */
  datatype TaskError = CleaningTaskRefused(task: string) | ArgumentRejected(verdict: Verdict)

  /** The flag every run and clean passes so that no build cache is used. */
  const NoBuildCache: string := "--no-build-cache"

  /** The default messages handed to `_extract_error_message`. */
  const TaskFailed: string := "Task failed"
  const CleanFailed: string := "Clean failed"

  // -----------------------------------------------------------------------
  // run_task and clean
  // -----------------------------------------------------------------------

  /** The pre-flight checks of `run_task` and the command it builds: a
      cleaning task is refused, a non-empty argument list is validated
      (`if args:`), and the command is the wrapper, the task,
      `--no-build-cache` and the arguments. */
  function RunTaskCommand(wrapper: string, task: string, args: Option<seq<string>>): (r: Result<seq<string>, TaskError>)
    ensures r.Success? <==>
              && !IsCleaningTask(task)
              && forall j :: 0 <= j < |Tokens(args)| ==> Admitted(Gradle, Tokens(args), j)
    ensures r.Success? ==>
              && |r.value| == 3 + |Tokens(args)| && r.value[0] == wrapper && r.value[1] == task
              && r.value[2] == NoBuildCache && r.value[3..] == Tokens(args)
    ensures r.Failure? ==> (r.error.CleaningTaskRefused? <==> IsCleaningTask(task))
    ensures r.Failure? && r.error.CleaningTaskRefused? ==> r.error.task == task
    ensures r.Failure? && r.error.ArgumentRejected? ==> r.error.verdict == Validate(args) && !r.error.verdict.Ok?
  {
    GradleWellFormed();
    if IsCleaningTask(task) then Failure(CleaningTaskRefused(task))
    else
      var extra := Tokens(args);
      var verdict := if |extra| > 0 then Validate(args) else Ok;
      if !verdict.Ok? then Failure(ArgumentRejected(verdict))
      else
        var cmd := [wrapper, task, NoBuildCache] + extra;
        assert cmd[3..] == extra;
        Success(cmd)
  }

  /** The end of `run_task` and `clean`: return code 0 is success with no
      error; any other return code is failure with the message cut from
      the output; an exception is failure with the exception's text. */
  function Finish(o: ProcessOutcome, default: string): (r: ExecutionResult)
    ensures r.success <==> o.Exited? && o.code == 0
    ensures r.error.None? <==> r.success
    ensures o.Raised? ==> r.error == Some(o.message)
    ensures o.Exited? && o.code != 0 ==> r.error == Some(ExtractError(o.stdout, o.stderr, default))
  {
    match o
    case Raised(message) => ExecutionResult(false, Some(message))
    case Exited(code, stdout, stderr) =>
      if code == 0 then ExecutionResult(true, None)
      else ExecutionResult(false, Some(ExtractError(stdout, stderr, default)))
  }

  /** `run_task(task, args)`: refused before anything runs, or the result
      of running the command. */
  function RunTask(wrapper: string, task: string, args: Option<seq<string>>,
                   run: seq<string> -> ProcessOutcome): (r: Result<ExecutionResult, TaskError>)
    ensures r.Failure? <==> RunTaskCommand(wrapper, task, args).Failure?
    ensures r.Failure? ==> r.error == RunTaskCommand(wrapper, task, args).error
    ensures r.Success? ==> r.value == Finish(run(RunTaskCommand(wrapper, task, args).value), TaskFailed)
  {
    match RunTaskCommand(wrapper, task, args)
    case Failure(e) => Failure(e)
    case Success(cmd) => Success(Finish(run(cmd), TaskFailed))
  }

  /** `project is None or project == "" or project == ":"`. */
  predicate IsRootProject(project: Option<string>) {
    project.None? || project.value == "" || project.value == ":"
  }

  /** The task `clean` runs: `clean` for the root project, otherwise the
      project path, a colon and `clean`. */
  function CleanTaskName(project: Option<string>): (r: string)
    ensures EndsWith(r, "clean")
    ensures IsRootProject(project) <==> r == "clean"
    ensures !IsRootProject(project) ==> StartsWith(r, project.value + ":")
    ensures !IsRootProject(project) ==> r == project.value + ":clean"
  {
    if IsRootProject(project) then "clean"
    else
      var r := project.value + ":" + "clean";
      assert r[|r| - 5..] == "clean";
      assert r[..|project.value| + 1] == project.value + ":";
      r
  }

  /** The command `clean` runs: the wrapper, the clean task of the project
      and `--no-build-cache`, with no further arguments. */
  function CleanCommand(wrapper: string, project: Option<string>): (r: seq<string>)
    ensures |r| == 3 && r[0] == wrapper && r[2] == NoBuildCache
    ensures IsRootProject(project) ==> r[1] == "clean"
    ensures !IsRootProject(project) ==> r[1] == project.value + ":clean"
  {
    [wrapper, CleanTaskName(project), NoBuildCache]
  }

  /** `clean(project)`: the result of running the clean command, with
      "Clean failed" as the fallback message. Unlike `run_task` it makes
      no pre-flight check. */
  function Clean(wrapper: string, project: Option<string>, run: seq<string> -> ProcessOutcome): (r: ExecutionResult)
    ensures var o := run(CleanCommand(wrapper, project));
            && (r.success <==> o.Exited? && o.code == 0)
            && (r.success ==> r.error == None)
            && (o.Exited? && o.code != 0 ==> r.error == Some(ExtractError(o.stdout, o.stderr, CleanFailed)))
            && (o.Raised? ==> r.error == Some(o.message))
  {
    Finish(run(CleanCommand(wrapper, project)), CleanFailed)
  }

  // -----------------------------------------------------------------------
  // list_projects and list_tasks
  // -----------------------------------------------------------------------

  /** The command `list_projects` runs: the `projects` task, quietly. */
  function ProjectsCommand(wrapper: string): (r: seq<string>)
    ensures |r| == 3 && r[0] == wrapper && r[1] == "projects" && r[2] == "-q"
  {
    [wrapper, "projects", "-q"]
  }

  /** `list_projects()`: the parsed report when the command exits with 0;
      otherwise the `RuntimeError` text with the command's standard
      error. An exception from starting the process passes through. */
  function ListProjects(wrapper: string, root: string, run: seq<string> -> ProcessOutcome): (r: Result<seq<GradleProject>, string>)
    ensures var o := run(ProjectsCommand(wrapper));
            && (r.Success? <==> o.Exited? && o.code == 0)
            && (r.Success? ==> r.value == ParseProjects(o.stdout, root))
            && (o.Exited? && o.code != 0 ==> r.error == "Failed to list projects: " + o.stderr)
            && (o.Raised? ==> r.error == o.message)
  {
    match run(ProjectsCommand(wrapper))
    case Raised(message) => Failure(message)
    case Exited(code, stdout, stderr) =>
      if code == 0 then Success(ParseProjects(stdout, root))
      else Failure("Failed to list projects: " + stderr)
  }

  /** The task `list_tasks` asks for: `tasks` for the root project (`:` or
      empty), otherwise the project path, a colon and `tasks`. */
  function TasksTaskName(project: string): (r: string)
    ensures EndsWith(r, "tasks")
    ensures project == ":" || project == "" <==> r == "tasks"
    ensures !(project == ":" || project == "") ==> r == project + ":tasks"
  {
    if project == ":" || project == "" then "tasks"
    else
      var r := project + ":tasks";
      assert r[|r| - 5..] == "tasks";
      assert |r| > 5;
      r
  }

  /** The command `list_tasks` runs: the project's `tasks` task with
      `--all`. */
  function TasksCommand(wrapper: string, project: string): (r: seq<string>)
    ensures |r| == 3 && r[0] == wrapper && r[2] == "--all"
    ensures project == ":" || project == "" ==> r[1] == "tasks"
    ensures !(project == ":" || project == "") ==> r[1] == project + ":tasks"
  {
    [wrapper, TasksTaskName(project), "--all"]
  }

  /** `list_tasks(project)`: the parsed listing when the command exits
      with 0; otherwise the `RuntimeError` text naming the project, with
      the command's standard error. */
  function ListTasks(wrapper: string, project: string, run: seq<string> -> ProcessOutcome): (r: Result<seq<GradleTask>, string>)
    ensures var o := run(TasksCommand(wrapper, project));
            && (r.Success? <==> o.Exited? && o.code == 0)
            && (r.Success? ==> r.value == ParseTasks(o.stdout, project))
            && (o.Exited? && o.code != 0 ==> r.error == "Failed to list tasks for project " + project + ": " + o.stderr)
            && (o.Raised? ==> r.error == o.message)
  {
    match run(TasksCommand(wrapper, project))
    case Raised(message) => Failure(message)
    case Exited(code, stdout, stderr) =>
      if code == 0 then Success(ParseTasks(stdout, project))
      else Failure("Failed to list tasks for project " + project + ": " + stderr)
  }

  // -----------------------------------------------------------------------
  // Properties
  // -----------------------------------------------------------------------

  /** `if args:` is no shortcut: `None` and `[]` would pass validation
      anyway, so `run_task` refuses exactly the cleaning tasks and the
      argument lists validation rejects. */
  lemma RunTaskRefusesIff(wrapper: string, task: string, args: Option<seq<string>>)
    ensures RunTaskCommand(wrapper, task, args).Success? <==> !IsCleaningTask(task) && Validate(args) == Ok
  {
    GradleWellFormed();
  }

  /** Nothing on the deny-list reaches Gradle through `run_task`: every
      token after `--no-build-cache` is neither dangerous nor a dangerous
      flag with a value attached, except the separate value of a
      value-taking flag, which does not start with a dash and so is not on
      the deny-list either. */
  lemma RunTaskCommandSafe(wrapper: string, task: string, args: Option<seq<string>>)
    requires RunTaskCommand(wrapper, task, args).Success?
    ensures var cmd := RunTaskCommand(wrapper, task, args).value;
            && !IsCleaningTask(cmd[1])
            && forall j :: 3 <= j < |cmd| ==> cmd[j] !in DangerousArgs
  {
    var cmd := RunTaskCommand(wrapper, task, args).value;
    var a := Tokens(args);
    DangerousArgsShape();
    forall j | 3 <= j < |cmd| ensures cmd[j] !in DangerousArgs {
      assert cmd[j] == a[j - 3];
      assert Admitted(Gradle, a, j - 3);
    }
  }

  /** A cleaning task is refused whatever the arguments, and nothing
      runs. */
  lemma CleaningTaskNeverRuns(wrapper: string, task: string, args: Option<seq<string>>, run: seq<string> -> ProcessOutcome)
    requires IsCleaningTask(task)
    ensures RunTask(wrapper, task, args, run) == Failure(CleaningTaskRefused(task))
  {
  }

  /** The task `clean` runs is one `run_task` refuses: the two tools do
      not overlap (for project paths on one line). */
  lemma CleanTaskIsCleaning(project: Option<string>)
    requires project.Some? ==> '\n' !in project.value
    ensures IsCleaningTask(CleanTaskName(project))
  {
    if IsRootProject(project) {
      CleanRefused();
    } else {
      var prefix := project.value + ":";
      assert '\n' !in prefix;
      QualifiedCleanIsCleaning(prefix);
    }
  }

  /** So `run_task` refuses the task `clean` would run. */
  lemma RunTaskRefusesCleanTask(wrapper: string, project: Option<string>, args: Option<seq<string>>)
    requires project.Some? ==> '\n' !in project.value
    ensures RunTaskCommand(wrapper, CleanTaskName(project), args) == Failure(CleaningTaskRefused(CleanTaskName(project)))
  {
    CleanTaskIsCleaning(project);
  }

  /** The root project is cleaned with plain `clean` however it is named. */
  lemma RootCleanCommand(wrapper: string)
    ensures CleanCommand(wrapper, None) == [wrapper, "clean", NoBuildCache]
    ensures CleanCommand(wrapper, Some("")) == [wrapper, "clean", NoBuildCache]
    ensures CleanCommand(wrapper, Some(":")) == [wrapper, "clean", NoBuildCache]
  {
  }

  /** A subproject is cleaned through its qualified task. */
  lemma SubprojectCleanCommand(wrapper: string)
    ensures CleanCommand(wrapper, Some(":app")) == [wrapper, ":app:clean", NoBuildCache]
  {
    assert ":app" + ":" + "clean" == ":app:clean";
  }

  /** When a failed process printed nothing, the default message comes
      back as it is. */
  lemma SilentFailureReportsDefault(code: int, default: string)
    requires code != 0
    requires default == TaskFailed || default == CleanFailed
    ensures Finish(Exited(code, "", ""), default) == ExecutionResult(false, Some(default))
  {
    assert 'F' !in default && 'B' !in default;
    AbsentLeadChar(default, "FAILED");
    AbsentLeadChar(default, "BUILD FAILED");
    DefaultWhenNoOutput(default);
  }

  /** Round trip: when `gradlew projects -q` prints the tree of a root
      project and its subprojects and exits with 0, `list_projects`
      returns the root entry and one entry per subproject, in order. */
  lemma ListProjectsTree(wrapper: string, root: string, rootName: string, entries: seq<TreeEntry>,
                         run: seq<string> -> ProcessOutcome, stderr: string)
    requires '\n' !in rootName
    requires forall i :: 0 <= i < |entries| ==> PrintableEntry(entries[i])
    requires run(ProjectsCommand(wrapper)) == Exited(0, Join([RootLine(rootName)] + SubprojectLines(entries), '\n'), stderr)
    ensures ListProjects(wrapper, root, run) == Success([RootProject(root)] + Subprojects(entries, root))
  {
    ParseProjectTree(rootName, entries, root);
  }

  /** Round trip: when `gradlew tasks --all` prints listable groups and
      the help text and exits with 0, `list_tasks` returns the tasks of
      the groups in order. */
  lemma ListTasksReport(wrapper: string, project: string, groups: seq<TaskGroup>, x: string,
                        run: seq<string> -> ProcessOutcome, stderr: string)
    requires forall k :: 0 <= k < |groups| ==> ListableGroup(groups[k], project)
    requires '\n' !in x && EndsListing(Strip(x))
    requires run(TasksCommand(wrapper, project)) == Exited(0, Join(ReportLines(groups) + [x], '\n'), stderr)
    ensures ListTasks(wrapper, project, run) == Success(AllTasks(groups))
  {
    ParseTaskReport(groups, x, project);
  }
}
