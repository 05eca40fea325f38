/** `GradleWrapper.list_projects` and `GradleWrapper.list_tasks`: the
    parsers that turn the text printed by `gradlew projects -q` and
    `gradlew tasks --all` into project and task records. */
module Listing {
  import opened Text
  import opened Wrappers
  import opened RegexSearch

  // -----------------------------------------------------------------------
  // Projects
  // -----------------------------------------------------------------------

  /** A Gradle project: its name (`:` for the root), the wrapper's project
      root as its path, and a description (only the root has one). */
  datatype GradleProject = GradleProject(name: string, path: string, description: Option<string>)

  /** The entry added for the root project. */
  function RootProject(root: string): GradleProject {
    GradleProject(":", root, Some("Root project"))
  }

  /** `Project '([^']+)'`. */
  const ProjectPattern: RunPattern := RunPattern("Project '", NotChar('\''), '\'')

  /** `(a, q)` is the leftmost match of `Project '([^']+)'` in `line`: the
      one `re.search` returns. */
  ghost predicate LeftmostProjectMatch(line: string, a: int, q: int) {
    && MatchAt(line, ProjectPattern, a, q)
    && forall a', q' :: 0 <= a' < a ==> !MatchAt(line, ProjectPattern, a', q')
  }

  /** Every leftmost match is the one the search finds. */
  lemma LeftmostIsSearched(line: string)
    ensures forall a, q :: LeftmostProjectMatch(line, a, q) ==> Search(line, ProjectPattern) == Some(Span(a, q))
  {
    forall a, q | LeftmostProjectMatch(line, a, q) ensures Search(line, ProjectPattern) == Some(Span(a, q)) {
      SearchFindsFirst(line, ProjectPattern, a, q);
    }
  }

  /** The project name a subproject line yields, if any: group 1 of the
      leftmost `Project '...'` match, unless it is `:`; nothing when the
      line has no match. */
  function SubprojectName(line: string): (r: Option<string>)
    ensures (forall a, q :: !MatchAt(line, ProjectPattern, a, q)) ==> r.None?
    ensures forall a, q :: LeftmostProjectMatch(line, a, q) ==>
              r == if line[a + 9..q] == ":" then None else Some(line[a + 9..q])
    ensures r.Some? ==> r.value != ":" && |r.value| > 0 && '\'' !in r.value
  {
    LeftmostIsSearched(line);
    match Search(line, ProjectPattern)
    case None => None
    case Some(sp) =>
      var n := Group(line, ProjectPattern, sp);
      assert forall j :: 0 <= j < |n| ==> n[j] == line[sp.start + 9 + j];
      if n != ":" then Some(n) else None
  }

  /** What one stripped line contributes, given whether the root entry
      was already added. */
  datatype ProjectLine = RootEntry | SubprojectEntry(name: string) | NoEntry

  /** One stripped line of `list_projects`: a `Root project` line adds the
      root the first time; otherwise a line with `Project '` and without
      `Root project` adds the name `SubprojectName` finds, if any. */
  function ClassifyProjectLine(line: string, rootAdded: bool): (k: ProjectLine)
    ensures k.RootEntry? <==> Contains(line, "Root project") && !rootAdded
    ensures k.SubprojectEntry? <==>
              && Contains(line, "Project '") && !Contains(line, "Root project")
              && SubprojectName(line).Some?
    ensures k.SubprojectEntry? ==> k.name == SubprojectName(line).value
    ensures k.SubprojectEntry? ==> k.name != ":" && |k.name| > 0 && '\'' !in k.name
  {
    if Contains(line, "Root project") && !rootAdded then RootEntry
    else if Contains(line, "Project '") && !Contains(line, "Root project") then
      match SubprojectName(line)
      case Some(n) => SubprojectEntry(n)
      case None => NoEntry
    else NoEntry
  }

  /** The `for line in result.stdout.split("\n")` loop of `list_projects`
      from the given lines on, with `rootAdded` the `root_added` flag. */
  function ProjectsFrom(lines: seq<string>, rootAdded: bool, root: string): (r: seq<GradleProject>)
    ensures forall i :: 0 <= i < |r| ==> r[i].path == root
    ensures forall i :: 0 <= i < |r| ==> (r[i].name == ":" <==> r[i] == RootProject(root))
    ensures forall i :: 0 <= i < |r| && r[i].name != ":" ==>
              r[i].description.None? && |r[i].name| > 0 && '\'' !in r[i].name
  {
    if |lines| == 0 then []
    else
      match ClassifyProjectLine(Strip(lines[0]), rootAdded)
      case RootEntry => [RootProject(root)] + ProjectsFrom(lines[1..], true, root)
      case SubprojectEntry(n) => [GradleProject(n, root, None)] + ProjectsFrom(lines[1..], rootAdded, root)
      case NoEntry => ProjectsFrom(lines[1..], rootAdded, root)
  }

  /** No entry is the root entry. */
  predicate NoRootEntry(r: seq<GradleProject>) {
    forall i :: 0 <= i < |r| ==> r[i].name != ":"
  }

  /** No entry follows a root entry with another one. */
  predicate RootOnce(r: seq<GradleProject>) {
    forall i, j :: 0 <= i < j < |r| && r[i].name == ":" ==> r[j].name != ":"
  }

  /** The `root_added` flag at work: once the root entry is added no
      other `:` entry follows, and none at all when it was added before. */
  lemma {:induction false} RootAtMostOnce(lines: seq<string>, rootAdded: bool, root: string)
    ensures RootOnce(ProjectsFrom(lines, rootAdded, root))
    ensures rootAdded ==> NoRootEntry(ProjectsFrom(lines, rootAdded, root))
    decreases |lines|
  {
    if |lines| > 0 {
      var r := ProjectsFrom(lines, rootAdded, root);
      match ClassifyProjectLine(Strip(lines[0]), rootAdded)
      case RootEntry =>
        var rest := ProjectsFrom(lines[1..], true, root);
        RootAtMostOnce(lines[1..], true, root);
        ConsRootOnce(RootProject(root), rest);
      case SubprojectEntry(n) =>
        var rest := ProjectsFrom(lines[1..], rootAdded, root);
        RootAtMostOnce(lines[1..], rootAdded, root);
        ConsRootOnce(GradleProject(n, root, None), rest);
      case NoEntry =>
        RootAtMostOnce(lines[1..], rootAdded, root);
    }
  }

  /** Putting one entry in front keeps the root entry unique when the rest
      holds no root entry after a root entry in front. */
  lemma ConsRootOnce(p: GradleProject, rest: seq<GradleProject>)
    requires RootOnce(rest)
    requires p.name == ":" ==> NoRootEntry(rest)
    ensures RootOnce([p] + rest)
    ensures NoRootEntry(rest) && p.name != ":" ==> NoRootEntry([p] + rest)
  {
    var r := [p] + rest;
    assert forall j :: 0 < j < |r| ==> r[j] == rest[j - 1];
  }

  /** `list_projects()` on the captured standard output, `root` being
      `str(self.project_root)`: every entry has the project root as its
      path, and the root entry is there, once, exactly when some line
      mentions `Root project`. */
  function ParseProjects(stdout: string, root: string): (r: seq<GradleProject>)
    ensures forall i :: 0 <= i < |r| ==> r[i].path == root
    ensures RootOnce(r)
    ensures !NoRootEntry(r) <==> MentionsRoot(Split(stdout, '\n'))
  {
    var lines := Split(stdout, '\n');
    RootAtMostOnce(lines, false, root);
    RootPresentIff(lines, root);
    ProjectsFrom(lines, false, root)
  }

  /** Some line, stripped, mentions `Root project`. */
  ghost predicate MentionsRoot(lines: seq<string>) {
    exists j :: 0 <= j < |lines| && Contains(Strip(lines[j]), "Root project")
  }

  /** Before the root entry is added, it is added exactly when some line
      mentions `Root project`: the first such line adds it. */
  lemma {:induction false} RootPresentIff(lines: seq<string>, root: string)
    ensures !NoRootEntry(ProjectsFrom(lines, false, root)) <==> MentionsRoot(lines)
  {
    if |lines| > 0 {
      var rest := ProjectsFrom(lines[1..], false, root);
      RootPresentIff(lines[1..], root);
      MentionsRootCons(lines);
      var k := ClassifyProjectLine(Strip(lines[0]), false);
      if k.RootEntry? {
        assert ProjectsFrom(lines, false, root) == [RootProject(root)] + ProjectsFrom(lines[1..], true, root);
        NoRootEntryCons(RootProject(root), ProjectsFrom(lines[1..], true, root));
      } else if k.SubprojectEntry? {
        assert ProjectsFrom(lines, false, root) == [GradleProject(k.name, root, None)] + rest;
        NoRootEntryCons(GradleProject(k.name, root, None), rest);
      } else {
        assert ProjectsFrom(lines, false, root) == rest;
      }
    }
  }

  /** A line list mentions the root when its head or its tail does. */
  lemma MentionsRootCons(lines: seq<string>)
    requires |lines| > 0
    ensures MentionsRoot(lines) <==> Contains(Strip(lines[0]), "Root project") || MentionsRoot(lines[1..])
  {
    if MentionsRoot(lines) {
      var j :| 0 <= j < |lines| && Contains(Strip(lines[j]), "Root project");
      if j > 0 {
        assert lines[1..][j - 1] == lines[j];
      }
    }
    if MentionsRoot(lines[1..]) {
      var j :| 0 <= j < |lines[1..]| && Contains(Strip(lines[1..][j]), "Root project");
      assert lines[j + 1] == lines[1..][j];
    }
  }

  /** An entry list holds a root entry when its head is one or its tail
      holds one. */
  lemma NoRootEntryCons(p: GradleProject, rest: seq<GradleProject>)
    ensures NoRootEntry([p] + rest) <==> p.name != ":" && NoRootEntry(rest)
  {
    var r := [p] + rest;
    assert r[0] == p;
    assert forall i :: 0 < i < |r| ==> r[i] == rest[i - 1];
    if !NoRootEntry(rest) {
      var i :| 0 <= i < |rest| && rest[i].name == ":";
      assert r[i + 1].name == ":";
    }
  }


  /** The line Gradle prints for the root project. */
  function RootLine(rootName: string): string {
    "Root project '" + rootName + "'"
  }

  /** One subproject in the printed tree: the indentation in front, the
      branch drawing (`+--- `, `\--- `, `|    +--- `, ...) and the name. */
  datatype TreeEntry = TreeEntry(indent: nat, branch: string, name: string)

  /** `n` spaces. */
  function Indentation(n: nat): (r: string)
    ensures |r| == n && forall j :: 0 <= j < n ==> r[j] == ' '
  {
    seq(n, j => ' ')
  }

  /** The characters the tree is drawn with. */
  predicate IsTreeChar(c: char) {
    c == '+' || c == '-' || c == '\\' || c == '|' || c == ' '
  }

  /** A branch drawing: tree characters, starting with one that is not a
      space. */
  predicate TreeBranch(b: string) {
    |b| > 0 && b[0] != ' ' && forall j :: 0 <= j < |b| ==> IsTreeChar(b[j])
  }

  /** A subproject line once stripped: the branch, then `Project '<name>'`. */
  function BranchLine(branch: string, name: string): string {
    branch + "Project '" + name + "'"
  }

  /** The line Gradle prints for a subproject in the tree. */
  function SubprojectLine(e: TreeEntry): string {
    Indentation(e.indent) + BranchLine(e.branch, e.name)
  }

  /** A subproject name the report can carry unambiguously. */
  predicate PrintableName(name: string) {
    && |name| > 0 && name != ":" && '\'' !in name && '\n' !in name
    && !Contains(name, "Root project")
  }

  /** A tree entry whose line reads back as it. */
  predicate PrintableEntry(e: TreeEntry) {
    PrintableName(e.name) && TreeBranch(e.branch)
  }

  /** The entries expected for the subprojects. */
  function Subprojects(entries: seq<TreeEntry>, root: string): (r: seq<GradleProject>)
    ensures |r| == |entries|
    ensures forall i :: 0 <= i < |entries| ==> r[i] == GradleProject(entries[i].name, root, None)
  {
    if |entries| == 0 then [] else [GradleProject(entries[0].name, root, None)] + Subprojects(entries[1..], root)
  }

  /** The subproject lines of a tree. */
  function SubprojectLines(entries: seq<TreeEntry>): (r: seq<string>)
    ensures |r| == |entries|
    ensures forall i :: 0 <= i < |entries| ==> r[i] == SubprojectLine(entries[i])
  {
    if |entries| == 0 then [] else [SubprojectLine(entries[0])] + SubprojectLines(entries[1..])
  }

  /** A branch line never mentions the root project. */
  lemma BranchLineNotRoot(branch: string, name: string)
    requires PrintableEntry(TreeEntry(0, branch, name))
    ensures !Contains(BranchLine(branch, name), "Root project")
  {
    var head := branch + "Project '";
    assert BranchLine(branch, name) == head + (name + "'");
    forall k | 0 <= k < |head| ensures head[k] != 'R' {
      if k < |branch| { assert head[k] == branch[k]; }
    }
    ContainsSkipPrefix(head, name + "'", "Root project");
    ContainsDropLast(name, '\'', "Root project");
  }

  /** The layout of a branch line: the branch, `Project '`, the name, the
      quote. */
  lemma BranchLineShape(branch: string, name: string)
    requires TreeBranch(branch)
    ensures var line := BranchLine(branch, name);
            var l := |branch|;
            && |line| == l + 10 + |name| && line[l..l + 9] == "Project '" && line[l + 9 + |name|] == '\''
            && (forall j :: l + 9 <= j < l + 9 + |name| ==> line[j] == name[j - l - 9])
            && forall a :: 0 <= a < l ==> line[a] != 'P'
  {
    var line := BranchLine(branch, name);
    forall a | 0 <= a < |branch| ensures line[a] != 'P' {
      assert line[a] == branch[a];
    }
  }

  /** The search on a branch line finds the printed name. */
  lemma BranchLineMatch(branch: string, name: string)
    requires PrintableEntry(TreeEntry(0, branch, name))
    ensures Contains(BranchLine(branch, name), "Project '")
    ensures SubprojectName(BranchLine(branch, name)) == Some(name)
  {
    var line := BranchLine(branch, name);
    var l := |branch|;
    BranchLineShape(branch, name);
    assert OccursAt(line, "Project '", l);
    ContainsAt(line, "Project '", l);
    var q := l + 9 + |name|;
    assert MatchAt(line, ProjectPattern, l, q) by {
      forall j | l + 9 <= j < q ensures InClass(ProjectPattern.cls, line[j]) {
        assert line[j] == name[j - l - 9];
      }
    }
    forall a, b | 0 <= a < l ensures !MatchAt(line, ProjectPattern, a, b) {
      if a + 9 <= |line| {
        assert line[a..a + 9][0] == line[a];
      }
    }
    assert line[l + 9..q] == name;
    assert LeftmostProjectMatch(line, l, q);
  }

  /** A subproject line of the tree strips to its branch line, which yields
      its name whatever the root flag. */
  lemma SubprojectLineParses(e: TreeEntry, rootAdded: bool)
    requires PrintableEntry(e)
    ensures Strip(SubprojectLine(e)) == BranchLine(e.branch, e.name)
    ensures ClassifyProjectLine(BranchLine(e.branch, e.name), rootAdded) == SubprojectEntry(e.name)
  {
    var line := BranchLine(e.branch, e.name);
    assert line[0] == e.branch[0] && line[|line| - 1] == '\'';
    StripPadded(Indentation(e.indent), line);
    assert PrintableEntry(TreeEntry(0, e.branch, e.name));
    BranchLineNotRoot(e.branch, e.name);
    BranchLineMatch(e.branch, e.name);
  }

  /** A subproject line holds no newline. */
  lemma SubprojectLineOneLine(e: TreeEntry)
    requires PrintableEntry(e)
    ensures '\n' !in SubprojectLine(e)
  {
    var line := SubprojectLine(e);
    var p := Indentation(e.indent);
    forall j | 0 <= j < |line| ensures line[j] != '\n' {
      if j < |p| {
      } else if j < |p| + |e.branch| {
        assert line[j] == e.branch[j - |p|];
      } else if j < |p| + |e.branch| + 9 {
      } else if j < |line| - 1 {
        assert line[j] == e.name[j - |p| - |e.branch| - 9];
      }
    }
  }

  /** The root line is left alone by `strip()` and adds the root entry the
      first time. */
  lemma RootLineParses(rootName: string)
    requires '\n' !in rootName
    ensures Strip(RootLine(rootName)) == RootLine(rootName)
    ensures ClassifyProjectLine(RootLine(rootName), false) == RootEntry
  {
    var line := RootLine(rootName);
    StripUnchanged(line);
    assert OccursAt(line, "Root project", 0) by {
      assert line[..12] == "Root project";
    }
    ContainsAt(line, "Root project", 0);
  }

  /** The subproject lines yield their names, in order. */
  lemma {:induction false} SubprojectLinesParse(entries: seq<TreeEntry>, root: string)
    requires forall i :: 0 <= i < |entries| ==> PrintableEntry(entries[i])
    ensures ProjectsFrom(SubprojectLines(entries), true, root) == Subprojects(entries, root)
  {
    if |entries| > 0 {
      var lines := SubprojectLines(entries);
      SubprojectLineParses(entries[0], true);
      assert lines[1..] == SubprojectLines(entries[1..]);
      SubprojectLinesParse(entries[1..], root);
    }
  }

  /** Round trip: the report for a root project and its subprojects, drawn
      as a tree with any branches and indentation, parses to the root entry
      followed by one entry per subproject, in order. */
  lemma ParseProjectTree(rootName: string, entries: seq<TreeEntry>, root: string)
    requires '\n' !in rootName
    requires forall i :: 0 <= i < |entries| ==> PrintableEntry(entries[i])
    ensures ParseProjects(Join([RootLine(rootName)] + SubprojectLines(entries), '\n'), root)
            == [RootProject(root)] + Subprojects(entries, root)
  {
    var lines := [RootLine(rootName)] + SubprojectLines(entries);
    forall i | 0 <= i < |lines| ensures '\n' !in lines[i] {
      if i > 0 {
        assert lines[i] == SubprojectLine(entries[i - 1]);
        SubprojectLineOneLine(entries[i - 1]);
      }
    }
    SplitJoin(lines, '\n');
    RootLineParses(rootName);
    assert lines[1..] == SubprojectLines(entries);
    SubprojectLinesParse(entries, root);
  }

  // -----------------------------------------------------------------------
  // Tasks
  // -----------------------------------------------------------------------

  /** A Gradle task as `list_tasks` reports it. The parser always fills in
      the description (empty for a line without one) and the group. */
  datatype GradleTask = GradleTask(name: string, project: string, description: string, group: string)

  /** `s[lo..hi]` is made of word characters. */
  predicate WordRun(s: string, lo: int, hi: int)
    requires 0 <= lo <= hi <= |s|
  {
    forall j :: lo <= j < hi ==> IsWordChar(s[j])
  }

  /** `s[lo..hi]` is made of whitespace. */
  predicate SpaceRun(s: string, lo: int, hi: int)
    requires 0 <= lo <= hi <= |s|
  {
    forall j :: lo <= j < hi ==> IsSpace(s[j])
  }

  /** `^(\w+)\s+-\s+(.+)$` matches the newline-free line `ls` with group 1
      `ls[..w]`, the dash at `m` and group 2 `ls[d..]`. */
  predicate DescribedAt(ls: string, w: int, m: int, d: int) {
    && 0 < w < m && m + 1 < d < |ls|
    && WordRun(ls, 0, w) && SpaceRun(ls, w, m) && ls[m] == '-' && SpaceRun(ls, m + 1, d)
  }

  /** How a line of a task section reads. */
  datatype TaskLine = Described(name: string, description: string) | Bare(name: string) | NotTask

  /** A task name: a non-empty run of word characters. */
  predicate IsTaskName(n: string) {
    |n| > 0 && WordRun(n, 0, |n|)
  }

  /** Every way of matching the first pattern has the whole word run as
      its name and the dash right after the spaces, and its second `\s+`
      ends within the greedy run; a line of word characters is one word
      run. */
  lemma TaskLineForced(ls: string)
    ensures forall w, m, d :: DescribedAt(ls, w, m, d) ==>
              && w == RunEnd(ls, Word, 0) && m == RunEnd(ls, Space, w)
              && d <= RunEnd(ls, Space, m + 1)
    ensures |ls| > 0 && WordRun(ls, 0, |ls|) ==> RunEnd(ls, Word, 0) == |ls|
  {
    forall w, m, d | DescribedAt(ls, w, m, d)
      ensures && w == RunEnd(ls, Word, 0) && m == RunEnd(ls, Space, w)
              && d <= RunEnd(ls, Space, m + 1)
    {
      assert IsSpace(ls[w]);
      RunEndAt(ls, Word, 0, w);
      RunEndAt(ls, Space, w, m);
    }
    if |ls| > 0 && WordRun(ls, 0, |ls|) {
      RunEndAt(ls, Word, 0, |ls|);
    }
  }

  /** `re.match(r"^(\w+)\s+-\s+(.+)$", ls)` and, failing that,
      `re.match(r"^(\w+)$", ls)`, for a line of the output (which holds no
      newline): the greedy word run, the greedy space run, the dash, and
      the second greedy space run, which gives one character back when it
      reaches the end. */
  function MatchTaskLine(ls: string): (r: TaskLine)
    ensures !r.NotTask? ==> IsTaskName(r.name)
  {
    var w := RunEnd(ls, Word, 0);
    var m := RunEnd(ls, Space, w);
    if 0 < w < m < |ls| && ls[m] == '-' then
      var e := RunEnd(ls, Space, m + 1);
      assert forall j :: 0 <= j < w ==> ls[..w][j] == ls[j];
      if m + 1 < e < |ls| then Described(ls[..w], ls[e..])
      else if m + 2 < e then Described(ls[..w], ls[e - 1..])
      else NotTask
    else if 0 < w == |ls| then Bare(ls)
    else NotTask
  }

  /** The groups backtracking picks for the first pattern on `ls`: a
      prefix `name` and a suffix `description` that split the line as the
      pattern asks, with the name the only word run any split can use and
      the description starting as far right as any split allows. */
  ghost predicate LeftmostGroups(ls: string, name: string, description: string) {
    && |name| + |description| < |ls|
    && name == ls[..|name|] && description == ls[|ls| - |description|..]
    && (exists m, d :: d == |ls| - |description| && DescribedAt(ls, |name|, m, d))
    && forall w, m, d :: DescribedAt(ls, w, m, d) ==> w == |name| && d <= |ls| - |description|
  }

  /** What the matcher computes, against the patterns' meaning on a line
      without newlines: the first pattern matches exactly when some split
      of the line fits it, and the groups are the ones backtracking picks,
      the name being the whole word run and the description starting as
      far right as the second `\s+` reaches; otherwise the line is bare
      exactly when it is one word run. */
  lemma MatchTaskLineMeaning(ls: string)
    requires '\n' !in ls
    ensures var r := MatchTaskLine(ls);
            && (r.Described? <==> exists w, m, d :: DescribedAt(ls, w, m, d))
            && (r.Described? ==> LeftmostGroups(ls, r.name, r.description))
            && (r.Bare? <==> |ls| > 0 && WordRun(ls, 0, |ls|))
            && (r.Bare? ==> r.name == ls)
  {
    DescribedMeaning(ls);
    BareMeaning(ls);
  }

  /** The first pattern's part of `MatchTaskLineMeaning`. */
  lemma DescribedMeaning(ls: string)
    ensures var r := MatchTaskLine(ls);
            && (r.Described? <==> exists w, m, d :: DescribedAt(ls, w, m, d))
            && (r.Described? ==> LeftmostGroups(ls, r.name, r.description))
  {
    DescribedComplete(ls);
    if MatchTaskLine(ls).Described? {
      DescribedGroups(ls);
    }
  }

  /** Whenever some split fits the first pattern, the matcher reports a
      described task. */
  lemma DescribedComplete(ls: string)
    ensures (exists w, m, d :: DescribedAt(ls, w, m, d)) ==> MatchTaskLine(ls).Described?
  {
    forall w, m, d | DescribedAt(ls, w, m, d) ensures MatchTaskLine(ls).Described? {
      TaskLineForced(ls);
    }
  }

  /** The groups of a described task line. */
  lemma DescribedGroups(ls: string)
    requires MatchTaskLine(ls).Described?
    ensures LeftmostGroups(ls, MatchTaskLine(ls).name, MatchTaskLine(ls).description)
  {
    TaskLineForced(ls);
    var w := RunEnd(ls, Word, 0);
    var m := RunEnd(ls, Space, w);
    var e := RunEnd(ls, Space, m + 1);
    if m + 1 < e < |ls| {
      assert DescribedAt(ls, w, m, e);
    } else {
      assert DescribedAt(ls, w, m, e - 1);
    }
  }

  /** The second pattern's part of `MatchTaskLineMeaning`. */
  lemma BareMeaning(ls: string)
    ensures var r := MatchTaskLine(ls);
            && (r.Bare? <==> |ls| > 0 && WordRun(ls, 0, |ls|))
            && (r.Bare? ==> r.name == ls)
  {
    var w := RunEnd(ls, Word, 0);
    if |ls| > 0 && WordRun(ls, 0, |ls|) {
      RunEndAt(ls, Word, 0, |ls|);
      assert RunEnd(ls, Space, w) == |ls|;
    }
  }

  /** A group header: the stripped line ends with ` tasks` and starts with
      an upper-case letter. */
  predicate IsGroupHeader(ls: string) {
    EndsWith(ls, " tasks") && IsUpper(ls[0])
  }

  /** The group a header names: `line_stripped.replace(" tasks", "").strip()`. */
  function GroupName(ls: string): string {
    Strip(Replace(ls, " tasks", ""))
  }

  /** Rules and pattern hints, which are skipped. */
  predicate IsDecoration(ls: string) {
    StartsWith(ls, "-") || Contains(ls, "Pattern:")
  }

  /** The help text after the listing, where parsing stops. */
  predicate IsHelpText(ls: string) {
    Contains(ls, "To see all tasks") || StartsWith(ls, "BUILD")
  }

  /** What the loop body does with one stripped line, in the order of its
      tests. */
  datatype TaskStep = Skip | Header(group: string) | Stop | Entry(line: TaskLine)

  /** Where parsing stops: a line that is none of the earlier cases and is
      help text. */
  predicate EndsListing(ls: string) {
    ls != [] && !IsGroupHeader(ls) && !IsDecoration(ls) && IsHelpText(ls)
  }

  function ClassifyTaskLine(ls: string): (k: TaskStep)
    ensures k.Skip? <==> ls == [] || (!IsGroupHeader(ls) && IsDecoration(ls))
    ensures k.Header? <==> ls != [] && IsGroupHeader(ls)
    ensures k.Header? ==> k.group == GroupName(ls)
    ensures k.Stop? <==> EndsListing(ls)
    ensures k.Entry? ==> k.line == MatchTaskLine(ls)
  {
    if ls == [] then Skip
    else if IsGroupHeader(ls) then Header(GroupName(ls))
    else if IsDecoration(ls) then Skip
    else if IsHelpText(ls) then Stop
    else Entry(MatchTaskLine(ls))
  }

  /** The task a matched line adds to group `g` of `project`. */
  function TaskOf(t: TaskLine, project: string, g: string): (r: Option<GradleTask>)
    ensures r.Some? <==> !t.NotTask?
    ensures r.Some? ==> r.value == GradleTask(t.name, project, if t.Described? then t.description else "", g)
  {
    match t
    case Described(n, d) => Some(GradleTask(n, project, d, g))
    case Bare(n) => Some(GradleTask(n, project, "", g))
    case NotTask => None
  }

  /** The `for line in result.stdout.split("\n")` loop of `list_tasks`
      from the given lines on. `group` is `current_group`, which is set
      exactly when `in_task_section` is. */
  function TasksFrom(lines: seq<string>, group: Option<string>, project: string): (r: seq<GradleTask>)
    ensures |r| <= |lines|
    ensures forall i :: 0 <= i < |r| ==> r[i].project == project && IsTaskName(r[i].name)
  {
    if |lines| == 0 then []
    else
      match ClassifyTaskLine(Strip(lines[0]))
      case Skip => TasksFrom(lines[1..], group, project)
      case Header(g) => TasksFrom(lines[1..], Some(g), project)
      case Stop => []
      case Entry(t) =>
        var rest := TasksFrom(lines[1..], group, project);
        if group.None? then rest
        else
          match TaskOf(t, project, group.value)
          case Some(task) => [task] + rest
          case None => rest
  }

  /** `list_tasks(project)` on the captured standard output: tasks of
      `project` with word names, none at all unless some line is a group
      header. */
  function ParseTasks(stdout: string, project: string): (r: seq<GradleTask>)
    ensures forall i :: 0 <= i < |r| ==> r[i].project == project && IsTaskName(r[i].name)
    ensures (forall i :: 0 <= i < |Split(stdout, '\n')| ==> !IsGroupHeader(Strip(Split(stdout, '\n')[i]))) ==> r == []
  {
    NoHeaderNoTasks(Split(stdout, '\n'), project);
    TasksFrom(Split(stdout, '\n'), None, project)
  }

  // -----------------------------------------------------------------------
  // Properties of the task parser
  // -----------------------------------------------------------------------

  /** Without a group header no task is reported: lines before the first
      header are never read as tasks. */
  lemma {:induction false} NoHeaderNoTasks(lines: seq<string>, project: string)
    ensures (forall i :: 0 <= i < |lines| ==> !IsGroupHeader(Strip(lines[i]))) ==> TasksFrom(lines, None, project) == []
  {
    if |lines| > 0 && forall i :: 0 <= i < |lines| ==> !IsGroupHeader(Strip(lines[i])) {
      assert forall i :: 0 <= i < |lines[1..]| ==> lines[1..][i] == lines[i + 1];
      NoHeaderNoTasks(lines[1..], project);
    }
  }

  /** Parsing stops at the help text: nothing after it is read. */
  lemma {:induction false} HelpTextStops(pre: seq<string>, x: string, post: seq<string>,
                                         group: Option<string>, project: string)
    requires EndsListing(Strip(x))
    ensures TasksFrom(pre + [x] + post, group, project) == TasksFrom(pre, group, project)
    decreases |pre|
  {
    var lines := pre + [x] + post;
    if |pre| == 0 {
      assert lines[0] == x;
    } else {
      assert lines[0] == pre[0];
      assert lines[1..] == pre[1..] + [x] + post;
      var next := match ClassifyTaskLine(Strip(pre[0])) case Header(g) => Some(g) case _ => group;
      HelpTextStops(pre[1..], x, post, next, project);
    }
  }

  /** The line Gradle prints for a task: the name, then ` - ` and the
      description when there is one. */
  function TaskEntry(name: string, description: string): string {
    if description == [] then name else name + " - " + description
  }

  /** A task whose printed line reads back as that task: a word name that
      does not start with a capital (so the line is not taken for a header
      or for `BUILD`), a description without newline or surrounding
      whitespace, and neither marker in the line. */
  predicate ListableTask(t: GradleTask) {
    && IsTaskName(t.name) && !IsUpper(t.name[0])
    && '\n' !in t.description
    && (t.description != [] ==> !IsSpace(t.description[0]) && !IsSpace(t.description[|t.description| - 1]))
    && !Contains(TaskEntry(t.name, t.description), "Pattern:")
    && !Contains(TaskEntry(t.name, t.description), "To see all tasks")
  }

  /** The layout of a described task line. */
  lemma DescribedEntryShape(name: string, description: string)
    requires IsTaskName(name) && description != [] && !IsSpace(description[0])
    ensures var ls := TaskEntry(name, description);
            && |ls| == |name| + 3 + |description|
            && ls[..|name|] == name && ls[|name| + 3..] == description
            && ls[|name|] == ' ' && ls[|name| + 1] == '-' && ls[|name| + 2] == ' '
            && DescribedAt(ls, |name|, |name| + 1, |name| + 3)
  {
    var ls := TaskEntry(name, description);
    assert ls[..|name|] == name;
    assert ls[|name| + 3..] == description;
    assert WordRun(ls, 0, |name|) by {
      forall j | 0 <= j < |name| ensures IsWordChar(ls[j]) {
        assert ls[j] == name[j];
      }
    }
  }

  /** A printed task line holds no newline. */
  lemma TaskEntryOneLine(name: string, description: string)
    requires IsTaskName(name) && '\n' !in description
    ensures '\n' !in TaskEntry(name, description)
  {
    var ls := TaskEntry(name, description);
    forall j | 0 <= j < |ls| ensures ls[j] != '\n' {
      if j < |name| {
        assert ls[j] == name[j] && IsWordChar(name[j]);
      } else if description != [] && |name| + 3 <= j {
        assert ls[j] == description[j - |name| - 3];
      }
    }
  }

  /** The matcher reads a printed task line back. */
  lemma TaskEntryMatches(name: string, description: string)
    requires IsTaskName(name) && '\n' !in description
    requires description != [] ==> !IsSpace(description[0])
    ensures MatchTaskLine(TaskEntry(name, description))
            == if description == [] then Bare(name) else Described(name, description)
  {
    var ls := TaskEntry(name, description);
    if description == [] {
      BareMeaning(ls);
    } else {
      DescribedEntryShape(name, description);
      DescribedMeaning(ls);
      var w := |name|;
      var r := MatchTaskLine(ls);
      var d := |ls| - |r.description|;
      var m :| DescribedAt(ls, |r.name|, m, d);
      assert |r.name| == w;
      assert m == w + 1;
      assert d == w + 3;
    }
  }

  /** A printed task line is left alone by `strip()`. */
  lemma TaskEntryStripped(t: GradleTask)
    requires ListableTask(t)
    ensures Strip(TaskEntry(t.name, t.description)) == TaskEntry(t.name, t.description)
  {
    var ls := TaskEntry(t.name, t.description);
    assert ls[0] == t.name[0] && IsWordChar(ls[0]);
    if t.description == [] {
      assert ls[|ls| - 1] == t.name[|t.name| - 1] && IsWordChar(ls[|ls| - 1]);
    } else {
      assert ls[|ls| - 1] == t.description[|t.description| - 1];
    }
    StripUnchanged(ls);
  }

  /** A line that starts with a lower-case word character and carries
      neither marker is none of header, decoration or help text. */
  lemma PlainLine(ls: string)
    requires |ls| > 0 && IsWordChar(ls[0]) && !IsUpper(ls[0])
    requires !Contains(ls, "Pattern:") && !Contains(ls, "To see all tasks")
    ensures !IsGroupHeader(ls) && !IsDecoration(ls) && !IsHelpText(ls)
  {
    assert ls[..1][0] == ls[0];
    if |ls| >= 5 {
      assert ls[..5][0] == ls[0];
    }
  }

  /** A printed task line is left alone by `strip()` and read as a task
      entry. */
  lemma TaskEntryParses(t: GradleTask)
    requires ListableTask(t)
    ensures var ls := TaskEntry(t.name, t.description);
            && Strip(ls) == ls
            && ClassifyTaskLine(ls)
               == Entry(if t.description == [] then Bare(t.name) else Described(t.name, t.description))
  {
    var ls := TaskEntry(t.name, t.description);
    TaskEntryMatches(t.name, t.description);
    TaskEntryStripped(t);
    assert ls[0] == t.name[0];
    PlainLine(ls);
  }

  /** The header Gradle prints above a group. */
  function HeaderLine(title: string): string {
    title + " tasks"
  }

  /** A group title the header carries unambiguously: it starts with a
      capital, ends with a non-space, has no newline and does not itself
      contain ` tasks`. */
  predicate GroupTitle(title: string) {
    && |title| > 0 && IsUpper(title[0]) && !IsSpace(title[|title| - 1])
    && '\n' !in title && !Contains(title, " tasks")
  }

  /** ` tasks` occurs in a header only at its end. */
  lemma HeaderOccurrences(title: string)
    requires !Contains(title, " tasks")
    ensures forall i :: 0 <= i < |title| ==> !OccursAt(title + " tasks", " tasks", i)
  {
    var h := title + " tasks";
    forall i | 0 <= i < |title| ensures !OccursAt(h, " tasks", i) {
      if i + 6 <= |title| {
        assert h[..|title|] == title;
        assert h[i..i + 6] == h[..|title|][i..i + 6];
        if OccursAt(h, " tasks", i) {
          ContainsAt(title, " tasks", i);
        }
      } else {
        var k := |title| - i;
        assert 0 < k < 6 && h[i + k] == ' ' && " tasks"[k] != ' ';
        assert h[i..i + 6][k] == h[i + k];
      }
    }
  }

  /** A header line is left alone by `strip()` and read as the header of
      its group. */
  lemma HeaderParses(title: string)
    requires GroupTitle(title)
    ensures var h := HeaderLine(title);
            && '\n' !in h && Strip(h) == h && ClassifyTaskLine(h) == Header(title)
  {
    var h := HeaderLine(title);
    assert h[|h| - 6..] == " tasks";
    StripUnchanged(h);
    HeaderOccurrences(title);
    ReplaceBeforeLast(title, " tasks");
    StripUnchanged(title);
  }

  /** The rule of dashes printed under a header. */
  function Rule(n: nat): (r: string)
    ensures |r| == n && forall j :: 0 <= j < n ==> r[j] == '-'
  {
    seq(n, _ => '-')
  }

  /** A rule is skipped. */
  lemma RuleSkipped(n: nat)
    requires n > 0
    ensures '\n' !in Rule(n) && Strip(Rule(n)) == Rule(n) && ClassifyTaskLine(Rule(n)) == Skip
  {
    var r := Rule(n);
    StripUnchanged(r);
    assert StartsWith(r, "-");
    if n >= 6 {
      assert r[n - 6] == '-';
    }
  }

  /** A group of tasks as Gradle prints it. */
  datatype TaskGroup = TaskGroup(title: string, tasks: seq<GradleTask>)

  /** The printed lines of a sequence of tasks. */
  function Entries(tasks: seq<GradleTask>): (r: seq<string>)
    ensures |r| == |tasks|
    ensures forall i :: 0 <= i < |tasks| ==> r[i] == TaskEntry(tasks[i].name, tasks[i].description)
  {
    seq(|tasks|, i requires 0 <= i < |tasks| => TaskEntry(tasks[i].name, tasks[i].description))
  }

  /** The printed lines of a group: header, rule, one line per task. */
  function SectionLines(g: TaskGroup): seq<string> {
    [HeaderLine(g.title), Rule(|HeaderLine(g.title)|)] + Entries(g.tasks)
  }

  /** The printed lines of a sequence of groups. */
  function ReportLines(groups: seq<TaskGroup>): seq<string> {
    if |groups| == 0 then [] else SectionLines(groups[0]) + ReportLines(groups[1..])
  }

  /** The tasks of a sequence of groups, group by group. */
  function AllTasks(groups: seq<TaskGroup>): seq<GradleTask> {
    if |groups| == 0 then [] else groups[0].tasks + AllTasks(groups[1..])
  }

  /** Tasks of one project and group whose lines read back. */
  predicate ListableTasks(tasks: seq<GradleTask>, project: string, title: string) {
    forall i :: 0 <= i < |tasks| ==>
      ListableTask(tasks[i]) && tasks[i].project == project && tasks[i].group == title
  }

  /** A group whose printed lines read back as it, for `project`. */
  predicate ListableGroup(g: TaskGroup, project: string) {
    GroupTitle(g.title) && ListableTasks(g.tasks, project, g.title)
  }

  /** One step of the loop on a line that reads as an entry. */
  lemma {:induction false} EntryStep(line: string, rest: seq<string>, title: string, project: string, t: GradleTask)
    requires Strip(line) == line
    requires ClassifyTaskLine(line).Entry? && TaskOf(ClassifyTaskLine(line).line, project, title) == Some(t)
    ensures TasksFrom([line] + rest, Some(title), project) == [t] + TasksFrom(rest, Some(title), project)
  {
    assert ([line] + rest)[0] == line && ([line] + rest)[1..] == rest;
  }

  /** One step of the loop on a header line. */
  lemma {:induction false} HeaderStep(line: string, rest: seq<string>, group: Option<string>, project: string, title: string)
    requires Strip(line) == line && ClassifyTaskLine(line) == Header(title)
    ensures TasksFrom([line] + rest, group, project) == TasksFrom(rest, Some(title), project)
  {
    assert ([line] + rest)[0] == line && ([line] + rest)[1..] == rest;
  }

  /** One step of the loop on a skipped line. */
  lemma {:induction false} SkipStep(line: string, rest: seq<string>, group: Option<string>, project: string)
    requires Strip(line) == line && ClassifyTaskLine(line) == Skip
    ensures TasksFrom([line] + rest, group, project) == TasksFrom(rest, group, project)
  {
    assert ([line] + rest)[0] == line && ([line] + rest)[1..] == rest;
  }

  /** One step of the loop on a listable task's line, inside the task's
      group, adds exactly that task. */
  lemma ListedTaskStep(t: GradleTask, rest: seq<string>)
    requires ListableTask(t)
    ensures TasksFrom([TaskEntry(t.name, t.description)] + rest, Some(t.group), t.project)
            == [t] + TasksFrom(rest, Some(t.group), t.project)
  {
    TaskEntryParses(t);
    EntryStep(TaskEntry(t.name, t.description), rest, t.group, t.project, t);
  }

  /** The tail of listable tasks is listable. */
  lemma ListableTail(tasks: seq<GradleTask>, project: string, title: string)
    requires |tasks| > 0 && ListableTasks(tasks, project, title)
    ensures ListableTasks(tasks[1..], project, title)
  {
    assert forall i :: 0 <= i < |tasks| - 1 ==> tasks[1..][i] == tasks[i + 1];
  }

  /** The lines of tasks, split after the first. */
  lemma EntriesCons(tasks: seq<GradleTask>, rest: seq<string>)
    requires |tasks| > 0
    ensures Entries(tasks) + rest
            == [TaskEntry(tasks[0].name, tasks[0].description)] + (Entries(tasks[1..]) + rest)
  {
    Assoc([TaskEntry(tasks[0].name, tasks[0].description)], Entries(tasks[1..]), rest);
  }

  /** The first task line of a group reads back as the first task. */
  lemma FirstEntryParses(tasks: seq<GradleTask>, rest: seq<string>, title: string, project: string)
    requires |tasks| > 0 && ListableTasks(tasks, project, title)
    ensures TasksFrom(Entries(tasks) + rest, Some(title), project)
            == [tasks[0]] + TasksFrom(Entries(tasks[1..]) + rest, Some(title), project)
  {
    EntriesCons(tasks, rest);
    ListedTaskStep(tasks[0], Entries(tasks[1..]) + rest);
  }

  /** The task lines of a group read back as its tasks, and parsing goes
      on after them in the same group. */
  lemma {:induction false} EntriesParse(tasks: seq<GradleTask>, rest: seq<string>, title: string, project: string)
    requires ListableTasks(tasks, project, title)
    ensures TasksFrom(Entries(tasks) + rest, Some(title), project)
            == tasks + TasksFrom(rest, Some(title), project)
    decreases |tasks|
  {
    if |tasks| > 0 {
      ListableTail(tasks, project, title);
      EntriesParse(tasks[1..], rest, title, project);
      FirstEntryParses(tasks, rest, title, project);
      assert tasks == [tasks[0]] + tasks[1..];
      Assoc([tasks[0]], tasks[1..], TasksFrom(rest, Some(title), project));
    } else {
      assert Entries(tasks) + rest == rest;
    }
  }

  /** A printed group reads back as its tasks, whatever group came before,
      and parsing goes on after it in that group. */
  lemma SectionParses(g: TaskGroup, rest: seq<string>, group: Option<string>, project: string)
    requires ListableGroup(g, project)
    ensures TasksFrom(SectionLines(g) + rest, group, project)
            == g.tasks + TasksFrom(rest, Some(g.title), project)
  {
    var h := HeaderLine(g.title);
    var u := Rule(|h|);
    var body := Entries(g.tasks) + rest;
    HeaderParses(g.title);
    RuleSkipped(|h|);
    EntriesParse(g.tasks, rest, g.title, project);
    SkipStep(u, body, Some(g.title), project);
    HeaderStep(h, [u] + body, group, project, g.title);
    SectionLinesCons(g, rest);
  }

  /** The lines of a group, split after the header and after the rule. */
  lemma SectionLinesCons(g: TaskGroup, rest: seq<string>)
    ensures var h := HeaderLine(g.title);
            SectionLines(g) + rest == [h] + ([Rule(|h|)] + (Entries(g.tasks) + rest))
  {
    var h := HeaderLine(g.title);
    var e := Entries(g.tasks);
    assert [h, Rule(|h|)] == [h] + [Rule(|h|)];
    Assoc([h, Rule(|h|)], e, rest);
    Assoc([h], [Rule(|h|)], e + rest);
  }

  /** Concatenation is associative. */
  lemma Assoc<T>(a: seq<T>, b: seq<T>, c: seq<T>)
    ensures (a + b) + c == a + (b + c)
  {
  }

  /** Concatenation regroups. */
  lemma Regroup(a: seq<string>, b: seq<string>, c: seq<string>, d: seq<string>)
    ensures (a + b) + c + d == a + (b + c + d)
  {
  }

  /** Printed groups followed by the help text read back as their tasks,
      group by group; nothing after the help text is read. */
  lemma {:induction false} ReportParses(groups: seq<TaskGroup>, x: string, post: seq<string>,
                                        group: Option<string>, project: string)
    requires forall k :: 0 <= k < |groups| ==> ListableGroup(groups[k], project)
    requires EndsListing(Strip(x))
    ensures TasksFrom(ReportLines(groups) + [x] + post, group, project) == AllTasks(groups)
    decreases |groups|
  {
    if |groups| == 0 {
      HelpTextStops([], x, post, group, project);
      assert [] + [x] + post == ReportLines(groups) + [x] + post;
    } else {
      var g := groups[0];
      var more := ReportLines(groups[1..]) + [x] + post;
      assert forall k :: 0 <= k < |groups[1..]| ==> groups[1..][k] == groups[k + 1];
      ReportParses(groups[1..], x, post, Some(g.title), project);
      SectionParses(g, more, group, project);
      assert ReportLines(groups) == SectionLines(g) + ReportLines(groups[1..]);
      Regroup(SectionLines(g), ReportLines(groups[1..]), [x], post);
    }
  }

  /** The printed lines of a listable group hold no newline. */
  lemma SectionOneLine(g: TaskGroup, project: string)
    requires ListableGroup(g, project)
    ensures forall i :: 0 <= i < |SectionLines(g)| ==> '\n' !in SectionLines(g)[i]
  {
    var sec := SectionLines(g);
    var h := HeaderLine(g.title);
    forall j | 0 <= j < |h| ensures h[j] != '\n' {
      if j < |g.title| {
        assert h[j] == g.title[j];
      }
    }
    forall i | 2 <= i < |sec| ensures '\n' !in sec[i] {
      assert sec[i] == Entries(g.tasks)[i - 2];
      TaskEntryOneLine(g.tasks[i - 2].name, g.tasks[i - 2].description);
    }
  }

  /** The printed lines of listable groups hold no newline. */
  lemma {:induction false} ReportLinesOneLine(groups: seq<TaskGroup>, project: string)
    requires forall k :: 0 <= k < |groups| ==> ListableGroup(groups[k], project)
    ensures forall i :: 0 <= i < |ReportLines(groups)| ==> '\n' !in ReportLines(groups)[i]
    decreases |groups|
  {
    if |groups| > 0 {
      assert forall k :: 0 <= k < |groups| - 1 ==> groups[1..][k] == groups[k + 1];
      SectionOneLine(groups[0], project);
      ReportLinesOneLine(groups[1..], project);
      AppendLines(SectionLines(groups[0]), ReportLines(groups[1..]));
    }
  }

  /** Concatenating newline-free lines gives newline-free lines. */
  lemma AppendLines(a: seq<string>, b: seq<string>)
    requires forall i :: 0 <= i < |a| ==> '\n' !in a[i]
    requires forall i :: 0 <= i < |b| ==> '\n' !in b[i]
    ensures forall i :: 0 <= i < |a + b| ==> '\n' !in (a + b)[i]
  {
  }

  /** Appending a line without newline keeps every line newline-free. */
  lemma AppendOneLine(lines: seq<string>, x: string)
    requires forall i :: 0 <= i < |lines| ==> '\n' !in lines[i]
    requires '\n' !in x
    ensures forall i :: 0 <= i < |lines + [x]| ==> '\n' !in (lines + [x])[i]
  {
  }

  /** Round trip: the output of `gradlew tasks --all` for listable groups,
      ended by the help text, parses to the tasks of the groups in order. */
  lemma ParseTaskReport(groups: seq<TaskGroup>, x: string, project: string)
    requires forall k :: 0 <= k < |groups| ==> ListableGroup(groups[k], project)
    requires '\n' !in x && EndsListing(Strip(x))
    ensures ParseTasks(Join(ReportLines(groups) + [x], '\n'), project) == AllTasks(groups)
  {
    var lines := ReportLines(groups) + [x];
    ReportLinesOneLine(groups, project);
    AppendOneLine(ReportLines(groups), x);
    SplitJoin(lines, '\n');
    ReportParses(groups, x, [], None, project);
    assert lines == ReportLines(groups) + [x] + [];
  }
}
