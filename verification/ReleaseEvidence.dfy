/** When one check row of a release candidate may stand in for another.

    Source: scripts/basic-release-checks.py. A missing or null text is the empty string. What GitHub answers is a
    parameter: the jobs of a run, fetched once for each of the program's two caches; whether a run is unchanged since
    the census; and whether a pull request run is authentic. */
module ReleaseEvidence {
  import opened Options

  datatype Check = Check(id: int, appId: int, app: string, name: string, suite: int, status: string, conclusion: string,
                         title: string, summary: string)

  datatype Run = Run(id: int, suite: Option<int>, path: string, headSha: string, owner: string, event: string,
                     branch: string, status: string, conclusion: string, attempt: Option<int>)

  datatype Job = Job(id: int, name: string, status: string, conclusion: string, attempt: Option<int>, noSteps: bool)

  datatype World = World(repository: string, source: string, runs: seq<Run>, selected: map<string, Run>,
                         oldJobs: int -> seq<Job>, selectedJobs: int -> seq<Job>, intact: Run -> bool,
                         authentic: Run -> bool)

  datatype Key = Plain(appId: int, name: string) | OfSuite(appId: int, name: string, suite: int)
               | OfWorkflow(appId: int, name: string, path: string)

  datatype Foreign = Foreign(check: int, run: int, owner: string)
  datatype Unexecuted = Unexecuted(check: int, origin: Run, replacement: Run)
  datatype Conditional = Conditional(proof: Unexecuted, latest: int)
  datatype Retry = Retry(check: int, latest: int, origin: Run, replacement: Run)

  const WORKFLOWS := ".github/workflows/"

  function Filter<T(!new)>(s: seq<T>, keep: T -> bool): (r: seq<T>)
    ensures forall x :: x in r <==> x in s && keep(x)
  {
    if s == [] then [] else (if keep(s[0]) then [s[0]] else []) + Filter(s[1..], keep)
  }

  /** The only element kept, when there is exactly one. */
  function Only<T(!new)>(s: seq<T>, keep: T -> bool): (r: Option<T>)
    ensures r.Some? ==> r.value in s && keep(r.value) && forall x :: x in s && keep(x) ==> x == r.value
  {
    var kept := Filter(s, keep);
    if |kept| == 1 then Some(kept[0]) else None
  }

  function Origin(w: World, suite: int): Option<Run> {
    Only(w.runs, (run: Run) => run.suite == Some(suite))
  }

  function JobOf(jobs: seq<Job>, id: int): Option<Job> {
    Only(jobs, (job: Job) => job.id == id)
  }

  /** Position k is the only one whose element is kept. */
  ghost predicate SoleAt<T(!new)>(s: seq<T>, keep: T -> bool, k: int) {
    0 <= k < |s| && keep(s[k]) && forall j :: 0 <= j < |s| && keep(s[j]) ==> j == k
  }

  lemma FilterEmpty<T(!new)>(s: seq<T>, keep: T -> bool)
    ensures Filter(s, keep) == [] <==> forall j :: 0 <= j < |s| ==> !keep(s[j])
  {
    var kept := Filter(s, keep);
    assert kept == [] || kept[0] in kept;
    forall j | 0 <= j < |s| ensures keep(s[j]) <==> s[j] in kept {
    }
  }

  lemma SoleShift<T(!new)>(s: seq<T>, keep: T -> bool, k: int)
    requires s != [] && !keep(s[0])
    ensures SoleAt(s, keep, k) <==> SoleAt(s[1..], keep, k - 1)
  {
    forall j ensures 0 <= j < |s[1..]| ==> s[1..][j] == s[j + 1] {
    }
    if SoleAt(s[1..], keep, k - 1) {
      forall j | 0 <= j < |s| && keep(s[j]) ensures j == k {
        assert s[1..][j - 1] == s[j];
      }
    }
  }

  /** The only element kept stands at the only position kept. */
  lemma {:induction false} OnlyExactly<T(!new)>(s: seq<T>, keep: T -> bool, x: T)
    ensures Only(s, keep) == Some(x) <==> exists k :: SoleAt(s, keep, k) && s[k] == x
  {
    if s != [] {
      var tail := s[1..];
      if keep(s[0]) {
        FilterEmpty(tail, keep);
        assert Filter(tail, keep) == [] <==> SoleAt(s, keep, 0) by {
          forall j | 0 <= j < |tail| ensures tail[j] == s[j + 1] {
          }
          forall j | 0 < j < |s| ensures s[j] == tail[j - 1] {
          }
        }
        assert forall k :: SoleAt(s, keep, k) ==> k == 0;
      } else {
        OnlyExactly(tail, keep, x);
        forall k ensures SoleAt(s, keep, k) <==> SoleAt(tail, keep, k - 1) {
          SoleShift(s, keep, k);
        }
        hide SoleAt, Filter;
        if exists k :: SoleAt(tail, keep, k) && tail[k] == x {
          var k :| SoleAt(tail, keep, k) && tail[k] == x;
          assert SoleAt(s, keep, k + 1);
        }
      }
    }
  }

  /** `run` is the one run of the suite: it stands in the census of runs, once, and no other run of the suite does. */
  ghost predicate SoleRun(w: World, suite: int, run: Run) {
    exists k :: SoleAt(w.runs, (r: Run) => r.suite == Some(suite), k) && w.runs[k] == run
  }

  lemma SoleRunIs(w: World, suite: int)
    ensures forall run :: Origin(w, suite) == Some(run) <==> SoleRun(w, suite, run)
  {
    forall run ensures Origin(w, suite) == Some(run) <==> SoleRun(w, suite, run) {
      OnlyExactly(w.runs, (r: Run) => r.suite == Some(suite), run);
    }
  }

  lemma SoleRunAt(w: World, suite: int, k: nat)
    requires k < |w.runs| && w.runs[k].suite == Some(suite)
    requires forall j :: 0 <= j < |w.runs| && w.runs[j].suite == Some(suite) ==> j == k
    ensures SoleRun(w, suite, w.runs[k]) && Origin(w, suite) == Some(w.runs[k])
  {
    assert SoleAt(w.runs, (r: Run) => r.suite == Some(suite), k);
    SoleRunIs(w, suite);
  }

  /** `job` is the one job of this id in the list. */
  ghost predicate SoleJob(jobs: seq<Job>, id: int, job: Job) {
    exists k :: SoleAt(jobs, (j: Job) => j.id == id, k) && jobs[k] == job
  }

  lemma SoleJobIs(jobs: seq<Job>, id: int)
    ensures forall job :: JobOf(jobs, id) == Some(job) <==> SoleJob(jobs, id, job)
  {
    forall job ensures JobOf(jobs, id) == Some(job) <==> SoleJob(jobs, id, job) {
      OnlyExactly(jobs, (j: Job) => j.id == id, job);
    }
  }

  predicate FromFork(w: World, run: Run) {
    run.event == "pull_request" && run.owner != "" && run.owner != w.repository
  }

  predicate NonBlocking(conclusion: string) {
    conclusion == "success" || conclusion == "skipped" || conclusion == "neutral"
  }

  /** A row that blocks nothing. */
  predicate Good(c: Check) {
    c.status == "completed" && NonBlocking(c.conclusion)
  }

  function ForeignPull(w: World, c: Check): Option<Foreign> {
    var origin := Origin(w, c.suite);
    if c.app != "github-actions" || origin.None? then None
    else if !FromFork(w, origin.value) then None
    else Some(Foreign(c.id, origin.value.id, origin.value.owner))
  }

  /** A row is ignored exactly when its suite has one run, and that is a pull request from another repository. */
  lemma ForeignExactly(w: World, c: Check, f: Foreign)
    ensures ForeignPull(w, c) == Some(f)
            <==> && c.app == "github-actions"
                 && exists run :: SoleRun(w, c.suite, run) && f == Foreign(c.id, run.id, run.owner)
                                  && run.event == "pull_request" && run.owner != "" && run.owner != w.repository
  {
    SoleRunIs(w, c.suite);
    hide SoleRun;
  }

  predicate EndsWith(s: string, end: string) {
    |end| <= |s| && s[|s| - |end|..] == end
  }

  predicate StartsWith(s: string, start: string) {
    |start| <= |s| && s[..|start|] == start
  }

  /** The pattern of a workflow file: one path component ending in .yml or .yaml, not only the ending. */
  predicate WorkflowPath(path: string) {
    && StartsWith(path, WORKFLOWS)
    && var file := path[|WORKFLOWS|..];
       '/' !in file && ((EndsWith(file, ".yml") && |file| > 4) || (EndsWith(file, ".yaml") && |file| > 5))
  }

  function HistoryKey(w: World, c: Check): Key {
    if c.app != "github-actions" then Plain(c.appId, c.name)
    else if FromWorkflow(w, c.suite) then OfWorkflow(c.appId, c.name, Origin(w, c.suite).value.path)
    else OfSuite(c.appId, c.name, c.suite)
  }

  /** The suite is that of one run of a workflow file of this repository, at this commit, and the run was not
      skipped. */
  predicate FromWorkflow(w: World, suite: int) {
    var origin := Origin(w, suite);
    && origin.Some? && origin.value.headSha == w.source && origin.value.owner == w.repository
    && WorkflowPath(origin.value.path)
    && !(origin.value.status == "completed" && origin.value.conclusion == "skipped")
  }

  /** A text between two slashes, of the form name.yml or name.yaml with a name. */
  predicate WorkflowFile(file: string) {
    && (forall i :: 0 <= i < |file| ==> file[i] != '/')
    && exists n :: 0 < n < |file| && (file[n..] == ".yml" || file[n..] == ".yaml")
  }

  lemma WorkflowPathExactly(path: string)
    ensures WorkflowPath(path) <==> exists file :: path == ".github/workflows/" + file && WorkflowFile(file)
  {
    if WorkflowPath(path) {
      var file := path[|WORKFLOWS|..];
      assert path == WORKFLOWS + file;
      if EndsWith(file, ".yml") {
        assert file[|file| - 4..] == ".yml";
      } else {
        assert file[|file| - 5..] == ".yaml";
      }
      assert WorkflowFile(file);
    }
    if exists file :: path == ".github/workflows/" + file && WorkflowFile(file) {
      var file :| path == ".github/workflows/" + file && WorkflowFile(file);
      assert path[..|WORKFLOWS|] == WORKFLOWS && path[|WORKFLOWS|..] == file;
      var n :| 0 < n < |file| && (file[n..] == ".yml" || file[n..] == ".yaml");
    }
  }

  /** The suite is that of one run, at this commit of this repository, of a workflow file, and it was not skipped. */
  ghost predicate OfWorkflowRun(w: World, suite: int, run: Run) {
    && SoleRun(w, suite, run) && run.headSha == w.source && run.owner == w.repository
    && (exists file :: run.path == ".github/workflows/" + file && WorkflowFile(file))
    && !(run.status == "completed" && run.conclusion == "skipped")
  }

  lemma OfWorkflowExactly(w: World, suite: int)
    ensures FromWorkflow(w, suite) <==> exists run :: OfWorkflowRun(w, suite, run)
    ensures forall run :: OfWorkflowRun(w, suite, run) ==> Origin(w, suite) == Some(run)
  {
    SoleRunIs(w, suite);
    hide Origin, SoleRun, WorkflowPath, WorkflowFile;
    if Origin(w, suite).Some? {
      WorkflowPathExactly(Origin(w, suite).value.path);
      assert FromWorkflow(w, suite) ==> OfWorkflowRun(w, suite, Origin(w, suite).value);
    }
    if exists run :: OfWorkflowRun(w, suite, run) {
      var run :| OfWorkflowRun(w, suite, run);
      WorkflowPathExactly(run.path);
    }
  }

  /** Which rows may answer for one another: rows of one app and name that come from no workflow app at all, from one
      suite, or from authenticated runs of one workflow. A check in another suite of unknown origin never masks one. */
  ghost predicate OneHistory(w: World, c: Check, d: Check) {
    && c.appId == d.appId && c.name == d.name
    && ((c.app != "github-actions" && d.app != "github-actions")
        || (&& c.app == "github-actions" && d.app == "github-actions"
            && (c.suite == d.suite
                || exists run, next :: OfWorkflowRun(w, c.suite, run) && OfWorkflowRun(w, d.suite, next)
                                       && run.path == next.path)))
  }

  lemma SameHistory(w: World, c: Check, d: Check)
    ensures HistoryKey(w, c) == HistoryKey(w, d) <==> OneHistory(w, c, d)
  {
    OfWorkflowExactly(w, c.suite);
    OfWorkflowExactly(w, d.suite);
    hide FromWorkflow, OfWorkflowRun, Origin;
    if FromWorkflow(w, c.suite) && FromWorkflow(w, d.suite) {
      var run :| OfWorkflowRun(w, c.suite, run);
      var next :| OfWorkflowRun(w, d.suite, next);
    }
  }

  function Workflow(path: string): string {
    if StartsWith(path, WORKFLOWS) then path[|WORKFLOWS|..] else path
  }

  /** A cancelled row whose job never ran a step, below the selected run of its workflow. The program raises an error
      instead when the old run has changed; the release is refused either way. */
  function SupersededUnexecuted(w: World, c: Check): Option<Unexecuted> {
    var found := Origin(w, c.suite);
    if c.status != "completed" || c.conclusion != "cancelled" || c.app != "github-actions" || found.None? then None
    else
      var origin := found.value;
      if Workflow(origin.path) !in w.selected then None
      else
        var replacement := w.selected[Workflow(origin.path)];
        if origin.id >= replacement.id || origin.headSha != w.source || origin.event != "pull_request"
           || origin.status != "completed" || origin.conclusion != "cancelled" || !w.intact(origin)
        then None
        else
          var job := JobOf(w.oldJobs(origin.id), c.id);
          if && job.Some? && job.value.name == c.name && job.value.status == "completed"
             && job.value.conclusion == "cancelled" && job.value.attempt == origin.attempt && job.value.noSteps
          then Some(Unexecuted(c.id, origin, replacement))
          else None
  }

  function SupersededConditional(w: World, c: Check, latest: Check): (p: Option<Conditional>)
    ensures p.Some? ==> p.value.proof.check == c.id
  {
    if latest.status != "completed" || latest.conclusion != "skipped" || latest.app != "github-actions"
       || c.appId != latest.appId || c.name != latest.name
    then None
    else
      var proof := SupersededUnexecuted(w, c);
      if proof.None? then None
      else
        var replacement := proof.value.replacement;
        if Some(latest.suite) != replacement.suite || c.id >= latest.id then None
        else
          var job := JobOf(w.selectedJobs(replacement.id), latest.id);
          if && job.Some? && job.value.name == latest.name && job.value.status == "completed"
             && job.value.conclusion == "skipped" && job.value.attempt == replacement.attempt && job.value.noSteps
          then Some(Conditional(proof.value, latest.id))
          else None
  }

  predicate MainPush(run: Run) {
    run.event == "push" && run.branch == "main"
  }

  /** The jobs show the old row in an earlier attempt of the same run. */
  predicate RetriedInRun(w: World, older: Check, latest: Check, run: Run) {
    var was, now := JobOf(w.selectedJobs(run.id), older.id), JobOf(w.selectedJobs(run.id), latest.id);
    && was.Some? && now.Some? && was.value.name == older.name && now.value.name == latest.name
    && was.value.status == "completed" && was.value.conclusion == older.conclusion
    && now.value.status == "completed" && now.value.conclusion == "success"
    && was.value.attempt.Some? && run.attempt.Some? && was.value.attempt.value < run.attempt.value
    && now.value.attempt == run.attempt
  }

  predicate MayRetry(w: World, origin: Run, replacement: Run) {
    && origin.path == replacement.path && StartsWith(replacement.path, WORKFLOWS)
    && origin.headSha == w.source && replacement.headSha == w.source
    && origin.owner == w.repository && replacement.owner == w.repository
    && (origin.event == "push" || origin.event == "pull_request")
    && (MainPush(replacement)
        || (w.authentic(replacement)
            && !exists run :: run in w.runs && run.path == replacement.path && run.headSha == w.source && MainPush(run)
                              && run.owner == w.repository))
    && origin.status == "completed" && replacement.status == "completed" && replacement.conclusion == "success"
    && origin.id <= replacement.id
  }

  function SupersededRetry(w: World, older: Check, latest: Check): (r: Option<Retry>)
    ensures r.Some? ==> r.value.check == older.id
  {
    var found, next := Origin(w, older.suite), Origin(w, latest.suite);
    if older.status != "completed" || older.conclusion !in {"failure", "cancelled", "timed_out"}
       || older.app != "github-actions" || latest.app != "github-actions" || found.None? || next.None?
    then None
    else if !MayRetry(w, found.value, next.value) then None
    else if found.value.id == next.value.id && !RetriedInRun(w, older, latest, found.value) then None
    else Some(Retry(older.id, latest.id, found.value, next.value))
  }

  // ----- exactly when there is a proof -----

  /** The list has one job of the row's id; it is the row's, completed in this attempt, and no step of it ran. */
  ghost predicate NeverRan(jobs: seq<Job>, c: Check, conclusion: string, attempt: Option<int>) {
    exists job :: SoleJob(jobs, c.id, job) && job.name == c.name && job.status == "completed"
                  && job.conclusion == conclusion && job.attempt == attempt && job.noSteps
  }

  /** The row is a cancelled job that never ran a step, in a cancelled pull request run below the selected one. */
  ghost predicate UnexecutedBelow(w: World, c: Check, u: Unexecuted) {
    && u.check == c.id && c.status == "completed" && c.conclusion == "cancelled" && c.app == "github-actions"
    && SoleRun(w, c.suite, u.origin) && u.origin.headSha == w.source && u.origin.event == "pull_request"
    && u.origin.status == "completed" && u.origin.conclusion == "cancelled" && w.intact(u.origin)
    && (exists name :: NamesWorkflow(u.origin.path, name) && name in w.selected && u.replacement == w.selected[name])
    && u.origin.id < u.replacement.id
    && NeverRan(w.oldJobs(u.origin.id), c, "cancelled", u.origin.attempt)
  }

  /** The file's name: the path without the directory, or the path itself when it is not in there. */
  predicate NamesWorkflow(path: string, name: string) {
    if |path| >= 18 && path[..18] == ".github/workflows/" then path == ".github/workflows/" + name else path == name
  }

  lemma WorkflowNames(path: string)
    ensures forall name :: NamesWorkflow(path, name) <==> name == Workflow(path)
  {
    if |path| >= 18 && path[..18] == ".github/workflows/" {
      forall name ensures path == ".github/workflows/" + name <==> name == path[18..] {
        assert (".github/workflows/" + name)[18..] == name;
        assert path == path[..18] + path[18..];
      }
    }
  }

  lemma NeverRanIs(jobs: seq<Job>, c: Check, conclusion: string, attempt: Option<int>)
    ensures var job := JobOf(jobs, c.id);
      NeverRan(jobs, c, conclusion, attempt)
      <==> job.Some? && job.value.name == c.name && job.value.status == "completed"
           && job.value.conclusion == conclusion && job.value.attempt == attempt && job.value.noSteps
  {
    SoleJobIs(jobs, c.id);
    hide JobOf, SoleJob;
  }

  lemma UnexecutedExactly(w: World, c: Check, u: Unexecuted)
    ensures SupersededUnexecuted(w, c) == Some(u) <==> UnexecutedBelow(w, c, u)
  {
    hide Origin, SoleRun, JobOf, SoleJob, NeverRan, Workflow, NamesWorkflow;
    SoleRunIs(w, c.suite);
    WorkflowNames(u.origin.path);
    NeverRanIs(w.oldJobs(u.origin.id), c, "cancelled", u.origin.attempt);
  }

  /** The older row never ran; the skipped one is of the same check and is a job of the selected run that never ran a
      step either. */
  ghost predicate SkippedInstead(w: World, c: Check, latest: Check, p: Conditional) {
    && UnexecutedBelow(w, c, p.proof) && p.latest == latest.id && c.id < latest.id
    && c.appId == latest.appId && c.name == latest.name && latest.app == "github-actions"
    && latest.status == "completed" && latest.conclusion == "skipped"
    && p.proof.replacement.suite == Some(latest.suite)
    && NeverRan(w.selectedJobs(p.proof.replacement.id), latest, "skipped", p.proof.replacement.attempt)
  }

  lemma ConditionalExactly(w: World, c: Check, latest: Check, p: Conditional)
    ensures SupersededConditional(w, c, latest) == Some(p) <==> SkippedInstead(w, c, latest, p)
  {
    hide SupersededUnexecuted, UnexecutedBelow, JobOf, SoleJob, NeverRan;
    UnexecutedExactly(w, c, p.proof);
    NeverRanIs(w.selectedJobs(p.proof.replacement.id), latest, "skipped", p.proof.replacement.attempt);
  }

  /** The two rows are jobs of one run: the older one in an earlier attempt, the later one in the run's own, and
      successful. */
  ghost predicate Retried(jobs: seq<Job>, older: Check, latest: Check, attempt: Option<int>) {
    exists was, now :: SoleJob(jobs, older.id, was) && SoleJob(jobs, latest.id, now)
      && was.name == older.name && was.status == "completed" && was.conclusion == older.conclusion
      && now.name == latest.name && now.status == "completed" && now.conclusion == "success" && now.attempt == attempt
      && was.attempt.Some? && attempt.Some? && was.attempt.value < attempt.value
  }

  lemma RetriedIs(w: World, older: Check, latest: Check, run: Run)
    ensures RetriedInRun(w, older, latest, run) <==> Retried(w.selectedJobs(run.id), older, latest, run.attempt)
  {
    SoleJobIs(w.selectedJobs(run.id), older.id);
    SoleJobIs(w.selectedJobs(run.id), latest.id);
    hide JobOf, SoleJob;
  }

  /** A push to main of the workflow of this path, at this commit of this repository. */
  predicate MainPushOf(w: World, path: string, run: Run) {
    && run.event == "push" && run.branch == "main"
    && run.path == path && run.headSha == w.source && run.owner == w.repository
  }

  /** Each suite has one run, both of one workflow at this commit of this repository, and the later one succeeded; it is
      a push to main, or an authentic pull request while no push to main of the workflow exists. Where both are the same
      run, its jobs show the failure in an earlier attempt. */
  ghost predicate RetriedBy(w: World, older: Check, latest: Check, r: Retry) {
    var origin, replacement := r.origin, r.replacement;
    && older.app == "github-actions" && latest.app == "github-actions" && older.status == "completed"
    && older.conclusion in {"failure", "cancelled", "timed_out"}
    && r.check == older.id && r.latest == latest.id
    && SoleRun(w, older.suite, origin) && SoleRun(w, latest.suite, replacement)
    && origin.path == replacement.path && (exists file :: replacement.path == ".github/workflows/" + file)
    && origin.headSha == w.source && replacement.headSha == w.source
    && origin.owner == w.repository && replacement.owner == w.repository
    && origin.event in {"push", "pull_request"} && origin.status == "completed"
    && replacement.status == "completed" && replacement.conclusion == "success" && origin.id <= replacement.id
    && ((replacement.event == "push" && replacement.branch == "main")
        || (w.authentic(replacement) && forall run :: run in w.runs ==> !MainPushOf(w, replacement.path, run)))
    && (origin.id == replacement.id ==> Retried(w.selectedJobs(origin.id), older, latest, origin.attempt))
  }

  /** Which run may retry which, in their fields. */
  lemma MayRetryExactly(w: World, origin: Run, replacement: Run)
    ensures MayRetry(w, origin, replacement)
            <==> && origin.path == replacement.path && (exists file :: replacement.path == ".github/workflows/" + file)
                 && origin.headSha == w.source && replacement.headSha == w.source
                 && origin.owner == w.repository && replacement.owner == w.repository
                 && origin.event in {"push", "pull_request"} && origin.status == "completed"
                 && replacement.status == "completed" && replacement.conclusion == "success"
                 && origin.id <= replacement.id
                 && ((replacement.event == "push" && replacement.branch == "main")
                     || (w.authentic(replacement)
                         && forall run :: run in w.runs ==> !MainPushOf(w, replacement.path, run)))
  {
    StartsExactly(replacement.path);
    hide StartsWith;
    forall run ensures MainPushOf(w, replacement.path, run)
                       <==> run.path == replacement.path && run.headSha == w.source && MainPush(run)
                            && run.owner == w.repository {
    }
  }

  lemma StartsExactly(path: string)
    ensures StartsWith(path, WORKFLOWS) <==> exists file :: path == ".github/workflows/" + file
  {
    if StartsWith(path, WORKFLOWS) { assert path == ".github/workflows/" + path[18..]; }
    if exists file :: path == ".github/workflows/" + file {
      var file :| path == ".github/workflows/" + file;
      assert path[..18] == ".github/workflows/";
    }
  }

  lemma RetryExactly(w: World, older: Check, latest: Check, r: Retry)
    ensures SupersededRetry(w, older, latest) == Some(r) <==> RetriedBy(w, older, latest, r)
  {
    hide Origin, SoleRun, RetriedInRun, Retried, MayRetry, MainPushOf;
    SoleRunIs(w, older.suite);
    SoleRunIs(w, latest.suite);
    RetriedIs(w, older, latest, r.origin);
    MayRetryExactly(w, r.origin, r.replacement);
  }

  // ----- what a retry establishes -----

  /** `source_runs` refuses runs of another commit and a repeated id. */
  predicate DistinctRuns(w: World) {
    forall a, b :: a in w.runs && b in w.runs && a.id == b.id ==> a == b
  }

  /** The attempt a row belongs to: the jobs of a shared run tell two attempts apart, otherwise it is the run's. */
  ghost predicate RanIn(w: World, c: Check, run: Run, attempt: int) {
    run.suite == Some(c.suite) && exists job :: job in w.selectedJobs(run.id) && job.id == c.id
                                                && job.attempt == Some(attempt)
  }

  /** A retry stays in its workflow, in this repository and at this commit, never overrules a push to main of that
      workflow by a pull request, and goes strictly up: to a later run, or to a later attempt of the same run. No
      failure is ever retired by a row of the same attempt. */
  ghost predicate GoesUp(w: World, older: Check, latest: Check, r: Retry) {
    && r.check == older.id && r.latest == latest.id
    && r.origin in w.runs && r.replacement in w.runs
    && r.origin.suite == Some(older.suite) && r.replacement.suite == Some(latest.suite)
    && r.origin.path == r.replacement.path && r.origin.headSha == r.replacement.headSha == w.source
    && r.origin.owner == r.replacement.owner == w.repository && r.replacement.conclusion == "success"
    && ((r.replacement.event == "push" && r.replacement.branch == "main")
        || (w.authentic(r.replacement) && forall push :: push in w.runs ==> !MainPushOf(w, r.origin.path, push)))
    && (r.origin.id < r.replacement.id
        || (r.origin == r.replacement
            && exists early, late :: RanIn(w, older, r.origin, early) && RanIn(w, latest, r.replacement, late)
                && early < late))
  }

  lemma RetryGoesUp(w: World, older: Check, latest: Check)
    requires SupersededRetry(w, older, latest).Some? && DistinctRuns(w)
    ensures GoesUp(w, older, latest, SupersededRetry(w, older, latest).value)
  {
    var r := SupersededRetry(w, older, latest).value;
    if r.origin.id == r.replacement.id {
      AttemptsRise(w, older, latest, r.origin);
    }
    hide RetriedInRun, RanIn, StartsWith;
  }

  lemma AttemptsRise(w: World, older: Check, latest: Check, run: Run)
    requires RetriedInRun(w, older, latest, run) && run.suite == Some(older.suite) == Some(latest.suite)
    ensures exists early, late :: RanIn(w, older, run, early) && RanIn(w, latest, run, late) && early < late
  {
    var was, now := JobOf(w.selectedJobs(run.id), older.id), JobOf(w.selectedJobs(run.id), latest.id);
    assert was.value in w.selectedJobs(run.id) && now.value in w.selectedJobs(run.id);
    assert RanIn(w, older, run, was.value.attempt.value);
    assert RanIn(w, latest, run, now.value.attempt.value);
  }
}
