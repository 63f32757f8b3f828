/** A census that is admitted although an older failure has no proof: its history ends in an excused placeholder. */
module ReleaseMasked {
  import opened Options
  import opened ReleaseEvidence
  import opened ReleaseCensus

  const REPOSITORY := "777genius/agent-notifications"
  const SOURCE := "c0ffee00c0ffee00c0ffee00c0ffee00c0ffee00"
  const MACOS := ".github/workflows/ci-macos.yml"
  const PLACEHOLDER := "${{ matrix.os }}"

  function PullRun(id: int): Run {
    Run(id, Some(10 + id), MACOS, SOURCE, REPOSITORY, "pull_request", "fix", "completed", "cancelled", Some(1))
  }

  /** A successful run of a push to main. */
  function MainRun(id: int, path: string): Run {
    Run(id, Some(10 + id), path, SOURCE, REPOSITORY, "push", "main", "completed", "success", Some(1))
  }

  /** Two cancelled pull request runs of one workflow, and the runs selected for the four workflows. */
  const RUNS := [PullRun(1), PullRun(2), MainRun(3, MACOS), MainRun(4, ".github/workflows/ci-windows.yml"),
                 MainRun(5, ".github/workflows/install-recovery-e2e.yml"),
                 MainRun(6, ".github/workflows/ci-ubuntu.yml")]

  /** A failure in the first and, under the same unexpanded name, a job of the second that never ran a step. */
  const FAILURE := Check(101, 7, "github-actions", PLACEHOLDER, 11, "completed", "failure", "", "")
  const UNRUN := Check(102, 7, "github-actions", PLACEHOLDER, 12, "completed", "cancelled", "", "")
  const JOB := Job(102, PLACEHOLDER, "completed", "cancelled", Some(1), true)

  const WORLD := World(REPOSITORY, SOURCE, RUNS,
                       map["ci-macos.yml" := RUNS[2], "ci-windows.yml" := RUNS[3],
                           "install-recovery-e2e.yml" := RUNS[4], "ci-ubuntu.yml" := RUNS[5]],
                       id => if id == 2 then [JOB] else [], id => [], run => true, run => true)

  lemma Origins()
    ensures Origin(WORLD, 11) == Some(PullRun(1)) && Origin(WORLD, 12) == Some(PullRun(2)) && DistinctRuns(WORLD)
  {
    hide Origin;
    assert forall j :: 0 <= j < |RUNS| ==> RUNS[j].id == j + 1 && RUNS[j].suite == Some(11 + j);
    SoleRunAt(WORLD, 11, 0);
    SoleRunAt(WORLD, 12, 1);
  }

  lemma File()
    ensures WorkflowPath(MACOS) && Workflow(MACOS) == "ci-macos.yml"
  {
    assert MACOS == WORKFLOWS + "ci-macos.yml";
    assert MACOS[|WORKFLOWS|..] == "ci-macos.yml";
  }

  lemma SharedHistory()
    ensures HistoryKey(WORLD, FAILURE) == HistoryKey(WORLD, UNRUN) == OfWorkflow(7, PLACEHOLDER, MACOS)
    ensures ForeignPull(WORLD, FAILURE).None? && ForeignPull(WORLD, UNRUN).None?
  {
    Origins();
    File();
    hide Origin, WorkflowPath;
  }

  lemma UnrunExcused(rows: seq<Check>)
    ensures Excusable(WORLD, rows, UNRUN)
  {
    Origins();
    File();
    hide Origin, WorkflowPath, Workflow, ReviewClosed;
    assert PLACEHOLDER[..3] == "${{";
    assert Contains(PLACEHOLDER, "${{");
    hide Contains;
    JobFound();
    assert WORLD.oldJobs(2) == [JOB];
  }

  lemma JobFound()
    ensures JobOf([JOB], 102) == Some(JOB)
  {
    assert SoleAt([JOB], (j: Job) => j.id == 102, 0);
    SoleJobIs([JOB], 102);
  }

  /** Two rows of one history whose later one is excused: admitted, and the older one owes nothing. */
  lemma ExcusedPair(w: World, d: Check, c: Check)
    requires d.id < c.id && HistoryKey(w, d) == HistoryKey(w, c) && !Good(d) && !Good(c) && Excusable(w, [d, c], c)
    ensures Admissible(w, [d, c]) && d.id !in AllDue(w, [d, c]) && DistinctRows([d, c])
  {
    hide HistoryKey, Good, Excusable, Retired;
    var rows := [d, c];
    assert forall x :: x in rows <==> x == d || x == c;
    assert IsLatest(w, rows, c) && !IsLatest(w, rows, d);
    DueExactly(w, rows, d, c);
  }

  lemma BothEligible(d: Check, c: Check)
    requires EligibleRow(WORLD, None, d) && EligibleRow(WORLD, None, c)
    ensures Eligible(WORLD, None, [d, c]) == [d, c]
  {
    hide EligibleRow;
    assert [d, c][..1] == [d] && [d][..0] == [];
    assert Eligible(WORLD, None, [d]) == Eligible(WORLD, None, []) + [d];
  }

  /** The census of the two rows is admitted; the failure, older under the same key, has no proof and is asked for
      none. */
  lemma FailureMasked()
    ensures var rows := [FAILURE, UNRUN];
      && DistinctRows(rows) && DistinctRuns(WORLD) && Eligible(WORLD, None, rows) == rows && Admissible(WORLD, rows)
      && HistoryKey(WORLD, FAILURE) == HistoryKey(WORLD, UNRUN) && FAILURE.id < UNRUN.id && !Good(FAILURE)
      && FAILURE.id !in AllDue(WORLD, rows)
  {
    hide HistoryKey, Excusable, Eligible, Admissible, AllDue, DistinctRows, ForeignPull, DistinctRuns;
    Origins();
    SharedHistory();
    UnrunExcused([FAILURE, UNRUN]);
    BothEligible(FAILURE, UNRUN);
    ExcusedPair(WORLD, FAILURE, UNRUN);
  }
}
