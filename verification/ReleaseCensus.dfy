/** The census of a release candidate's checks: every row is accounted for, and a blocking row is retired only by an
    explicit proof in its own history.

    Source: scripts/basic-release-checks.py, the census loops of `verify`. */
module ReleaseCensus {
  import opened Options
  import opened ReleaseEvidence

  datatype Excuse = ReviewCancelled(check: int) | Placeholder(proof: Unexecuted)

  /** The two lists of proofs that retire older rows. */
  datatype Proofs = Proofs(conditionals: seq<Conditional>, retries: seq<Retry>)

  datatype Report = Report(eligible: seq<Check>, foreign: seq<Foreign>, excused: seq<Excuse>, proofs: Proofs)

  /** `checks` refuses a census with a repeated id. */
  predicate DistinctRows(rows: seq<Check>) {
    forall i, j :: 0 <= i < j < |rows| ==> rows[i].id != rows[j].id
  }

  // ----- the split -----

  /** A row of the release operator's own suite. */
  predicate OperatorRow(operator: Option<int>, c: Check) {
    operator.Some? && c.app == "github-actions" && operator == Some(c.suite)
  }

  predicate EligibleRow(w: World, operator: Option<int>, c: Check) {
    !OperatorRow(operator, c) && ForeignPull(w, c).None?
  }

  function Eligible(w: World, operator: Option<int>, before: seq<Check>): (rows: seq<Check>)
    ensures forall c :: c in rows <==> c in before && EligibleRow(w, operator, c)
  {
    if before == [] then []
    else
      var c := before[|before| - 1];
      Eligible(w, operator, before[..|before| - 1]) + if EligibleRow(w, operator, c) then [c] else []
  }

  function Ignored(w: World, operator: Option<int>, before: seq<Check>): (proofs: seq<Foreign>)
    ensures forall p :: p in proofs
                        <==> exists c :: c in before && !OperatorRow(operator, c) && ForeignPull(w, c) == Some(p)
  {
    if before == [] then []
    else
      var c := before[|before| - 1];
      Ignored(w, operator, before[..|before| - 1])
      + if !OperatorRow(operator, c) && ForeignPull(w, c).Some? then [ForeignPull(w, c).value] else []
  }

  function Operators(operator: Option<int>, before: seq<Check>): nat {
    if before == [] then 0
    else
      Operators(operator, before[..|before| - 1]) + if OperatorRow(operator, before[|before| - 1]) then 1 else 0
  }

  /** No row is lost or counted twice: the three parts add up to the census, and the eligible rows stay distinct. */
  lemma {:induction false} CensusSplits(w: World, operator: Option<int>, before: seq<Check>)
    requires DistinctRows(before)
    ensures Operators(operator, before) + |Ignored(w, operator, before)| + |Eligible(w, operator, before)| == |before|
    ensures DistinctRows(Eligible(w, operator, before))
  {
    if before != [] {
      var front, c := before[..|before| - 1], before[|before| - 1];
      CensusSplits(w, operator, front);
      forall i | 0 <= i < |Eligible(w, operator, front)| ensures Eligible(w, operator, front)[i].id != c.id {
        assert Eligible(w, operator, front)[i] in front;
      }
    }
  }

  // ----- what a release must show -----

  predicate IsLatest(w: World, rows: seq<Check>, c: Check) {
    c in rows && forall d :: d in rows && HistoryKey(w, d) == HistoryKey(w, c) ==> d.id <= c.id
  }

  /** An older blocking row under a key whose latest row is good. */
  predicate Owes(w: World, rows: seq<Check>, d: Check, c: Check) {
    IsLatest(w, rows, c) && Good(c) && d in rows && HistoryKey(w, d) == HistoryKey(w, c) && d.id < c.id && !Good(d)
  }

  /** What retires the older row d: a retry when the latest row succeeded, otherwise a conditional that never ran. */
  predicate Retired(w: World, d: Check, c: Check) {
    if c.conclusion == "success" then SupersededRetry(w, d, c).Some? else SupersededConditional(w, d, c).Some?
  }

  /** What admission demands of an older row: a run that may retry its own, or a job that never ran, skipped in the
      selected run as well. */
  lemma RetiredExactly(w: World, d: Check, c: Check)
    ensures Retired(w, d, c) <==> if c.conclusion == "success" then exists r :: RetriedBy(w, d, c, r)
                                  else exists p :: SkippedInstead(w, d, c, p)
  {
    hide SupersededRetry, SupersededConditional, RetriedBy, SkippedInstead;
    forall r ensures SupersededRetry(w, d, c) == Some(r) <==> RetriedBy(w, d, c, r) {
      RetryExactly(w, d, c, r);
    }
    forall p ensures SupersededConditional(w, d, c) == Some(p) <==> SkippedInstead(w, d, c, p) {
      ConditionalExactly(w, d, c, p);
    }
  }

  predicate Contains(s: string, part: string) {
    StartsWith(s, part) || (s != "" && Contains(s[1..], part))
  }

  predicate Unresolved(name: string) {
    Contains(name, "${{") || (StartsWith(name, "github.event.") && Contains(name, " && ") && Contains(name, " || "))
  }

  predicate ReviewClosed(w: World, rows: seq<Check>, c: Check) {
    && c.name == "CodeRabbit" && c.app == "coderabbitai" && c.status == "completed" && c.conclusion == "cancelled"
    && c.title == "Review cancelled" && StartsWith(c.summary, "Result: Cancelled - Pull request is closed\n")
    && (forall name :: name in w.selected ==> w.selected[name].event == "pull_request")
    && !exists d :: d in rows && d.id < c.id && HistoryKey(w, d) == HistoryKey(w, c) && !NonBlocking(d.conclusion)
  }

  predicate Excusable(w: World, rows: seq<Check>, c: Check) {
    ReviewClosed(w, rows, c) || (Unresolved(c.name) && SupersededUnexecuted(w, c).Some?)
  }

  predicate Admissible(w: World, rows: seq<Check>) {
    && (forall c :: c in rows && IsLatest(w, rows, c) && !Good(c) ==> Excusable(w, rows, c))
    && forall c, d :: c in rows && d in rows && Owes(w, rows, d, c) ==> Retired(w, d, c)
  }

  /** The ids of the rows that owe a proof, among those with the given keys. */
  ghost function Due(w: World, rows: seq<Check>, keys: set<Key>): set<int> {
    set c, d | c in rows && d in rows && Owes(w, rows, d, c) && HistoryKey(w, d) in keys :: d.id
  }

  // ----- the same, said row by row without the program's keys and tests -----

  /** The row is completed and blocks nothing. */
  predicate Passes(c: Check) {
    c.status == "completed" && c.conclusion in {"success", "skipped", "neutral"}
  }

  ghost predicate LastOfHistory(w: World, rows: seq<Check>, c: Check) {
    c in rows && forall d :: d in rows && OneHistory(w, d, c) ==> d.id <= c.id
  }

  predicate StandsAt(s: string, part: string, i: int) {
    0 <= i <= i + |part| <= |s| && s[i..i + |part|] == part
  }

  /** `part` stands somewhere in the text. */
  ghost predicate Within(s: string, part: string) {
    exists i :: StandsAt(s, part, i)
  }

  /** A name that GitHub did not expand: an expression, or a condition with both connectives. */
  ghost predicate Unexpanded(name: string) {
    || Within(name, "${{")
    || (|name| >= 13 && name[..13] == "github.event." && Within(name, " && ") && Within(name, " || "))
  }

  /** A review that was cancelled because its pull request was closed, with nothing blocking before it. */
  ghost predicate ClosedReview(w: World, rows: seq<Check>, c: Check) {
    && c.name == "CodeRabbit" && c.app == "coderabbitai" && c.status == "completed" && c.conclusion == "cancelled"
    && c.title == "Review cancelled"
    && (exists rest :: c.summary == "Result: Cancelled - Pull request is closed\n" + rest)
    && (forall name :: name in w.selected ==> w.selected[name].event == "pull_request")
    && forall d :: d in rows && d.id < c.id && OneHistory(w, d, c) ==> d.conclusion in {"success", "skipped", "neutral"}
  }

  /** What a blocking last row needs, and what an older blocking row needs of a last row that passes. */
  ghost predicate MayStand(w: World, rows: seq<Check>, c: Check) {
    ClosedReview(w, rows, c) || (Unexpanded(c.name) && exists u :: UnexecutedBelow(w, c, u))
  }

  ghost predicate Answered(w: World, d: Check, c: Check) {
    if c.conclusion == "success" then exists x :: RetriedBy(w, d, c, x) else exists x :: SkippedInstead(w, d, c, x)
  }

  /** Every last row of a history that passes answers for the blocking rows before it; every other one is excused. */
  ghost predicate Admits(w: World, rows: seq<Check>) {
    forall c :: LastOfHistory(w, rows, c) ==>
      if Passes(c) then forall d :: d in rows && OneHistory(w, d, c) && d.id < c.id && !Passes(d) ==> Answered(w, d, c)
      else MayStand(w, rows, c)
  }

  lemma {:induction false} ContainsExactly(s: string, part: string)
    requires part != ""
    ensures Contains(s, part) <==> Within(s, part)
  {
    hide StandsAt;
    if StartsWith(s, part) {
      StandsInFront(s, part);
    } else if s == "" {
      forall i ensures !StandsAt(s, part, i) { StandsLater(s, part, i); }
    } else {
      ContainsExactly(s[1..], part);
      StandsInFront(s, part);
      forall i ensures i != 0 ==> (StandsAt(s, part, i) <==> StandsAt(s[1..], part, i - 1)) {
        StandsLater(s, part, i);
      }
      if Within(s[1..], part) {
        var i :| StandsAt(s[1..], part, i);
        StandsLater(s[1..], part, i);
        assert StandsAt(s, part, i + 1);
      }
    }
  }

  lemma StandsInFront(s: string, part: string)
    ensures StandsAt(s, part, 0) <==> StartsWith(s, part)
  {
  }

  lemma StandsLater(s: string, part: string, i: int)
    requires part != ""
    ensures s == "" || i < 0 ==> !StandsAt(s, part, i)
    ensures s != "" && i != 0 ==> (StandsAt(s, part, i) <==> StandsAt(s[1..], part, i - 1))
  {
    if s != "" && 0 < i && i + |part| <= |s| { assert s[i..i + |part|] == s[1..][i - 1..i - 1 + |part|]; }
  }

  lemma UnexpandedExactly(name: string)
    ensures Unresolved(name) <==> Unexpanded(name)
  {
    ContainsExactly(name, "${{");
    ContainsExactly(name, " && ");
    ContainsExactly(name, " || ");
    assert |"github.event."| == 13;
    hide Contains, Within;
  }

  lemma SummaryStarts(s: string, start: string)
    ensures StartsWith(s, start) <==> exists rest :: s == start + rest
  {
    if StartsWith(s, start) { assert s == start + s[|start|..]; }
    if exists rest :: s == start + rest {
      var rest :| s == start + rest;
      assert s[..|start|] == start;
    }
  }

  lemma ReviewExactly(w: World, rows: seq<Check>, c: Check)
    ensures ReviewClosed(w, rows, c) <==> ClosedReview(w, rows, c)
  {
    SummaryStarts(c.summary, "Result: Cancelled - Pull request is closed\n");
    forall d ensures HistoryKey(w, d) == HistoryKey(w, c) <==> OneHistory(w, d, c) { SameHistory(w, d, c); }
    hide StartsWith, HistoryKey, OneHistory;
  }

  lemma ExcuseExactly(w: World, rows: seq<Check>, c: Check)
    ensures Excusable(w, rows, c) <==> MayStand(w, rows, c)
  {
    ReviewExactly(w, rows, c);
    UnexpandedExactly(c.name);
    forall u ensures SupersededUnexecuted(w, c) == Some(u) <==> UnexecutedBelow(w, c, u) { UnexecutedExactly(w, c, u); }
    hide ReviewClosed, ClosedReview, Unresolved, Unexpanded, SupersededUnexecuted, UnexecutedBelow;
  }

  lemma LastExactly(w: World, rows: seq<Check>, c: Check)
    ensures IsLatest(w, rows, c) <==> LastOfHistory(w, rows, c)
  {
    forall d ensures HistoryKey(w, d) == HistoryKey(w, c) <==> OneHistory(w, d, c) { SameHistory(w, d, c); }
    hide HistoryKey, OneHistory;
  }

  /** The program's test of a census is the statement row by row. */
  lemma AdmittedExactly(w: World, rows: seq<Check>)
    ensures Admissible(w, rows) <==> Admits(w, rows)
  {
    hide IsLatest, LastOfHistory, Excusable, MayStand, Retired, Answered, OneHistory, HistoryKey;
    forall c ensures IsLatest(w, rows, c) <==> LastOfHistory(w, rows, c) { LastExactly(w, rows, c); }
    forall c ensures Excusable(w, rows, c) <==> MayStand(w, rows, c) { ExcuseExactly(w, rows, c); }
    forall d, c ensures Retired(w, d, c) <==> Answered(w, d, c) { AnsweredExactly(w, d, c); }
    forall d, c ensures HistoryKey(w, d) == HistoryKey(w, c) <==> OneHistory(w, d, c) { SameHistory(w, d, c); }
    forall c ensures Good(c) <==> Passes(c) { }
    forall c ensures LastOfHistory(w, rows, c) ==> c in rows { InRows(w, rows, c); }
    hide Good, Passes;
    if Admits(w, rows) {
      forall c, d | c in rows && d in rows && Owes(w, rows, d, c) ensures Retired(w, d, c) {
        assert LastOfHistory(w, rows, c);
      }
    }
    if Admissible(w, rows) {
      forall c | LastOfHistory(w, rows, c)
        ensures if Passes(c) then forall d :: d in rows && OneHistory(w, d, c) && d.id < c.id && !Passes(d)
                                              ==> Answered(w, d, c)
                else MayStand(w, rows, c)
      {
        assert IsLatest(w, rows, c);
        forall d | d in rows && OneHistory(w, d, c) && d.id < c.id && !Passes(d) && Passes(c)
          ensures Answered(w, d, c) {
          assert Owes(w, rows, d, c);
        }
      }
    }
  }

  /** The rows that owe a proof, and to whom. */
  lemma OwesExactly(w: World, rows: seq<Check>, d: Check, c: Check)
    ensures Owes(w, rows, d, c) <==> && LastOfHistory(w, rows, c) && Passes(c)
                                     && d in rows && OneHistory(w, d, c) && d.id < c.id && !Passes(d)
  {
    LastExactly(w, rows, c);
    SameHistory(w, d, c);
    hide IsLatest, LastOfHistory, HistoryKey, OneHistory;
  }

  lemma InRows(w: World, rows: seq<Check>, c: Check)
    ensures LastOfHistory(w, rows, c) ==> c in rows
  {
  }

  lemma AnsweredExactly(w: World, d: Check, c: Check)
    ensures Retired(w, d, c) <==> Answered(w, d, c)
  {
    RetiredExactly(w, d, c);
    hide Retired, RetriedBy, SkippedInstead;
  }

  /** The rows looked at: those of the census but the operator's own suite and the ignored ones. */
  lemma EligibleExactly(w: World, operator: Option<int>, before: seq<Check>, c: Check)
    ensures c in Eligible(w, operator, before) <==>
      && c in before && !(c.app == "github-actions" && operator == Some(c.suite))
      && !(c.app == "github-actions"
           && exists run :: SoleRun(w, c.suite, run) && run.event == "pull_request" && run.owner != ""
                            && run.owner != w.repository)
  {
    forall f ensures ForeignPull(w, c) == Some(f) <==>
      && c.app == "github-actions"
      && exists run :: SoleRun(w, c.suite, run) && f == Foreign(c.id, run.id, run.owner)
                       && run.event == "pull_request" && run.owner != "" && run.owner != w.repository {
      ForeignExactly(w, c, f);
    }
    hide ForeignPull, SoleRun;
    if exists run :: SoleRun(w, c.suite, run) && run.event == "pull_request" && run.owner != ""
                     && run.owner != w.repository {
      var run :| SoleRun(w, c.suite, run) && run.event == "pull_request" && run.owner != ""
                 && run.owner != w.repository;
      assert c.app == "github-actions" ==> ForeignPull(w, c) == Some(Foreign(c.id, run.id, run.owner));
    }
    if ForeignPull(w, c).Some? {
      assert ForeignPull(w, c) == Some(ForeignPull(w, c).value);
    }
  }

  // ----- the proofs collected -----

  function ConditionalIds(proofs: seq<Conditional>): seq<int> {
    seq(|proofs|, i requires 0 <= i < |proofs| => proofs[i].proof.check)
  }

  function RetryIds(proofs: seq<Retry>): seq<int> {
    seq(|proofs|, i requires 0 <= i < |proofs| => proofs[i].check)
  }

  /** The ids retired, with how often each is. */
  function Settled(p: Proofs): multiset<int> {
    multiset(ConditionalIds(p.conditionals)) + multiset(RetryIds(p.retries))
  }

  /** Every proof in the lists is the one computed for a row that owes it. */
  ghost predicate Genuine(w: World, rows: seq<Check>, p: Proofs) {
    && (forall x :: x in p.conditionals
                    ==> exists d, c :: Owes(w, rows, d, c) && SupersededConditional(w, d, c) == Some(x))
    && forall x :: x in p.retries ==> exists d, c :: Owes(w, rows, d, c) && SupersededRetry(w, d, c) == Some(x)
  }

  /** A blocking row and the good latest row of its history, said without the program's keys. */
  ghost predicate AnsweredBy(w: World, rows: seq<Check>, d: Check, c: Check) {
    d in rows && c in rows && d.id < c.id && !Passes(d) && Passes(c) && OneHistory(w, d, c)
  }

  /** Every proof is of such a pair: a job that never ran, skipped again, or a retry that goes up. */
  ghost predicate Proven(w: World, rows: seq<Check>, p: Proofs) {
    && (forall x :: x in p.conditionals ==> exists d, c :: AnsweredBy(w, rows, d, c) && SkippedInstead(w, d, c, x))
    && forall x :: x in p.retries ==> exists d, c :: AnsweredBy(w, rows, d, c) && GoesUp(w, d, c, x)
  }

  lemma GenuineProven(w: World, rows: seq<Check>, p: Proofs)
    requires Genuine(w, rows, p) && DistinctRuns(w)
    ensures Proven(w, rows, p)
  {
    assert forall c :: Good(c) <==> Passes(c);
    hide SupersededRetry, SupersededConditional, SkippedInstead, GoesUp, OneHistory, HistoryKey, DistinctRuns;
    hide Good, Passes;
    forall x | x in p.conditionals ensures exists d, c :: AnsweredBy(w, rows, d, c) && SkippedInstead(w, d, c, x) {
      var d, c :| Owes(w, rows, d, c) && SupersededConditional(w, d, c) == Some(x);
      SameHistory(w, d, c);
      ConditionalExactly(w, d, c, x);
      assert AnsweredBy(w, rows, d, c);
    }
    forall x | x in p.retries ensures exists d, c :: AnsweredBy(w, rows, d, c) && GoesUp(w, d, c, x) {
      var d, c :| Owes(w, rows, d, c) && SupersededRetry(w, d, c) == Some(x);
      SameHistory(w, d, c);
      RetryGoesUp(w, d, c);
      assert AnsweredBy(w, rows, d, c);
    }
  }

  lemma AddConditional(w: World, rows: seq<Check>, d: Check, c: Check, p: Proofs, q: Proofs)
    requires Genuine(w, rows, p) && Owes(w, rows, d, c) && SupersededConditional(w, d, c).Some?
    requires q == p.(conditionals := p.conditionals + [SupersededConditional(w, d, c).value])
    ensures Genuine(w, rows, q) && Settled(q) == Settled(p) + multiset{d.id}
  {
    hide SupersededConditional, SupersededRetry, Owes;
    assert ConditionalIds(q.conditionals) == ConditionalIds(p.conditionals) + [d.id];
  }

  lemma AddRetry(w: World, rows: seq<Check>, d: Check, c: Check, p: Proofs, q: Proofs)
    requires Genuine(w, rows, p) && Owes(w, rows, d, c) && SupersededRetry(w, d, c).Some?
    requires q == p.(retries := p.retries + [SupersededRetry(w, d, c).value])
    ensures Genuine(w, rows, q) && Settled(q) == Settled(p) + multiset{d.id}
  {
    hide SupersededConditional, SupersededRetry, Owes;
    assert RetryIds(q.retries) == RetryIds(p.retries) + [d.id];
  }

  // ----- the loops -----

  /** The dictionary holds, for exactly the keys of these rows, the row of highest id. */
  predicate Tracks(w: World, rows: seq<Check>, latest: map<Key, Check>) {
    && (forall k :: k in latest ==> IsLatest(w, rows, latest[k]) && HistoryKey(w, latest[k]) == k)
    && forall c :: c in rows ==> HistoryKey(w, c) in latest
  }

  lemma TracksStep(w: World, rows: seq<Check>, latest: map<Key, Check>, check: Check)
    requires Tracks(w, rows, latest)
    ensures var key := HistoryKey(w, check);
      Tracks(w, rows + [check], if key !in latest || latest[key].id < check.id then latest[key := check] else latest)
  {
    hide HistoryKey;
    var key := HistoryKey(w, check);
    var grown := rows + [check];
    assert forall d :: d in grown <==> d in rows || d == check;
    forall k | k in latest && k != key ensures IsLatest(w, grown, latest[k]) {
      assert IsLatest(w, rows, latest[k]);
    }
    if key !in latest || latest[key].id < check.id {
      forall d | d in rows && HistoryKey(w, d) == key ensures d.id <= check.id {
        assert IsLatest(w, rows, latest[key]);
      }
      assert IsLatest(w, grown, check);
    } else {
      assert IsLatest(w, rows, latest[key]);
      assert IsLatest(w, grown, latest[key]);
    }
  }

  /** The first loop: eligible rows, ignored rows, and the latest row of every key. */
  method Split(w: World, operator: Option<int>, before: seq<Check>)
      returns (eligible: seq<Check>, foreign: seq<Foreign>, latest: map<Key, Check>)
    ensures eligible == Eligible(w, operator, before) && foreign == Ignored(w, operator, before)
    ensures Tracks(w, eligible, latest)
  {
    eligible, foreign, latest := [], [], map[];
    assert before[..0] == [];
    for n := 0 to |before|
      invariant eligible == Eligible(w, operator, before[..n]) && foreign == Ignored(w, operator, before[..n])
      invariant Tracks(w, eligible, latest)
    {
      hide ForeignPull, HistoryKey, OperatorRow, Tracks, IsLatest;
      var check := before[n];
      assert before[..n + 1][..n] == before[..n];
      if OperatorRow(operator, check) {
        continue;
      }
      var ignored := ForeignPull(w, check);
      if ignored.Some? {
        foreign := foreign + [ignored.value];
        continue;
      }
      TracksStep(w, eligible, latest, check);
      eligible := eligible + [check];
      var key := HistoryKey(w, check);
      if key !in latest || latest[key].id < check.id {
        latest := latest[key := check];
      }
    }
    assert before[..|before|] == before;
  }

  /** The ids of the first n rows that owe a proof to c. */
  ghost function DueTo(w: World, rows: seq<Check>, n: nat, c: Check): set<int>
    requires n <= |rows|
  {
    set k | 0 <= k < n && Owes(w, rows, rows[k], c) :: rows[k].id
  }

  lemma DueToGrows(w: World, rows: seq<Check>, n: nat, c: Check, m: nat)
    requires DistinctRows(rows) && m == n + 1 <= |rows|
    ensures multiset(DueTo(w, rows, m, c))
            == multiset(DueTo(w, rows, n, c)) + if Owes(w, rows, rows[n], c) then multiset{rows[n].id} else multiset{}
  {
    hide Owes;
    var before, after := DueTo(w, rows, n, c), DueTo(w, rows, m, c);
    assert rows[n].id !in before;
    assert after == before + if Owes(w, rows, rows[n], c) then {rows[n].id} else {} by {
      forall id | id in after ensures id in before || (id == rows[n].id && Owes(w, rows, rows[n], c)) {
        var k :| 0 <= k < m && Owes(w, rows, rows[k], c) && rows[k].id == id;
        assert k == n || rows[k].id in before;
      }
    }
  }

  lemma OwesMeans(w: World, rows: seq<Check>, d: Check, c: Check)
    requires IsLatest(w, rows, c) && Good(c) && d in rows
    ensures Owes(w, rows, d, c) <==> HistoryKey(w, d) == HistoryKey(w, c) && d.id < c.id && !Good(d)
  {
  }

  predicate RetiredUpTo(w: World, rows: seq<Check>, n: nat, c: Check)
    requires n <= |rows|
  {
    forall k :: 0 <= k < n && Owes(w, rows, rows[k], c) ==> Retired(w, rows[k], c)
  }

  /** After the first n rows: what they owed to c has been proved and added to the proofs given. */
  ghost predicate Progress(w: World, rows: seq<Check>, n: nat, c: Check, given: Proofs, proofs: Proofs)
    requires n <= |rows|
  {
    && Genuine(w, rows, proofs) && RetiredUpTo(w, rows, n, c)
    && Settled(proofs) == Settled(given) + multiset(DueTo(w, rows, n, c))
  }

  lemma ProgressStep(w: World, rows: seq<Check>, n: nat, c: Check, given: Proofs, before: Proofs, after: Proofs, m: nat)
    requires DistinctRows(rows) && m == n + 1 <= |rows| && Progress(w, rows, n, c, given, before)
    requires if Owes(w, rows, rows[n], c)
             then Retired(w, rows[n], c) && Genuine(w, rows, after)
                 && Settled(after) == Settled(before) + multiset{rows[n].id}
             else after == before
    ensures Progress(w, rows, m, c, given, after)
  {
    hide Genuine, Settled, Owes, Retired, DistinctRows, DueTo;
    DueToGrows(w, rows, n, c, m);
  }

  /** One turn of the inner loop. */
  method RetireRow(w: World, rows: seq<Check>, row: Check, c: Check, given: Proofs) returns (ok: bool, proofs: Proofs)
    requires row in rows && IsLatest(w, rows, c) && Good(c) && Genuine(w, rows, given)
    ensures ok <==> (Owes(w, rows, row, c) ==> Retired(w, row, c))
    ensures ok && !Owes(w, rows, row, c) ==> proofs == given
    ensures ok && Owes(w, rows, row, c)
        ==> Genuine(w, rows, proofs) && Settled(proofs) == Settled(given) + multiset{row.id}
  {
    proofs := given;
    OwesMeans(w, rows, row, c);
    hide HistoryKey, SupersededConditional, SupersededRetry, Settled, IsLatest, Genuine, Owes;
    if HistoryKey(w, row) != HistoryKey(w, c) || row.id >= c.id || Good(row) {
      return true, proofs;
    }
    if c.conclusion != "success" {
      var exception := SupersededConditional(w, row, c);
      if exception == None {
        return false, proofs;
      }
      proofs := proofs.(conditionals := proofs.conditionals + [exception.value]);
      AddConditional(w, rows, row, c, given, proofs);
    } else {
      var retry := SupersededRetry(w, row, c);
      if retry == None {
        return false, proofs;
      }
      proofs := proofs.(retries := proofs.retries + [retry.value]);
      AddRetry(w, rows, row, c, given, proofs);
    }
    ok := true;
  }

  /** The inner loop: the older rows under the key of a good latest row. */
  method Retire(w: World, rows: seq<Check>, c: Check, given: Proofs) returns (ok: bool, proofs: Proofs)
    requires DistinctRows(rows) && IsLatest(w, rows, c) && Good(c) && Genuine(w, rows, given)
    ensures ok <==> RetiredUpTo(w, rows, |rows|, c)
    ensures ok ==> Genuine(w, rows, proofs) && Settled(proofs) == Settled(given) + multiset(DueTo(w, rows, |rows|, c))
  {
    proofs := given;
    assert DueTo(w, rows, 0, c) == {};
    hide HistoryKey, Retired, Settled, IsLatest, Genuine, DistinctRows, Owes, DueTo, Good;
    for n := 0 to |rows|
      invariant Progress(w, rows, n, c, given, proofs)
    {
      ghost var before := proofs;
      ok, proofs := RetireRow(w, rows, rows[n], c, proofs);
      if !ok {
        return;
      }
      ProgressStep(w, rows, n, c, given, before, proofs, n + 1);
    }
    ok := true;
  }

  /** One key's due rows are those of its latest row, and no other key shares an id with them. */
  lemma DueGrows(w: World, rows: seq<Check>, keys: set<Key>, key: Key, c: Check)
    requires DistinctRows(rows) && key !in keys && IsLatest(w, rows, c) && HistoryKey(w, c) == key
    ensures multiset(Due(w, rows, keys + {key})) == multiset(Due(w, rows, keys)) + multiset(DueTo(w, rows, |rows|, c))
  {
    hide HistoryKey, Good;
    var before, mine, after := Due(w, rows, keys), DueTo(w, rows, |rows|, c), Due(w, rows, keys + {key});
    forall id | id in mine ensures id !in before && id in after {
      var k :| 0 <= k < |rows| && Owes(w, rows, rows[k], c) && rows[k].id == id;
      assert rows[k] in rows && c in rows;
      forall d | d in rows && d.id == id ensures d == rows[k] {
        var j :| 0 <= j < |rows| && rows[j] == d;
      }
    }
    forall id | id in after ensures id in before || id in mine {
      var e, d :| e in rows && d in rows && Owes(w, rows, d, e) && HistoryKey(w, d) in keys + {key} && d.id == id;
      if HistoryKey(w, d) == key {
        SameLatest(w, rows, c, e);
        var j :| 0 <= j < |rows| && rows[j] == d;
        assert Owes(w, rows, rows[j], c);
      }
    }
    assert after == before + mine;
  }

  lemma SameLatest(w: World, rows: seq<Check>, c: Check, e: Check)
    requires DistinctRows(rows) && IsLatest(w, rows, c) && IsLatest(w, rows, e) && HistoryKey(w, c) == HistoryKey(w, e)
    ensures c == e
  {
    hide HistoryKey;
    var i :| 0 <= i < |rows| && rows[i] == c;
    var j :| 0 <= j < |rows| && rows[j] == e;
    assert c.id == e.id;
  }

  /** One turn of the second loop, for the latest row of a key: its older rows when it is good, else its excuse. */
  predicate Cleared(w: World, rows: seq<Check>, c: Check) {
    if Good(c) then RetiredUpTo(w, rows, |rows|, c) else Excusable(w, rows, c)
  }

  /** The proofs so far are those due under the keys examined. */
  ghost predicate Account(w: World, rows: seq<Check>, keys: set<Key>, proofs: Proofs) {
    Genuine(w, rows, proofs) && Settled(proofs) == multiset(Due(w, rows, keys))
  }

  /** A key whose latest row is not good has nothing due: its older rows are not looked at. */
  lemma NothingDue(w: World, rows: seq<Check>, keys: set<Key>, key: Key, c: Check, proofs: Proofs)
    requires DistinctRows(rows) && key !in keys && IsLatest(w, rows, c) && HistoryKey(w, c) == key && !Good(c)
    requires Account(w, rows, keys, proofs)
    ensures Account(w, rows, keys + {key}, proofs)
  {
    assert DueTo(w, rows, |rows|, c) == {};
    DueGrows(w, rows, keys, key, c);
  }

  lemma KeyRetired(w: World, rows: seq<Check>, keys: set<Key>, key: Key, c: Check, given: Proofs, proofs: Proofs)
    requires DistinctRows(rows) && key !in keys && IsLatest(w, rows, c) && HistoryKey(w, c) == key
    requires Account(w, rows, keys, given)
    requires Genuine(w, rows, proofs) && Settled(proofs) == Settled(given) + multiset(DueTo(w, rows, |rows|, c))
    ensures Account(w, rows, keys + {key}, proofs)
  {
    hide Genuine, Settled, Due, DueTo;
    DueGrows(w, rows, keys, key, c);
  }

  lemma NoneDue(w: World, rows: seq<Check>)
    ensures Account(w, rows, {}, Proofs([], []))
  {
    assert Due(w, rows, {}) == {};
  }

  /** What the report says of a blocking latest row that is let through. */
  function ExcuseOf(w: World, rows: seq<Check>, c: Check): Excuse
    requires Excusable(w, rows, c)
  {
    if ReviewClosed(w, rows, c) then ReviewCancelled(c.id) else Placeholder(SupersededUnexecuted(w, c).value)
  }

  function Excuses(w: World, rows: seq<Check>, c: Check): seq<Excuse> {
    if !Good(c) && Excusable(w, rows, c) then [ExcuseOf(w, rows, c)] else []
  }

  /** The excuses so far are those of the blocking latest rows among the keys examined. */
  ghost predicate Excused(w: World, rows: seq<Check>, latest: map<Key, Check>, keys: set<Key>, excused: seq<Excuse>)
    requires keys <= latest.Keys
  {
    forall e :: e in excused <==> exists k :: k in keys && e in Excuses(w, rows, latest[k])
  }

  lemma ExcusedGrows(w: World, rows: seq<Check>, latest: map<Key, Check>, keys: set<Key>, excused: seq<Excuse>,
                     key: Key)
    requires keys <= latest.Keys && key in latest && Excused(w, rows, latest, keys, excused)
    ensures Excused(w, rows, latest, keys + {key}, excused + Excuses(w, rows, latest[key]))
  {
    hide Excuses;
    var grown, more := keys + {key}, excused + Excuses(w, rows, latest[key]);
    forall e ensures e in more <==> exists k :: k in grown && e in Excuses(w, rows, latest[k]) {
      assert e in more <==> e in excused || e in Excuses(w, rows, latest[key]);
      assert key in grown;
    }
  }

  /** Where the second loop stands after some of the keys. */
  ghost predicate Reviewed(w: World, rows: seq<Check>, latest: map<Key, Check>, keys: set<Key>, excused: seq<Excuse>,
                           proofs: Proofs)
  {
    && keys <= latest.Keys && Account(w, rows, keys, proofs) && Excused(w, rows, latest, keys, excused)
    && forall k :: k in keys ==> Cleared(w, rows, latest[k])
  }

  lemma ReviewedStep(w: World, rows: seq<Check>, latest: map<Key, Check>, keys: set<Key>, excused: seq<Excuse>,
                     before: Proofs, key: Key, after: Proofs)
    requires Reviewed(w, rows, latest, keys, excused, before) && key in latest && Cleared(w, rows, latest[key])
    requires Account(w, rows, keys + {key}, after)
    ensures Reviewed(w, rows, latest, keys + {key}, excused + Excuses(w, rows, latest[key]), after)
  {
    hide Account, Cleared, Excuses;
    ExcusedGrows(w, rows, latest, keys, excused, key);
  }

  lemma NoneReviewed(w: World, rows: seq<Check>, latest: map<Key, Check>)
    ensures Reviewed(w, rows, latest, {}, [], Proofs([], []))
  {
    NoneDue(w, rows);
    hide Excuses, Account, Cleared;
  }

  /** The second loop. The keys are taken in any order; the program takes them in order of first appearance. */
  method Examine(w: World, rows: seq<Check>, latest: map<Key, Check>)
      returns (ok: bool, excused: seq<Excuse>, proofs: Proofs)
    requires DistinctRows(rows) && Tracks(w, rows, latest)
    ensures ok ==> Reviewed(w, rows, latest, latest.Keys, excused, proofs)
    ensures !ok ==> exists k :: k in latest && !Cleared(w, rows, latest[k])
  {
    excused, proofs := [], Proofs([], []);
    var todo := latest.Keys;
    ghost var examined: set<Key> := {};
    NoneReviewed(w, rows, latest);
    hide Cleared, HistoryKey, DistinctRows, IsLatest, Excused, Excuses, Account;
    while todo != {}
      invariant examined + todo == latest.Keys && examined !! todo
      invariant Reviewed(w, rows, latest, examined, excused, proofs)
      decreases |todo|
    {
      var key :| key in todo;
      var check := latest[key];
      ghost var before := proofs;
      var cleared, excuse;
      assert Account(w, rows, examined, proofs);
      hide Reviewed;
      cleared, excuse, proofs := ExamineKey(w, rows, examined, key, check, proofs);
      if !cleared {
        return false, excused, proofs;
      }
      ReviewedStep(w, rows, latest, examined, excused, before, key, proofs);
      todo, examined, excused := todo - {key}, examined + {key}, excused + excuse;
    }
    assert examined == latest.Keys;
    ok := true;
  }

  /** One turn of the second loop. */
  method ExamineKey(w: World, rows: seq<Check>, ghost keys: set<Key>, key: Key, check: Check, given: Proofs)
      returns (cleared: bool, excuse: seq<Excuse>, proofs: Proofs)
    requires DistinctRows(rows) && key !in keys && IsLatest(w, rows, check) && HistoryKey(w, check) == key
    requires Account(w, rows, keys, given)
    ensures cleared <==> Cleared(w, rows, check)
    ensures cleared ==> Account(w, rows, keys + {key}, proofs) && excuse == Excuses(w, rows, check)
  {
    excuse, proofs := [], given;
    if check.status == "completed" && NonBlocking(check.conclusion) {
      cleared, proofs := Retire(w, rows, check, given);
      if cleared {
        KeyRetired(w, rows, keys, key, check, given, proofs);
      }
      return;
    }
    NothingDue(w, rows, keys, key, check, given);
    hide Account, HistoryKey, IsLatest, ReviewClosed, Unresolved, SupersededUnexecuted, RetiredUpTo;
    if ReviewClosed(w, rows, check) {
      return true, [ReviewCancelled(check.id)], proofs;
    }
    var exception := if Unresolved(check.name) then SupersededUnexecuted(w, check) else None;
    if exception == None {
      return false, excuse, proofs;
    }
    return true, [Placeholder(exception.value)], proofs;
  }

  // ----- the whole census -----

  /** The ids of every row that owes a proof. */
  ghost function AllDue(w: World, rows: seq<Check>): set<int> {
    set c, d | c in rows && d in rows && Owes(w, rows, d, c) :: d.id
  }

  lemma ClearedMeansAdmissible(w: World, rows: seq<Check>, latest: map<Key, Check>)
    requires DistinctRows(rows) && Tracks(w, rows, latest)
    ensures (forall k :: k in latest ==> Cleared(w, rows, latest[k])) <==> Admissible(w, rows)
    ensures Due(w, rows, latest.Keys) == AllDue(w, rows)
  {
    hide HistoryKey, Good, Retired, Excusable;
    forall c | IsLatest(w, rows, c) ensures HistoryKey(w, c) in latest && latest[HistoryKey(w, c)] == c {
      SameLatest(w, rows, latest[HistoryKey(w, c)], c);
    }
    if Admissible(w, rows) {
      forall k | k in latest ensures Cleared(w, rows, latest[k]) {
        assert IsLatest(w, rows, latest[k]);
      }
    }
    if forall k :: k in latest ==> Cleared(w, rows, latest[k]) {
      forall c, d | c in rows && d in rows && Owes(w, rows, d, c) ensures Retired(w, d, c) {
        assert Cleared(w, rows, latest[HistoryKey(w, c)]);
        var k :| 0 <= k < |rows| && rows[k] == d;
        assert Owes(w, rows, rows[k], c);
      }
    }
  }

  lemma ExcusedMeans(w: World, rows: seq<Check>, latest: map<Key, Check>, excused: seq<Excuse>)
    requires DistinctRows(rows) && Tracks(w, rows, latest) && Excused(w, rows, latest, latest.Keys, excused)
    ensures forall e :: e in excused <==> exists c :: IsLatest(w, rows, c) && e in Excuses(w, rows, c)
  {
    hide Excuses, HistoryKey;
    forall e ensures e in excused <==> exists c :: IsLatest(w, rows, c) && e in Excuses(w, rows, c) {
      if e in excused {
        var k :| k in latest.Keys && e in Excuses(w, rows, latest[k]);
        assert IsLatest(w, rows, latest[k]);
      }
      if exists c :: IsLatest(w, rows, c) && e in Excuses(w, rows, c) {
        var c :| IsLatest(w, rows, c) && e in Excuses(w, rows, c);
        SameLatest(w, rows, latest[HistoryKey(w, c)], c);
      }
    }
  }

  /** The census is admitted exactly when every good latest row accounts for its whole history and every other latest
      row is excused. Then each older row that owed a proof has exactly one, and no other row has any. */
  method Verify(w: World, operator: Option<int>, before: seq<Check>) returns (r: Option<Report>)
    requires DistinctRows(before) && DistinctRuns(w)
    ensures r.Some? <==> Admissible(w, Eligible(w, operator, before))
    ensures r.Some? <==> Admits(w, Eligible(w, operator, before))
    ensures r.Some?
        ==> r.value.eligible == Eligible(w, operator, before) && r.value.foreign == Ignored(w, operator, before)
    ensures r.Some? ==> Genuine(w, r.value.eligible, r.value.proofs) && Proven(w, r.value.eligible, r.value.proofs)
                        && Settled(r.value.proofs) == multiset(AllDue(w, r.value.eligible))
    ensures r.Some? ==> forall e :: e in r.value.excused
                          <==> exists c :: IsLatest(w, r.value.eligible, c) && e in Excuses(w, r.value.eligible, c)
  {
    var eligible, foreign, latest := Split(w, operator, before);
    CensusSplits(w, operator, before);
    var ok, excused, proofs := Examine(w, eligible, latest);
    ClearedMeansAdmissible(w, eligible, latest);
    AdmittedExactly(w, eligible);
    if ok {
      ExcusedMeans(w, eligible, latest, excused);
      GenuineProven(w, eligible, proofs);
    }
    hide Admits, Excuses, IsLatest, Genuine, Proven, DistinctRuns, Settled, Due, AllDue, Tracks, Cleared, Admissible;
    hide Eligible, Ignored, DistinctRows;
    return if ok then Some(Report(eligible, foreign, excused, proofs)) else None;
  }

  /** Which rows are looked back at: the blocking rows under a key whose latest row is good, and no others. Under a
      latest row that is itself excused, older blocking rows need no proof and get none. */
  lemma DueExactly(w: World, rows: seq<Check>, d: Check, c: Check)
    requires DistinctRows(rows) && IsLatest(w, rows, c) && d in rows && HistoryKey(w, d) == HistoryKey(w, c)
    ensures d.id in AllDue(w, rows) <==> !Good(d) && Good(c)
  {
    hide HistoryKey, Good;
    var i :| 0 <= i < |rows| && rows[i] == d;
    if d.id in AllDue(w, rows) {
      var e, f :| e in rows && f in rows && Owes(w, rows, f, e) && f.id == d.id;
      var j :| 0 <= j < |rows| && rows[j] == f;
      assert f == d;
      SameLatest(w, rows, c, e);
    }
    if !Good(d) && Good(c) {
      var j :| 0 <= j < |rows| && rows[j] == c;
      assert d.id < c.id;
      assert Owes(w, rows, d, c);
    }
  }
}
