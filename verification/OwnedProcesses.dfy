/** The ownership counters of class `Owned` in scripts/opencode-platform-clock-prequalification.py, over every
    run of starts, closes, failed closes and cleanups. What the operating system does is a parameter. */
module OwnedProcesses {
  import opened Options

  const MAX_LIVE: nat := 4

  /** The `state` dictionary of one child: `serial` tells apart children that got the same pid. */
  datatype Child = Child(serial: nat, pid: int, helper: bool)

  /** How far a close got: the kill refused, the wait timed out, a drain thread did not end, the deadline
      passed after both ended, or everything was closed. */
  datatype Outcome = KillRefused | WaitTimedOut | DrainAlive | TooLate | Closed

  datatype Books = Books(live: map<int, Child>, starts: nat, closes: nat, helpers: nat, helperCloses: nat,
                         highwater: nat)

  const NOTHING := Books(map[], 0, 0, 0, 0, 0)

  function LiveHelpers(live: map<int, Child>): set<int> { set p | p in live && live[p].helper }

  predicate MayStart(b: Books, helper: bool) {
    |b.live| < MAX_LIVE && (helper ==> LiveHelpers(b.live) == {})
  }

  function Max(a: nat, b: nat): nat { if a < b then b else a }

  /** `start`, once `Popen` returned a child with this pid. */
  function Started(b: Books, pid: int, helper: bool): Books {
    if !MayStart(b, helper) then b
    else
      var live := b.live[pid := Child(b.starts, pid, helper)];
      b.(live := live, starts := b.starts + 1, highwater := Max(b.highwater, |live|),
         helpers := if helper then b.helpers + 1 else b.helpers)
  }

  /** `close`: only a complete close removes the entry; a missing entry raises before anything is counted. */
  function AfterClose(b: Books, c: Child, outcome: Outcome): Books {
    if outcome != Closed || c.pid !in b.live then b
    else b.(live := b.live - {c.pid}, closes := b.closes + 1,
            helperCloses := if c.helper then b.helperCloses + 1 else b.helperCloses)
  }

  // ----- runs -----

  datatype Step = StartStep(pid: int, helper: bool) | CloseStep(child: Child, outcome: Outcome)

  /** What really happened to the children, by serial number: whose exit was waited for, and whose two
      drain threads were seen to have ended. `overwrites` counts starts that landed on a live pid. */
  datatype World = World(books: Books, waited: set<nat>, drained: set<nat>, overwrites: nat, peak: nat)

  const START := World(NOTHING, {}, {}, 0, 0)

  predicate WasWaited(o: Outcome) { o.DrainAlive? || o.TooLate? || o.Closed? }

  predicate WasDrained(o: Outcome) { o.TooLate? || o.Closed? }

  predicate Overwrites(w: World, step: Step) {
    step.StartStep? && MayStart(w.books, step.helper) && step.pid in w.books.live
  }

  function Apply(w: World, step: Step): World {
    match step
    case StartStep(pid, helper) =>
      var books := Started(w.books, pid, helper);
      w.(books := books, overwrites := w.overwrites + One(Overwrites(w, step)), peak := Max(w.peak, |books.live|))
    case CloseStep(c, o) =>
      var books := AfterClose(w.books, c, o);
      w.(books := books, waited := if WasWaited(o) then w.waited + {c.serial} else w.waited,
         drained := if WasDrained(o) then w.drained + {c.serial} else w.drained, peak := Max(w.peak, |books.live|))
  }

  function After(run: seq<Step>, i: nat): World
    requires i <= |run|
  {
    if i == 0 then START else Apply(After(run, i - 1), run[i - 1])
  }

  /** A handle is what an earlier `start` of the same run returned. */
  ghost predicate ReturnedBefore(run: seq<Step>, i: nat, c: Child)
    requires i <= |run|
  {
    exists j :: 0 <= j < i && ReturnedAt(run, j, c)
  }

  ghost predicate ReturnedAt(run: seq<Step>, j: nat, c: Child)
    requires j < |run|
  {
    && run[j].StartStep? && MayStart(After(run, j).books, run[j].helper)
    && c == Child(After(run, j).books.starts, run[j].pid, run[j].helper)
  }

  ghost predicate UsesOwnHandles(run: seq<Step>) {
    forall i :: 0 <= i < |run| && run[i].CloseStep? ==> ReturnedBefore(run, i, run[i].child)
  }

  // ----- bounds and the starts balance, every run -----

  function One(b: bool): nat { if b then 1 else 0 }

  lemma HelpersWithout(live: map<int, Child>, pid: int)
    ensures |LiveHelpers(live - {pid})| == |LiveHelpers(live)| - One(pid in live && live[pid].helper)
  {
    assert LiveHelpers(live - {pid}) == LiveHelpers(live) - {pid};
  }

  lemma HelpersWith(live: map<int, Child>, pid: int, c: Child)
    ensures |LiveHelpers(live[pid := c])| == |LiveHelpers(live)| - One(pid in live && live[pid].helper) + One(c.helper)
  {
    HelpersWithout(live, pid);
    assert LiveHelpers(live[pid := c]) == LiveHelpers(live - {pid}) + if c.helper then {pid} else {};
  }

  lemma RemovedSize(live: map<int, Child>, pid: int)
    requires pid in live
    ensures |live - {pid}| == |live| - 1
    ensures LiveHelpers(live - {pid}) == LiveHelpers(live) - {pid}
  {
    assert (live - {pid}).Keys == live.Keys - {pid};
  }

  ghost predicate Balanced(w: World) {
    && |w.books.live| <= 4 && |LiveHelpers(w.books.live)| <= 1
    && w.books.highwater == w.peak <= 4
    && |w.books.live| <= w.peak
    && w.books.starts == w.books.closes + |w.books.live| + w.overwrites
  }

  lemma ApplyBalanced(w: World, step: Step)
    requires Balanced(w)
    ensures Balanced(Apply(w, step))
  {
    match step
    case StartStep(pid, helper) =>
      if MayStart(w.books, helper) { HelpersWith(w.books.live, pid, Child(w.books.starts, pid, helper)); }
    case CloseStep(c, o) =>
      if c.pid in w.books.live {
        RemovedSize(w.books.live, c.pid);
        HelpersWithout(w.books.live, c.pid);
      }
  }

  /** On every run: at most four children and one helper are live, the high-water mark is the largest live
      count so far, and starts exceed closes plus live children by exactly the starts that landed on a pid
      still live. */
  lemma {:induction false} EveryRunBalanced(run: seq<Step>, i: nat)
    requires i <= |run|
    ensures Balanced(After(run, i))
  {
    if i > 0 {
      EveryRunBalanced(run, i - 1);
      ApplyBalanced(After(run, i - 1), run[i - 1]);
    }
  }

  lemma ApplyCounts(w: World, step: Step)
    ensures Apply(w, step).overwrites == w.overwrites + if Overwrites(w, step) then 1 else 0
  {
  }

  lemma OneMore(run: seq<Step>, i: nat)
    requires 0 < i <= |run|
    ensures NoOverwrite(run, i) <==> NoOverwrite(run, i - 1) && !Overwrites(After(run, i - 1), run[i - 1])
  {
    hide After, Overwrites;
  }

  lemma {:induction false} OverwritesCounted(run: seq<Step>, i: nat)
    requires i <= |run|
    ensures After(run, i).overwrites == 0 <==> NoOverwrite(run, i)
  {
    hide Apply, NoOverwrite;
    if i == 0 {
      NoneYet(run);
    } else {
      OverwritesCounted(run, i - 1);
      OneMore(run, i);
      ApplyCounts(After(run, i - 1), run[i - 1]);
    }
  }

  lemma NoneYet(run: seq<Step>)
    ensures NoOverwrite(run, 0)
  {
  }

  ghost predicate NoOverwrite(run: seq<Step>, i: nat)
    requires i <= |run|
  {
    forall j :: 0 <= j < i ==> !Overwrites(After(run, j), run[j])
  }

  /** The books balance exactly when no start landed on a pid that was still live. */
  lemma StartsBalance(run: seq<Step>)
    ensures var b := After(run, |run|).books;
      b.starts == b.closes + |b.live| <==> NoOverwrite(run, |run|)
  {
    EveryRunBalanced(run, |run|);
    OverwritesCounted(run, |run|);
  }

  /** A child whose exit was waited for but whose drain thread still ran stays live, and the system may give
      its pid to the next child: then two starts leave one entry. */
  lemma ReusedPidUnbalances(pid: int)
    ensures var c := Child(0, pid, false);
      var run := [StartStep(pid, false), CloseStep(c, DrainAlive), StartStep(pid, false)];
      UsesOwnHandles(run) && After(run, 3).books.starts == 2 && After(run, 3).books.closes == 0
          && |After(run, 3).books.live| == 1
  {
    var c := Child(0, pid, false);
    var run := [StartStep(pid, false), CloseStep(c, DrainAlive), StartStep(pid, false)];
    assert After(run, 1).books.live == map[pid := c];
    assert After(run, 2).books == After(run, 1).books;
    assert After(run, 3).books.live == map[pid := Child(1, pid, false)];
    assert ReturnedAt(run, 0, c);
  }

  // ----- the helpers balance -----

  /** Helper starts that are neither closed nor live. */
  function HelperGap(b: Books): int { b.helpers - b.helperCloses - |LiveHelpers(b.live)| }

  /** A start that overwrites a live helper, or a complete close whose handle and live entry disagree on being one. */
  predicate MovesHelpers(w: World, step: Step) {
    match step
    case StartStep(pid, helper) => Overwrites(w, step) && w.books.live[pid].helper
    case CloseStep(c, o) => o == Closed && c.pid in w.books.live && c.helper != w.books.live[c.pid].helper
  }

  lemma NoHelperAt(live: map<int, Child>, pid: int)
    requires LiveHelpers(live) == {}
    ensures pid in live ==> !live[pid].helper
  {
    assert pid in live && live[pid].helper ==> pid in LiveHelpers(live);
  }

  lemma HelperStep(w: World, step: Step)
    ensures HelperGap(Apply(w, step).books) == HelperGap(w.books) <==> !MovesHelpers(w, step)
  {
    match step
    case StartStep(pid, helper) =>
      if MayStart(w.books, helper) {
        if helper { NoHelperAt(w.books.live, pid); }
        HelpersWith(w.books.live, pid, Child(w.books.starts, pid, helper));
        hide LiveHelpers;
      }
    case CloseStep(c, o) =>
      HelpersWithout(w.books.live, c.pid);
      hide LiveHelpers;
  }

  ghost predicate HelpersBalanced(run: seq<Step>, n: nat)
    requires n <= |run|
  {
    forall i :: 0 <= i <= n ==> HelperGap(After(run, i).books) == 0
  }

  /** Helper starts are helper closes plus live helpers all along a run exactly when no step moves one: a start on
      the pid of a live helper, or a close through a handle of the other kind. */
  lemma {:induction false} HelpersBalance(run: seq<Step>, n: nat)
    requires n <= |run|
    ensures HelpersBalanced(run, n) <==> forall j :: 0 <= j < n ==> !MovesHelpers(After(run, j), run[j])
  {
    hide Apply, MovesHelpers, HelperGap;
    if n == 0 {
      NoHelpers();
    } else {
      HelpersBalance(run, n - 1);
      HelperStep(After(run, n - 1), run[n - 1]);
      assert HelpersBalanced(run, n) <==> HelpersBalanced(run, n - 1) && HelperGap(After(run, n).books) == 0;
    }
  }

  lemma NoHelpers()
    ensures HelperGap(START.books) == 0
  {
  }

  // ----- what leaving `live` proves -----

  /** Step `j` closes child `n` and gets as far as one of these outcomes. */
  ghost predicate ClosedAt(run: seq<Step>, j: nat, n: nat, far: set<Outcome>)
    requires j < |run|
  {
    run[j].CloseStep? && run[j].child.serial == n && run[j].outcome in far
  }

  /** A child was waited for when a close got past the wait, and drained when one got past both joins. */
  lemma {:induction false} ProvenExactly(run: seq<Step>, i: nat, n: nat)
    requires i <= |run|
    ensures n in After(run, i).waited
       <==> exists j :: 0 <= j < i && ClosedAt(run, j, n, {DrainAlive, TooLate, Closed})
    ensures n in After(run, i).drained <==> exists j :: 0 <= j < i && ClosedAt(run, j, n, {TooLate, Closed})
  {
    hide Apply, ClosedAt;
    if i > 0 {
      ProvenExactly(run, i - 1, n);
      ProvenStep(run, i - 1, After(run, i - 1), n);
    }
  }

  lemma ProvenStep(run: seq<Step>, j: nat, w: World, n: nat)
    requires j < |run|
    ensures n in Apply(w, run[j]).waited <==> n in w.waited || ClosedAt(run, j, n, {DrainAlive, TooLate, Closed})
    ensures n in Apply(w, run[j]).drained <==> n in w.drained || ClosedAt(run, j, n, {TooLate, Closed})
  {
    hide Started, AfterClose, Overwrites, Max;
  }

  ghost predicate IsLive(live: map<int, Child>, n: nat) { exists p :: p in live && live[p].serial == n }

  predicate Proven(w: World, n: nat) { n in w.waited && n in w.drained }

  /** Entries are filed under their own pid and no two are the same child. */
  ghost predicate KeyedByPid(w: World) {
    && (forall p :: p in w.books.live ==> w.books.live[p].pid == p && w.books.live[p].serial < w.books.starts)
    && (forall p, q :: p in w.books.live && q in w.books.live && p != q
                       ==> w.books.live[p].serial != w.books.live[q].serial)
  }

  lemma KeyedStep(w: World, step: Step)
    requires KeyedByPid(w)
    ensures KeyedByPid(Apply(w, step))
  {
  }

  lemma {:induction false} AlwaysKeyed(run: seq<Step>, i: nat)
    requires i <= |run|
    ensures KeyedByPid(After(run, i))
  {
    hide Apply;
    if i > 0 {
      AlwaysKeyed(run, i - 1);
      KeyedStep(After(run, i - 1), run[i - 1]);
    }
  }

  /** This step makes a child leave `live` that was not both waited for and drained. */
  ghost predicate Loses(w: World, step: Step) {
    exists n: nat :: IsLive(w.books.live, n) && !IsLive(Apply(w, step).books.live, n) && !Proven(Apply(w, step), n)
  }

  /** The two steps that can: a start on the child's pid, and a complete close through a handle that is not the one
      `live` holds. */
  predicate LosingStep(w: World, step: Step) {
    match step
    case StartStep(pid, _) => Overwrites(w, step) && !Proven(w, w.books.live[pid].serial)
    case CloseStep(c, o) =>
      && o == Closed && c.pid in w.books.live && c.serial != w.books.live[c.pid].serial
      && !Proven(w, w.books.live[c.pid].serial)
  }

  lemma StartLoses(w: World, step: Step)
    requires KeyedByPid(w) && step.StartStep?
    ensures Loses(w, step) <==> LosingStep(w, step)
  {
    var live, live' := w.books.live, Apply(w, step).books.live;
    forall p | p in live && (p != step.pid || live' == live) ensures IsLive(live', live[p].serial) {
      assert p in live' && live'[p].serial == live[p].serial;
    }
    if Overwrites(w, step) { assert IsLive(live, live[step.pid].serial); }
  }

  lemma CloseLoses(w: World, step: Step)
    requires KeyedByPid(w) && step.CloseStep?
    ensures Loses(w, step) <==> LosingStep(w, step)
  {
    var live, live' := w.books.live, Apply(w, step).books.live;
    forall p | p in live && (p != step.child.pid || live' == live) ensures IsLive(live', live[p].serial) {
      assert p in live' && live'[p].serial == live[p].serial;
    }
    if step.child.pid in live { assert IsLive(live, live[step.child.pid].serial); }
  }

  /** On every run, a step loses a child exactly when it is one of those two. */
  lemma LosesExactly(run: seq<Step>, j: nat)
    requires j < |run|
    ensures Loses(After(run, j), run[j]) <==> LosingStep(After(run, j), run[j])
  {
    AlwaysKeyed(run, j);
    hide Loses, LosingStep, KeyedByPid;
    if run[j].StartStep? { StartLoses(After(run, j), run[j]); } else { CloseLoses(After(run, j), run[j]); }
  }

  /** Every child started is live, or was waited for and both its drain threads ended. */
  ghost predicate Accounted(w: World) {
    forall n: nat :: n < w.books.starts ==> IsLive(w.books.live, n) || Proven(w, n)
  }

  lemma AccountedStep(w: World, step: Step)
    requires KeyedByPid(w) && Accounted(w)
    ensures Accounted(Apply(w, step)) <==> !Loses(w, step)
  {
    var w' := Apply(w, step);
    forall n: nat | n < w'.books.starts ensures n < w.books.starts || IsLive(w'.books.live, n) {
      if n == w.books.starts {
        assert step.pid in w'.books.live && w'.books.live[step.pid].serial == n;
      }
    }
    forall n: nat | n < w.books.starts && Proven(w, n) ensures Proven(w', n) {
    }
    forall n: nat | IsLive(w.books.live, n) ensures n < w.books.starts {
    }
  }

  ghost predicate AlwaysAccounted(run: seq<Step>, n: nat)
    requires n <= |run|
  {
    forall i :: 0 <= i <= n ==> Accounted(After(run, i))
  }

  /** All along a run every child is accounted for exactly when no step of it is a losing one. */
  lemma {:induction false} AccountedExactly(run: seq<Step>, n: nat)
    requires n <= |run|
    ensures AlwaysAccounted(run, n) <==> forall j :: 0 <= j < n ==> !LosingStep(After(run, j), run[j])
  {
    hide Apply, Accounted, LosingStep, Loses, KeyedByPid;
    if n == 0 {
      NothingAccounted();
    } else {
      AccountedExactly(run, n - 1);
      AlwaysKeyed(run, n - 1);
      LosesExactly(run, n - 1);
      if Accounted(After(run, n - 1)) { AccountedStep(After(run, n - 1), run[n - 1]); }
      assert AlwaysAccounted(run, n) <==> AlwaysAccounted(run, n - 1) && Accounted(After(run, n));
    }
  }

  lemma NothingAccounted()
    ensures Accounted(START)
  {
  }

  /** `live` still holds this very child under its pid, if anything. */
  ghost predicate OwnHandle(w: World, c: Child) {
    c.pid in w.books.live ==> w.books.live[c.pid] == c
  }

  ghost predicate Orderly(w: World, step: Step) {
    if step.StartStep? then !Overwrites(w, step) else OwnHandle(w, step.child)
  }

  /** A run that neither starts on a live pid nor closes a stale handle keeps every promise of the books. */
  lemma OrderlyRunsAccounted(run: seq<Step>, n: nat)
    requires n <= |run| && forall j :: 0 <= j < n ==> Orderly(After(run, j), run[j])
    ensures Accounted(After(run, n)) && HelperGap(After(run, n).books) == 0
    ensures After(run, n).books.starts == After(run, n).books.closes + |After(run, n).books.live|
  {
    forall j | 0 <= j < n ensures !LosingStep(After(run, j), run[j]) && !MovesHelpers(After(run, j), run[j]) {
      assert Orderly(After(run, j), run[j]);
    }
    hide Orderly, LosingStep, MovesHelpers, After, Accounted, HelperGap;
    AccountedExactly(run, n);
    HelpersBalance(run, n);
    StartsBalanceAt(run, n);
  }

  lemma StartsBalanceAt(run: seq<Step>, n: nat)
    requires n <= |run| && forall j :: 0 <= j < n ==> Orderly(After(run, j), run[j])
    ensures After(run, n).books.starts == After(run, n).books.closes + |After(run, n).books.live|
  {
    forall j | 0 <= j < n ensures !Overwrites(After(run, j), run[j]) {
      assert Orderly(After(run, j), run[j]);
    }
    EveryRunBalanced(run, n);
    OverwritesCounted(run, n);
  }

  /** A helper whose drain thread outlives its close is lost to a start on its pid, and the helper count is off. */
  lemma HelperLost(pid: int)
    ensures var c := Child(0, pid, true);
      var run := [StartStep(pid, true), CloseStep(c, DrainAlive), StartStep(pid, false)];
      && UsesOwnHandles(run) && Loses(After(run, 2), run[2]) && !Accounted(After(run, 3))
      && HelperGap(After(run, 3).books) == 1
  {
    var c := Child(0, pid, true);
    var run := [StartStep(pid, true), CloseStep(c, DrainAlive), StartStep(pid, false)];
    assert After(run, 1).books == Books(map[pid := c], 1, 0, 1, 0, 1);
    var w := World(After(run, 1).books, {0}, {}, 0, 1);
    assert After(run, 2) == w;
    assert After(run, 3) == Apply(w, run[2]);
    assert ReturnedAt(run, 0, c);
    hide After;
    HelperOverwritten(pid, w);
  }

  lemma HelperOverwritten(pid: int, w: World)
    requires w == World(Books(map[pid := Child(0, pid, true)], 1, 0, 1, 0, 1), {0}, {}, 0, 1)
    ensures var step := StartStep(pid, false);
      Loses(w, step) && !Accounted(Apply(w, step)) && HelperGap(Apply(w, step).books) == 1
  {
    var w' := Apply(w, StartStep(pid, false));
    assert w'.books.live == map[pid := Child(1, pid, false)];
    assert LiveHelpers(w'.books.live) == {};
    assert pid in w.books.live && IsLive(w.books.live, 0) && !IsLive(w'.books.live, 0) && !Proven(w', 0);
  }

  /** Closing that first handle once its thread has ended removes the entry of the second child instead. */
  lemma StaleCloseLoses(pid: int)
    ensures var c := Child(0, pid, false);
      var run := [StartStep(pid, false), CloseStep(c, DrainAlive), StartStep(pid, false), CloseStep(c, Closed)];
      UsesOwnHandles(run) && Loses(After(run, 3), run[3]) && After(run, 4).books.live == map[]
          && 1 !in After(run, 4).waited
  {
    var c := Child(0, pid, false);
    var run := [StartStep(pid, false), CloseStep(c, DrainAlive), StartStep(pid, false), CloseStep(c, Closed)];
    assert After(run, 1).books.live == map[pid := c];
    assert After(run, 2).books == After(run, 1).books;
    assert After(run, 3).books.live == map[pid := Child(1, pid, false)];
    assert After(run, 4).books.live == map[];
    assert ReturnedAt(run, 0, c);
    assert IsLive(After(run, 3).books.live, 1);
  }

  lemma SomeMember(s: set<int>)
    ensures s == {} || exists p :: p in s
  {
    if forall p :: p !in s { assert s == {}; }
  }

  // ----- the program's object -----

  class Owned {
    var live: map<int, Child>
    var starts: nat
    var closes: nat
    var helpers: nat
    var helperCloses: nat
    var highwater: nat

    ghost function Record(): Books
      reads this
    {
      Books(live, starts, closes, helpers, helperCloses, highwater)
    }

    constructor ()
      ensures Record() == NOTHING
    {
      live, starts, closes, helpers, helperCloses, highwater := map[], 0, 0, 0, 0, 0;
    }

    /** `start`: refused at the weight limit, otherwise registered before anything else can fail. */
    method Start(pid: int, helper: bool) returns (c: Option<Child>)
      modifies this
      ensures Record() == Started(old(Record()), pid, helper)
      ensures c.Some? <==> |old(live)| < 4 && !(helper && exists p :: p in old(live) && old(live)[p].helper)
      ensures c.Some? ==> c.value == Child(old(starts), pid, helper) && live == old(live)[pid := c.value]
      ensures c.Some? ==> starts == old(starts) + 1 && helpers == old(helpers) + if helper then 1 else 0
      ensures c.Some? ==> old(highwater) <= highwater && |live| <= highwater && highwater in {old(highwater), |live|}
      ensures c.Some? ==> closes == old(closes) && helperCloses == old(helperCloses)
      ensures c.None? ==> Record() == old(Record())
    {
      if |live| >= MAX_LIVE || (helper && exists p :: p in live && live[p].helper) {
        assert helper && (exists p :: p in live && live[p].helper) ==> LiveHelpers(live) != {} by {
          if p :| p in live && live[p].helper { assert p in LiveHelpers(live); }
        }
        return None;
      }
      var child := Child(starts, pid, helper);
      live := live[pid := child];
      starts := starts + 1;
      highwater := Max(highwater, |live|);
      if helper { helpers := helpers + 1; }
      return Some(child);
    }

    /** `close`. `clean` says the exit code was 0 and neither stream flag is set; a natural close that was
        not clean still counts, and then raises. */
    method Close(c: Child, outcome: Outcome, natural: bool, clean: bool) returns (ok: bool)
      modifies this
      ensures Record() == AfterClose(old(Record()), c, outcome)
      ensures ok <==> outcome == Closed && c.pid in old(live) && (natural ==> clean)
      ensures if outcome == Closed && c.pid in old(live)
              then live == old(live) - {c.pid} && closes == old(closes) + 1
                && helperCloses == old(helperCloses) + (if c.helper then 1 else 0)
                && starts == old(starts) && helpers == old(helpers) && highwater == old(highwater)
              else Record() == old(Record())
    {
      if outcome != Closed || c.pid !in live { return false; }
      live := live - {c.pid};
      closes := closes + 1;
      if c.helper { helperCloses := helperCloses + 1; }
      return !natural || clean;
    }

    /** `cleanup`: tries to close every child that was live; whatever fails stays visible in `live`. */
    method Cleanup(outcomes: map<int, Outcome>)
      requires forall p :: p in live ==> live[p].pid == p && p in outcomes
      modifies this
      ensures forall p :: p in live <==> p in old(live) && outcomes[p] != Closed
      ensures forall p :: p in live ==> live[p] == old(live)[p]
      ensures closes + |live| == old(closes + |live|)
      ensures helperCloses + |LiveHelpers(live)| == old(helperCloses + |LiveHelpers(live)|)
      ensures starts == old(starts) && helpers == old(helpers) && highwater == old(highwater)
    {
      var states := live;
      var todo := states.Keys;
      while todo != {}
        invariant todo <= states.Keys
        invariant forall p :: p in live <==> p in states && (p in todo || outcomes[p] != Closed)
        invariant forall p :: p in live ==> live[p] == states[p]
        invariant closes + |live| == old(closes + |live|)
        invariant helperCloses + |LiveHelpers(live)| == old(helperCloses + |LiveHelpers(live)|)
        invariant starts == old(starts) && helpers == old(helpers) && highwater == old(highwater)
        decreases todo
      {
        SomeMember(todo);
        var p :| p in todo;
        todo := todo - {p};
        RemovedSize(live, p);
        var _ := Close(states[p], outcomes[p], false, false);
      }
    }
  }
}
