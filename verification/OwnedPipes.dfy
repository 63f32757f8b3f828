/** What a freed slot proves about the child's pipes: class `Owned` of
    scripts/opencode-platform-clock-prequalification.py with the two drain threads of every child, in every
    interleaving of the threads with starts, closes and cleanups. */
module OwnedPipes {
  import D = OwnedDrain
  import P = OwnedProcesses

  /** A drain thread: the serial of its child, and whether it reads stdout or stderr. */
  type ThreadId = (nat, bool)

  datatype System = System(world: P.World, threads: map<ThreadId, D.State>)

  datatype Step = Main(step: P.Step) | Drain(id: ThreadId, turn: D.Step)

  const START := System(P.START, map[])

  function Thread(s: System, id: ThreadId): D.State {
    if id in s.threads then s.threads[id] else D.START
  }

  /** `pipes` says what each thread is started with. */
  function Apply(pipes: ThreadId -> D.Pipe, s: System, step: Step): System {
    match step
    case Main(p) => s.(world := P.Apply(s.world, p))
    case Drain(id, d) => s.(threads := s.threads[id := D.Apply(pipes(id), Thread(s, id), d)])
  }

  function After(pipes: ThreadId -> D.Pipe, run: seq<Step>, i: nat): System
    requires i <= |run|
  {
    if i == 0 then START else Apply(pipes, After(pipes, run, i - 1), run[i - 1])
  }

  predicate BothEnded(s: System, n: nat) {
    Thread(s, (n, true)).phase.Ended? && Thread(s, (n, false)).phase.Ended?
  }

  predicate BothAtEof(s: System, n: nat) {
    BothEnded(s, n) && Thread(s, (n, true)).phase.eof && Thread(s, (n, false)).phase.eof
  }

  /** A thread runs only once its child has been started, and a close gets past its joins only when both threads of its
      handle have ended. */
  predicate Legal(s: System, step: Step) {
    && (step.Drain? ==> step.id.0 < s.world.books.starts)
    && (step.Main? && step.step.CloseStep? && step.step.outcome in {P.TooLate, P.Closed} ==>
          BothEnded(s, step.step.child.serial))
  }

  ghost predicate LegalRun(pipes: ThreadId -> D.Pipe, run: seq<Step>) {
    forall j :: 0 <= j < |run| ==> Legal(After(pipes, run, j), run[j])
  }

  // ----- which threads raised -----

  predicate RaisesIn(pipes: ThreadId -> D.Pipe, s: System, step: Step, id: ThreadId) {
    step.Drain? && step.id == id && D.Raises(pipes(id), Thread(s, id), step.turn)
  }

  ghost predicate HasRaised(pipes: ThreadId -> D.Pipe, run: seq<Step>, i: nat, id: ThreadId)
    requires i <= |run|
  {
    exists j :: 0 <= j < i && RaisesIn(pipes, After(pipes, run, j), run[j], id)
  }

  lemma ThreadStep(pipes: ThreadId -> D.Pipe, s: System, step: Step, id: ThreadId)
    ensures D.Raised(Thread(Apply(pipes, s, step), id))
            <==> D.Raised(Thread(s, id)) || RaisesIn(pipes, s, step, id)
    ensures Thread(s, id).phase.Ended? ==> Thread(Apply(pipes, s, step), id).phase == Thread(s, id).phase
  {
    if step.Drain? && step.id == id {
      D.RaisesStep(pipes(id), Thread(s, id), step.turn);
      EndedStays(pipes(id), Thread(s, id), step.turn);
    }
  }

  lemma EndedStays(pipe: D.Pipe, t: D.State, step: D.Step)
    ensures t.phase.Ended? ==> D.Apply(pipe, t, step).phase == t.phase
  {
  }

  lemma {:induction false} ThreadRaised(pipes: ThreadId -> D.Pipe, run: seq<Step>, i: nat, id: ThreadId)
    requires i <= |run|
    ensures D.Raised(Thread(After(pipes, run, i), id)) <==> HasRaised(pipes, run, i, id)
  {
    hide Apply, RaisesIn, D.Raised;
    if i == 0 {
      D.NotRaised();
    } else {
      ThreadRaised(pipes, run, i - 1, id);
      ThreadStep(pipes, After(pipes, run, i - 1), run[i - 1], id);
    }
  }

  /** What a close joined stays joined. */
  lemma {:induction false} DrainedEnded(pipes: ThreadId -> D.Pipe, run: seq<Step>, i: nat, n: nat)
    requires i <= |run| && LegalRun(pipes, run)
    ensures n in After(pipes, run, i).world.drained ==> BothEnded(After(pipes, run, i), n)
  {
    hide Apply, Legal, BothEnded;
    if i > 0 {
      DrainedEnded(pipes, run, i - 1, n);
      assert Legal(After(pipes, run, i - 1), run[i - 1]);
      JoinedStep(pipes, After(pipes, run, i - 1), run[i - 1], n);
    }
  }

  lemma JoinedStep(pipes: ThreadId -> D.Pipe, s: System, step: Step, n: nat)
    requires Legal(s, step) && (n in s.world.drained ==> BothEnded(s, n))
    ensures n in Apply(pipes, s, step).world.drained ==> BothEnded(Apply(pipes, s, step), n)
  {
    ThreadStep(pipes, s, step, (n, true));
    ThreadStep(pipes, s, step, (n, false));
  }

  /** The children whose threads were joined: both pipes reached end of file exactly when neither thread raised. */
  lemma JoinedAtEof(pipes: ThreadId -> D.Pipe, run: seq<Step>, i: nat, n: nat)
    requires i <= |run| && LegalRun(pipes, run) && n in After(pipes, run, i).world.drained
    ensures BothAtEof(After(pipes, run, i), n)
            <==> !HasRaised(pipes, run, i, (n, true)) && !HasRaised(pipes, run, i, (n, false))
  {
    DrainedEnded(pipes, run, i, n);
    ThreadRaised(pipes, run, i, (n, true));
    ThreadRaised(pipes, run, i, (n, false));
  }

  // ----- the promise: a slot is freed only after an actual wait and both ends of file -----

  predicate Closed(s: System, n: nat) { n in s.world.waited && BothAtEof(s, n) }

  /** Every child started is live, or its exit was waited for and both its pipes are at end of file. */
  ghost predicate Kept(s: System) {
    forall n: nat :: n < s.world.books.starts ==> P.IsLive(s.world.books.live, n) || Closed(s, n)
  }

  /** A thread of the child has raised. */
  predicate EitherRaised(s: System, n: nat) {
    D.Raised(Thread(s, (n, true))) || D.Raised(Thread(s, (n, false)))
  }

  /** The steps that break it: a start on the pid of a child that is not closed, a complete close through the child's
      own handle after one of its threads raised, and a complete close that removes another child's entry. */
  predicate Breaks(s: System, step: Step) {
    match step
    case Main(StartStep(pid, helper)) =>
      P.Overwrites(s.world, step.step) && !Closed(s, s.world.books.live[pid].serial)
    case Main(CloseStep(c, o)) =>
      && o == P.Closed && c.pid in s.world.books.live
      && var n := s.world.books.live[c.pid].serial;
         if n == c.serial then EitherRaised(s, n) else !Closed(s, n)
    case Drain(_, _) => false
  }

  lemma ClosedStays(pipes: ThreadId -> D.Pipe, s: System, step: Step, n: nat)
    ensures Closed(s, n) ==> Closed(Apply(pipes, s, step), n)
  {
    ThreadStep(pipes, s, step, (n, true));
    ThreadStep(pipes, s, step, (n, false));
  }

  lemma MonotoneKept(pipes: ThreadId -> D.Pipe, s: System, step: Step)
    requires Kept(s) && Apply(pipes, s, step).world.books == s.world.books
    ensures Kept(Apply(pipes, s, step))
  {
    forall n: nat | n < s.world.books.starts
      ensures P.IsLive(s.world.books.live, n) || Closed(Apply(pipes, s, step), n) {
      ClosedStays(pipes, s, step, n);
    }
  }

  lemma StartKept(pipes: ThreadId -> D.Pipe, s: System, step: Step)
    requires P.KeyedByPid(s.world) && Kept(s) && step.Main? && step.step.StartStep?
    requires P.MayStart(s.world.books, step.step.helper)
    ensures Kept(Apply(pipes, s, step)) <==> !Breaks(s, step)
  {
    var pid, s' := step.step.pid, Apply(pipes, s, step);
    var live, live', starts := s.world.books.live, s'.world.books.live, s.world.books.starts;
    forall n: nat ensures Closed(s', n) <==> Closed(s, n) {
    }
    hide Closed;
    assert pid in live' && live'[pid].serial == starts;
    forall n: nat | n < starts
      ensures P.IsLive(live', n) <==> P.IsLive(live, n) && !(pid in live && live[pid].serial == n) {
      if P.IsLive(live, n) {
        var p :| p in live && live[p].serial == n;
        assert p != pid ==> p in live' && live'[p].serial == n;
      }
    }
    if P.Overwrites(s.world, step.step) { assert P.IsLive(live, live[pid].serial); }
  }

  lemma CloseKept(pipes: ThreadId -> D.Pipe, s: System, step: Step)
    requires P.KeyedByPid(s.world) && Kept(s) && Legal(s, step) && step.Main? && step.step.CloseStep?
    requires step.step.outcome == P.Closed && step.step.child.pid in s.world.books.live
    ensures Kept(Apply(pipes, s, step)) <==> !Breaks(s, step)
  {
    var c, s' := step.step.child, Apply(pipes, s, step);
    var live, live' := s.world.books.live, s'.world.books.live;
    var gone := live[c.pid].serial;
    assert Closed(s', gone) <==> !Breaks(s, step);
    forall n: nat | n != gone ensures Closed(s, n) ==> Closed(s', n) {
    }
    hide Closed, Breaks;
    forall n: nat ensures P.IsLive(live', n) <==> P.IsLive(live, n) && n != gone {
      if P.IsLive(live, n) && n != gone {
        var p :| p in live && live[p].serial == n;
        assert p in live' && live'[p].serial == n;
      }
    }
    assert P.IsLive(live, gone);
  }

  lemma KeptStep(pipes: ThreadId -> D.Pipe, s: System, step: Step)
    requires P.KeyedByPid(s.world) && Kept(s) && Legal(s, step)
    ensures Kept(Apply(pipes, s, step)) <==> !Breaks(s, step)
  {
    match step
    case Main(StartStep(pid, helper)) =>
      if P.MayStart(s.world.books, helper) { StartKept(pipes, s, step); } else { MonotoneKept(pipes, s, step); }
    case Main(CloseStep(c, o)) =>
      if o == P.Closed && c.pid in s.world.books.live {
        CloseKept(pipes, s, step);
      } else {
        MonotoneKept(pipes, s, step);
      }
    case Drain(_, _) => MonotoneKept(pipes, s, step);
  }

  lemma {:induction false} AlwaysKeyed(pipes: ThreadId -> D.Pipe, run: seq<Step>, i: nat)
    requires i <= |run|
    ensures P.KeyedByPid(After(pipes, run, i).world)
  {
    hide P.KeyedByPid, P.Apply;
    if i == 0 {
      P.AlwaysKeyed([], 0);
    } else {
      AlwaysKeyed(pipes, run, i - 1);
      if run[i - 1].Main? { P.KeyedStep(After(pipes, run, i - 1).world, run[i - 1].step); }
    }
  }

  ghost predicate AlwaysKept(pipes: ThreadId -> D.Pipe, run: seq<Step>, n: nat)
    requires n <= |run|
  {
    forall i :: 0 <= i <= n ==> Kept(After(pipes, run, i))
  }

  /** The promise holds all along a run exactly when none of its steps is one of those three. */
  lemma {:induction false} PromiseExactly(pipes: ThreadId -> D.Pipe, run: seq<Step>, n: nat)
    requires n <= |run| && LegalRun(pipes, run)
    ensures AlwaysKept(pipes, run, n) <==> forall j :: 0 <= j < n ==> !Breaks(After(pipes, run, j), run[j])
  {
    hide Apply, Kept, Breaks, Legal;
    if n == 0 {
      NothingKept();
    } else {
      PromiseExactly(pipes, run, n - 1);
      AlwaysKeyed(pipes, run, n - 1);
      if Kept(After(pipes, run, n - 1)) { KeptStep(pipes, After(pipes, run, n - 1), run[n - 1]); }
      assert AlwaysKept(pipes, run, n) <==> AlwaysKept(pipes, run, n - 1) && Kept(After(pipes, run, n));
    }
  }

  lemma NothingKept()
    ensures Kept(START)
  {
  }

  // ----- a slot freed with a pipe not read to its end -----

  /** A child floods its stdout, its stderr ends, and it is closed. */
  function Flooded(pid: int): seq<Step> {
    [Main(P.StartStep(pid, false))]
    + seq(|D.FLOOD|, i requires 0 <= i < |D.FLOOD| => Drain((0, true), D.FLOOD[i]))
    + [Drain((0, false), D.Read([])), Main(P.CloseStep(P.Child(0, pid, false), P.Closed))]
  }

  lemma {:induction false} FloodRuns(pipes: ThreadId -> D.Pipe, pid: int, k: nat)
    requires k <= |D.FLOOD|
    ensures var s := After(pipes, Flooded(pid), 1 + k);
      && Thread(s, (0, true)) == D.After(pipes((0, true)), D.FLOOD, k) && Thread(s, (0, false)) == D.START
      && s.world == P.Apply(P.START, P.StartStep(pid, false))
  {
    hide P.Apply, D.Apply;
    if k == 0 {
      assert After(pipes, Flooded(pid), 0) == START;
    } else {
      FloodRuns(pipes, pid, k - 1);
      assert Flooded(pid)[k] == Drain((0, true), D.FLOOD[k - 1]);
    }
  }

  /** The close succeeds and frees the slot, though stdout was never read to its end. */
  lemma FreedWithoutEof(pipes: ThreadId -> D.Pipe, pid: int)
    requires pipes((0, true)).splits && pipes((0, true)).cap >= 17
    ensures var run := Flooded(pid);
      var s := After(pipes, run, |run|);
      && LegalRun(pipes, run) && s.world.books.live == map[] && s.world.books.closes == 1
      && Thread(s, (0, true)).phase == D.Ended(false) && !Kept(s)
  {
    var run, k := Flooded(pid), |D.FLOOD|;
    FloodRuns(pipes, pid, k);
    D.EndWithoutEof(pipes((0, true)));
    FloodedEnd(pid);
    hide D.After, Flooded, Legal, BothEnded, P.Apply, Kept;
    var a, b := After(pipes, run, 1 + k), After(pipes, run, 2 + k);
    assert b == Apply(pipes, a, run[1 + k]);
    LastClose(pipes, a, pid);
    forall j | 0 <= j < |run| ensures Legal(After(pipes, run, j), run[j]) {
      if 0 < j < 2 + k {
        FloodRuns(pipes, pid, j - 1);
        OneStarted(pid);
      }
      LegalUnlessClose(After(pipes, run, j), run[j]);
      assert j == 2 + k ==> After(pipes, run, j) == b;
    }
    assert After(pipes, run, 3 + k) == Apply(pipes, b, run[2 + k]);
  }

  lemma LegalUnlessClose(s: System, step: Step)
    requires step.Drain? ==> step.id.0 < s.world.books.starts
    ensures !(step.Main? && step.step.CloseStep?) ==> Legal(s, step)
  {
  }

  lemma OneStarted(pid: int)
    ensures P.Apply(P.START, P.StartStep(pid, false)).books.starts == 1
  {
  }

  lemma LastClose(pipes: ThreadId -> D.Pipe, a: System, pid: int)
    requires Thread(a, (0, true)).phase == D.Ended(false) && Thread(a, (0, false)) == D.START
    requires a.world == P.Apply(P.START, P.StartStep(pid, false))
    ensures var close := Main(P.CloseStep(P.Child(0, pid, false), P.Closed));
      var b := Apply(pipes, a, Drain((0, false), D.Read([])));
      var s := Apply(pipes, b, close);
      && Legal(b, close) && s.world.books.live == map[] && s.world.books.closes == 1
      && Thread(s, (0, true)).phase == D.Ended(false) && !Kept(s)
  {
    var close := Main(P.CloseStep(P.Child(0, pid, false), P.Closed));
    var s := Apply(pipes, Apply(pipes, a, Drain((0, false), D.Read([]))), close);
    assert s.world.books.live == map[];
    assert 0 < s.world.books.starts && !P.IsLive(s.world.books.live, 0) && !Closed(s, 0);
  }

  lemma FloodedEnd(pid: int)
    ensures var run, k := Flooded(pid), |D.FLOOD|;
      && |run| == k + 3 && run[1 + k] == Drain((0, false), D.Read([]))
      && run[2 + k] == Main(P.CloseStep(P.Child(0, pid, false), P.Closed))
      && run[0].Main? && !run[0].step.CloseStep? && forall j :: 0 < j < 2 + k ==> run[j].Drain? && run[j].id.0 == 0
  {
  }
}
