/** Every interleaving of captures, releases, lookups, timeouts and resumed enrichments.

    A run is a sequence of steps; a step that is not enabled where it stands changes nothing, so the
    statements below hold for every order in which the event loop may take the enabled ones. */
module DisplayRuns {
  import opened Options
  import opened DisplayText
  import opened DisplayModel

  datatype Fact = Fact(rootSession: bool, asksQuestion: bool, sessionID: Text, requestID: Text)

  /** `Begin` runs `enrich` up to its await, `Settle` ends the native lookup of the enrichment begun at that
      step, `Finish` resumes it, after the lookup or after the timeout, with whatever title it got. */
  datatype Step =
    | CaptureStep(event: Event)
    | ReleaseStep(snapshot: nat)
    | BeginStep(fact: Fact)
    | SettleStep(begun: nat)
    | FinishStep(begun: nat)

  datatype Pending = Pending(fact: Fact, snapshot: Option<nat>)

  /** `captured` counts the captures of each snapshot not released yet; `unsettled` are the native
      lookups still running. The program itself keeps neither. */
  datatype World = World(state: State, activeLookups: nat, captured: multiset<nat>, unsettled: set<nat>,
                         pending: map<nat, Pending>)

  const START := World(EMPTY, 0, multiset{}, {}, map[])

  predicate Proceeds(f: Fact) { f.rootSession && ValidID(f.sessionID) }

  function LookupFor(s: State, f: Fact): Option<nat> {
    if f.asksQuestion then Lookup(s, f.sessionID, f.requestID) else None
  }

  predicate Enabled(w: World, step: Step) {
    match step
    case CaptureStep(_) => true
    case ReleaseStep(n) => w.captured[n] > 0 && n < |w.state.snaps|
    case BeginStep(f) => Proceeds(f)
    case SettleStep(b) => b in w.unsettled && w.activeLookups > 0
    case FinishStep(b) => b in w.pending
  }

  /** Step number `i` of a run. */
  function Apply(maxLookups: nat, w: World, i: nat, step: Step): World {
    if !Enabled(w, step) then w
    else match step
      case CaptureStep(e) =>
        var (s, got) := Capture(w.state, e);
        w.(state := s, captured := if got.Some? then w.captured + multiset{got.value} else w.captured)
      case ReleaseStep(n) => w.(state := Release(w.state, n), captured := w.captured - multiset{n})
      case BeginStep(f) =>
        var w' := w.(pending := w.pending[i := Pending(f, LookupFor(w.state, f))]);
        if w.activeLookups >= maxLookups then w'
        else w'.(activeLookups := w.activeLookups + 1, unsettled := w.unsettled + {i})
      case SettleStep(b) => w.(activeLookups := w.activeLookups - 1, unsettled := w.unsettled - {b})
      case FinishStep(b) => w.(pending := w.pending - {b})
  }

  function After(maxLookups: nat, run: seq<Step>, i: nat): World
    requires i <= |run|
  {
    if i == 0 then START else Apply(maxLookups, After(maxLookups, run, i - 1), i - 1, run[i - 1])
  }

  // ----- the invariant of every reachable state -----

  function KeyOf(x: Snapshot): Key { (x.sessionID, x.requestID) }

  /** The registry holds exactly the active snapshots, each under its own key. */
  ghost predicate RegistryExact(s: State) {
    && (forall k :: k in s.requests
                    ==> s.requests[k] < |s.snaps| && s.snaps[s.requests[k]].active
                        && KeyOf(s.snaps[s.requests[k]]) == k)
    && (forall n :: 0 <= n < |s.snaps| && s.snaps[n].active
                    ==> KeyOf(s.snaps[n]) in s.requests && s.requests[KeyOf(s.snaps[n])] == n)
  }

  ghost predicate ObserversCounted(s: State, captured: multiset<nat>) {
    && (forall n :: n in captured ==> n < |s.snaps|)
    && (forall n :: 0 <= n < |s.snaps| ==> s.snaps[n].observers == captured[n])
    && (forall n :: 0 <= n < |s.snaps| && s.snaps[n].active ==> captured[n] > 0)
  }

  ghost predicate Bounded(s: State) { |s.requests| <= 512 && |s.turns| <= 512 && |s.seenTurns| <= 512 }

  ghost predicate Distinct(turns: seq<(Text, Text)>) {
    forall i, j :: 0 <= i < j < |turns| ==> turns[i].0 != turns[j].0
  }

  ghost predicate Inv(maxLookups: nat, w: World, i: nat) {
    && RegistryExact(w.state) && ObserversCounted(w.state, w.captured) && Bounded(w.state) && Distinct(w.state.turns)
    && w.activeLookups == |w.unsettled| <= maxLookups
    && (forall b :: b in w.unsettled || b in w.pending ==> b < i)
  }

  lemma {:induction false} SetTurnMeaning(turns: seq<(Text, Text)>, session: Text, id: Text)
    requires Distinct(turns)
    ensures Distinct(SetTurn(turns, session, id)) && |SetTurn(turns, session, id)| <= |turns| + 1
    ensures TurnOf(SetTurn(turns, session, id), session) == Some(id)
    ensures forall t :: t in SetTurn(turns, session, id) ==> t in turns || t == (session, id)
  {
    if turns != [] && turns[0].0 != session {
      var rest := SetTurn(turns[1..], session, id);
      SetTurnMeaning(turns[1..], session, id);
      forall i | 0 <= i < |rest| ensures rest[i].0 != turns[0].0 {
        assert rest[i] in rest;
      }
    }
  }

  /** A new turn takes its session's snapshots out, and leaves every other where it was. */
  lemma TurnSparesOthers(s: State, session: Text, id: Text)
    requires RegistryExact(s) && AcceptsTurn(s, session, id)
    ensures var s' := NewTurn(s, session, id);
      && |s'.snaps| == |s.snaps|
      && (forall n :: 0 <= n < |s.snaps|
            ==> s'.snaps[n] == s.snaps[n].(active := s.snaps[n].active && s.snaps[n].sessionID != session))
      && forall k :: if k in s.requests && k.0 != session then k in s'.requests && s'.requests[k] == s.requests[k]
                     else k !in s'.requests
  {
    hide AcceptsTurn, SetTurn, DropOldest;
    var gone := OfSession(s, session);
    var dropped := set k | k in gone :: s.requests[k];
    forall n | 0 <= n < |s.snaps| && s.snaps[n].active ensures n in dropped <==> s.snaps[n].sessionID == session {
      if s.snaps[n].sessionID == session { assert KeyOf(s.snaps[n]) in gone; }
    }
  }

  lemma TurnKeeps(s: State, captured: multiset<nat>, session: Text, id: Text)
    requires RegistryExact(s) && ObserversCounted(s, captured)
    ensures RegistryExact(NewTurn(s, session, id)) && ObserversCounted(NewTurn(s, session, id), captured)
  {
    if AcceptsTurn(s, session, id) {
      TurnSparesOthers(s, session, id);
      hide NewTurn, AcceptsTurn;
    }
  }

  lemma ResolveKeeps(s: State, captured: multiset<nat>, session: Text, request: Text)
    requires RegistryExact(s) && ObserversCounted(s, captured)
    ensures RegistryExact(Resolve(s, session, request)) && ObserversCounted(Resolve(s, session, request), captured)
  {
  }

  lemma AskAgainKeeps(s: State, captured: multiset<nat>, n: nat)
    requires RegistryExact(s) && ObserversCounted(s, captured) && n < |s.snaps| && s.snaps[n].active
    ensures var s' := s.(snaps := s.snaps[n := s.snaps[n].(observers := s.snaps[n].observers + 1)]);
      RegistryExact(s') && ObserversCounted(s', captured + multiset{n})
  {
  }

  lemma AskNewKeeps(s: State, captured: multiset<nat>, x: Snapshot)
    requires RegistryExact(s) && ObserversCounted(s, captured) && KeyOf(x) !in s.requests && x.active
        && x.observers == 1
    ensures var s' := s.(snaps := s.snaps + [x], requests := s.requests[KeyOf(x) := |s.snaps|]);
      RegistryExact(s') && ObserversCounted(s', captured + multiset{|s.snaps|})
  {
    assert captured[|s.snaps|] == 0;
  }

  lemma AskKeeps(s: State, captured: multiset<nat>, session: Text, request: Text, questions: seq<Option<Text>>)
    requires RegistryExact(s) && ObserversCounted(s, captured)
    ensures var (s', got) := Ask(s, session, request, questions);
      RegistryExact(s') && ObserversCounted(s', if got.Some? then captured + multiset{got.value} else captured)
  {
    hide QuestionText, ValidID, ObserversCounted;
    var k := (session, request);
    if k in s.requests {
      AskAgainKeeps(s, captured, s.requests[k]);
    } else {
      AskNewKeeps(s, captured, Snapshot(session, request, QuestionText(questions), true, 1));
    }
  }

  /** Releasing a snapshot touches no entry but its own. */
  lemma ReleaseSparesOthers(s: State, n: nat)
    requires n < |s.snaps|
    ensures var s' := Release(s, n);
      && |s'.snaps| == |s.snaps|
      && (forall m :: 0 <= m < |s.snaps| && m != n ==> s'.snaps[m] == s.snaps[m])
      && (forall k :: k in s'.requests ==> k in s.requests && s'.requests[k] == s.requests[k])
      && (forall k :: k in s.requests && s.requests[k] != n ==> k in s'.requests)
  {
  }

  /** Its own snapshot stays registered exactly while captures of it are left. */
  lemma ReleaseCountsDown(s: State, n: nat)
    requires n < |s.snaps| && RegistryExact(s)
    ensures var x, s' := s.snaps[n], Release(s, n);
      && s'.snaps[n] == x.(observers := x.observers - 1, active := x.active && x.observers > 1)
      && (KeyOf(x) in s'.requests && s'.requests[KeyOf(x)] == n <==> x.active && x.observers > 1)
  {
  }

  lemma ReleaseKeeps(s: State, captured: multiset<nat>, n: nat)
    requires RegistryExact(s) && ObserversCounted(s, captured) && n < |s.snaps| && captured[n] > 0
    ensures RegistryExact(Release(s, n)) && ObserversCounted(Release(s, n), captured - multiset{n})
  {
    hide Release;
    ReleaseSparesOthers(s, n);
    ReleaseCountsDown(s, n);
  }

  lemma TurnBounds(s: State, session: Text, id: Text)
    requires Bounded(s) && Distinct(s.turns)
    ensures Bounded(NewTurn(s, session, id)) && Distinct(NewTurn(s, session, id).turns)
  {
    hide AcceptsTurn, SetTurn, OfSession;
    SetTurnMeaning(s.turns, session, id);
    FewerRequests(s.requests, OfSession(s, session));
  }

  lemma BoundsKept(s: State, e: Event)
    requires Bounded(s) && Distinct(s.turns)
    ensures Bounded(Capture(s, e).0) && Distinct(Capture(s, e).0.turns)
  {
    hide NewTurn, QuestionText, ValidID, Distinct;
    match e
    case UserMessage(session, id) => TurnBounds(s, session, id);
    case Resolved(session, request) => FewerRequests(s.requests, {(session, request)});
    case _ =>
  }

  lemma FewerRequests(m: map<Key, nat>, gone: set<Key>)
    ensures |m - gone| <= |m|
  {
    assert (m - gone).Keys == m.Keys - gone;
    assert |(m - gone).Keys| <= |m.Keys| by { SubsetSize(m.Keys - gone, m.Keys); }
  }

  lemma {:induction false} SubsetSize<T>(a: set<T>, b: set<T>)
    requires a <= b
    ensures |a| <= |b|
  {
    if a != {} {
      var x :| x in a;
      SubsetSize(a - {x}, b - {x});
    }
  }

  lemma CaptureApplied(maxLookups: nat, w: World, i: nat, j: nat, e: Event)
    requires Inv(maxLookups, w, i) && j == i + 1
    ensures Inv(maxLookups, Apply(maxLookups, w, i, CaptureStep(e)), j)
  {
    hide RegistryExact, ObserversCounted, Bounded, Distinct, Capture;
    BoundsKept(w.state, e);
    CaptureKeeps(w.state, w.captured, e);
  }

  lemma ReleaseApplied(maxLookups: nat, w: World, i: nat, j: nat, n: nat)
    requires Inv(maxLookups, w, i) && j == i + 1
    ensures Inv(maxLookups, Apply(maxLookups, w, i, ReleaseStep(n)), j)
  {
    hide RegistryExact, ObserversCounted, Bounded, Distinct, Release;
    if Enabled(w, ReleaseStep(n)) {
      ReleaseKeeps(w.state, w.captured, n);
      ReleaseBounds(w.state, n);
    }
  }

  lemma LookupApplied(maxLookups: nat, w: World, i: nat, j: nat, step: Step)
    requires Inv(maxLookups, w, i) && j == i + 1 && !step.CaptureStep? && !step.ReleaseStep?
    ensures Inv(maxLookups, Apply(maxLookups, w, i, step), j)
  {
    hide RegistryExact, ObserversCounted, Bounded, Distinct, LookupFor, Proceeds;
  }

  lemma ApplyKeeps(maxLookups: nat, w: World, i: nat, j: nat, step: Step)
    requires Inv(maxLookups, w, i) && j == i + 1
    ensures Inv(maxLookups, Apply(maxLookups, w, i, step), j)
  {
    hide Inv, Apply;
    match step
    case CaptureStep(e) => CaptureApplied(maxLookups, w, i, j, e);
    case ReleaseStep(n) => ReleaseApplied(maxLookups, w, i, j, n);
    case _ => LookupApplied(maxLookups, w, i, j, step);
  }

  lemma CaptureKeeps(s: State, captured: multiset<nat>, e: Event)
    requires RegistryExact(s) && ObserversCounted(s, captured)
    ensures RegistryExact(Capture(s, e).0)
    ensures ObserversCounted(Capture(s, e).0,
                             if Capture(s, e).1.Some? then captured + multiset{Capture(s, e).1.value} else captured)
  {
    hide RegistryExact, ObserversCounted, NewTurn, Resolve, Ask;
    match e
    case UserMessage(session, id) => TurnKeeps(s, captured, session, id);
    case Resolved(session, request) => ResolveKeeps(s, captured, session, request);
    case Asked(session, request, questions) => AskKeeps(s, captured, session, request, questions);
    case OtherEvent =>
  }

  lemma ReleaseBounds(s: State, n: nat)
    requires n < |s.snaps| && Bounded(s)
    ensures Bounded(Release(s, n)) && Release(s, n).turns == s.turns
  {
    FewerRequests(s.requests, {KeyOf(s.snaps[n])});
  }

  /** In every reachable state the registry is exact, observer counts are the unreleased captures, the
      collections stay within their capacity and no lookup slot is lost or leaked. */
  lemma {:induction false} Reachable(maxLookups: nat, run: seq<Step>, i: nat)
    requires i <= |run|
    ensures Inv(maxLookups, After(maxLookups, run, i), i)
  {
    hide Apply;
    if i > 0 {
      Reachable(maxLookups, run, i - 1);
      ApplyKeeps(maxLookups, After(maxLookups, run, i - 1), i - 1, i, run[i - 1]);
    }
  }

  // ----- what an emitted question proves about the run -----

  predicate SameText(x: Snapshot, y: Snapshot) {
    KeyOf(x) == KeyOf(y) && x.question == y.question
  }

  /** Snapshots keep their place and text, and never become active again. */
  ghost predicate Ages(s: State, s': State) {
    && |s.snaps| <= |s'.snaps|
    && forall n :: 0 <= n < |s.snaps|
        ==> SameText(s'.snaps[n], s.snaps[n]) && (s'.snaps[n].active ==> s.snaps[n].active)
  }

  lemma TurnAges(s: State, session: Text, id: Text)
    ensures Ages(s, NewTurn(s, session, id)) && |NewTurn(s, session, id).snaps| == |s.snaps|
    ensures KeysValid(s) ==> KeysValid(NewTurn(s, session, id))
  {
    hide ValidID, OfSession, SetTurn, AcceptsTurn, DropOldest;
  }

  lemma ResolveAges(s: State, session: Text, request: Text)
    ensures Ages(s, Resolve(s, session, request)) && |Resolve(s, session, request).snaps| == |s.snaps|
    ensures KeysValid(s) ==> KeysValid(Resolve(s, session, request))
  {
    hide ValidID;
  }

  lemma AskAges(s: State, session: Text, request: Text, questions: seq<Option<Text>>)
    ensures var (s', got) := Ask(s, session, request, questions);
      && Ages(s, s') && |s'.snaps| <= |s.snaps| + 1 && (KeysValid(s) ==> KeysValid(s'))
      && (|s'.snaps| == |s.snaps| + 1 ==> (session, request) !in s.requests && got == Some(|s.snaps|))
  {
    hide QuestionText, ValidID;
  }

  lemma CaptureAges(s: State, e: Event)
    ensures Ages(s, Capture(s, e).0)
    ensures |Capture(s, e).0.snaps| <= |s.snaps| + 1
    ensures |Capture(s, e).0.snaps| == |s.snaps| + 1 ==>
      e.Asked? && (e.sessionID, e.requestID) !in s.requests && Capture(s, e).1 == Some(|s.snaps|)
    ensures KeysValid(s) ==> KeysValid(Capture(s, e).0)
  {
    hide NewTurn, Resolve, Ask, KeysValid, Ages;
    match e
    case UserMessage(session, id) => TurnAges(s, session, id);
    case Resolved(session, request) => ResolveAges(s, session, request);
    case Asked(session, request, questions) => AskAges(s, session, request, questions);
    case OtherEvent => AgesReflexive(s);
  }

  lemma ReleaseAges(s: State, n: nat)
    requires n < |s.snaps|
    ensures Ages(s, Release(s, n)) && |Release(s, n).snaps| == |s.snaps|
    ensures KeysValid(s) ==> KeysValid(Release(s, n))
  {
    hide ValidID;
  }

  lemma ApplyAges(maxLookups: nat, w: World, i: nat, step: Step)
    ensures Ages(w.state, Apply(maxLookups, w, i, step).state)
    ensures KeysValid(w.state) ==> KeysValid(Apply(maxLookups, w, i, step).state)
    ensures |Apply(maxLookups, w, i, step).state.snaps| > |w.state.snaps| ==>
      && step.CaptureStep? && step.event.Asked? && (step.event.sessionID, step.event.requestID) !in w.state.requests
      && Capture(w.state, step.event).1 == Some(|w.state.snaps|)
      && |Apply(maxLookups, w, i, step).state.snaps| == |w.state.snaps| + 1
  {
    hide Capture, Release, KeysValid;
    match step
    case CaptureStep(e) => CaptureAges(w.state, e);
    case ReleaseStep(n) => if n < |w.state.snaps| { ReleaseAges(w.state, n); }
    case _ =>
  }

  lemma AgesTransitive(s: State, s': State, s'': State)
    requires Ages(s, s') && Ages(s', s'')
    ensures Ages(s, s'')
  {
  }

  lemma {:induction false} RunAges(maxLookups: nat, run: seq<Step>, i: nat, j: nat)
    requires i <= j <= |run|
    ensures Ages(After(maxLookups, run, i).state, After(maxLookups, run, j).state)
    decreases j - i
  {
    hide Apply, Ages;
    var s := After(maxLookups, run, i).state;
    if i == j {
      AgesReflexive(s);
    } else {
      var w := After(maxLookups, run, j - 1);
      RunAges(maxLookups, run, i, j - 1);
      ApplyAges(maxLookups, w, j - 1, run[j - 1]);
      AgesTransitive(s, w.state, After(maxLookups, run, j).state);
    }
  }

  lemma AgesReflexive(s: State)
    ensures Ages(s, s)
  {
  }

  ghost predicate KeysValid(s: State) {
    forall n :: 0 <= n < |s.snaps| ==> ValidID(s.snaps[n].sessionID) && ValidID(s.snaps[n].requestID)
  }

  lemma NoKeys()
    ensures KeysValid(EMPTY)
  {
  }

  lemma {:induction false} AllKeysValid(maxLookups: nat, run: seq<Step>, i: nat)
    requires i <= |run|
    ensures KeysValid(After(maxLookups, run, i).state)
  {
    hide Apply, KeysValid;
    if i > 0 {
      AllKeysValid(maxLookups, run, i - 1);
      ApplyAges(maxLookups, After(maxLookups, run, i - 1), i - 1, run[i - 1]);
    } else {
      NoKeys();
    }
  }

  /** While a snapshot is active every further capture of its request shares it and its text. */
  lemma DuplicatesShare(maxLookups: nat, run: seq<Step>, k: nat, n: nat, questions: seq<Option<Text>>)
    requires k <= |run| && n < |After(maxLookups, run, k).state.snaps|
        && After(maxLookups, run, k).state.snaps[n].active
    ensures var s := After(maxLookups, run, k).state;
      var (s', got) := Ask(s, s.snaps[n].sessionID, s.snaps[n].requestID, questions);
      got == Some(n) && s'.requests == s.requests && s'.snaps[n].question == s.snaps[n].question
  {
    hide ValidID;
    Reachable(maxLookups, run, k);
    AllKeysValid(maxLookups, run, k);
  }
}
