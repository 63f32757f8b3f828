/** Which question an enrichment shows, over whole runs: its text, where it was captured, and what takes it away. */
module DisplayShown {
  import opened Options
  import opened DisplayText
  import opened DisplayModel
  import opened DisplayRuns
  import opened DisplayTurns

  // ----- the text of a question -----

  /** The texts with `20 b7 20`, a middle dot between spaces, between each two. */
  function Dotted(parts: seq<Text>): Text {
    if parts == [] then []
    else if |parts| == 1 then parts[0]
    else Dotted(parts[..|parts| - 1]) + [0x20, 0xb7, 0x20] + parts[|parts| - 1]
  }

  lemma {:induction false} JoinIsDotted(parts: seq<Text>)
    ensures Join(parts) == Dotted(parts)
  {
    if |parts| > 1 {
      var n := |parts| - 1;
      JoinIsDotted(parts[1..]);
      JoinLast(parts[..n], parts[n]);
      JoinIsDotted(parts[..n]);
      assert parts[..n] + [parts[n]] == parts;
    }
  }

  lemma {:induction false} JoinLast(parts: seq<Text>, last: Text)
    requires parts != []
    ensures Join(parts + [last]) == Join(parts) + [0x20, 0xb7, 0x20] + last
  {
    var all := parts + [last];
    assert all[1..] == parts[1..] + [last];
    if |parts| > 1 { JoinLast(parts[1..], last); } else { assert all[1..] == [last]; }
  }

  /** Question `i` is a string that cleans to `part`. */
  ghost predicate CleansTo(questions: seq<Option<Text>>, parts: seq<Text>, i: nat)
    requires |parts| == |questions|
  {
    i < |questions| ==> questions[i].Some? && parts[i] == CleanText(questions[i].value, 1024) != []
  }

  /** `text` is the cleaned questions, one to eight of them and none of them empty, within 2048 bytes. */
  ghost predicate Asks(questions: seq<Option<Text>>, parts: seq<Text>, text: Text) {
    && 1 <= |questions| <= 8 && |parts| == |questions| && (forall i: nat :: CleansTo(questions, parts, i))
    && text == Dotted(parts) && |Utf8(text)| <= 2048
  }

  lemma {:induction false} PartsAre(questions: seq<Option<Text>>)
    ensures |Parts(questions)| == |questions|
    ensures forall i :: 0 <= i < |questions| ==>
      Parts(questions)[i] == if questions[i].Some? then CleanText(questions[i].value, 1024) else []
  {
    if questions != [] { PartsAre(questions[1..]); }
  }

  /** A question has a text exactly when every one of its parts has, and they fit; then it is those parts. */
  lemma QuestionTextExactly(questions: seq<Option<Text>>, text: Text)
    ensures QuestionText(questions) == text != [] <==> text != [] && exists parts :: Asks(questions, parts, text)
  {
    var parts := Parts(questions);
    PartsAre(questions);
    JoinIsDotted(parts);
    BytesExactly(Join(parts));
    hide CleanText, ByteCount, Utf8, Join, Dotted, Parts;
    if QuestionText(questions) == text != [] {
      assert forall i :: 0 <= i < |parts| ==> parts[i] in parts;
      assert Asks(questions, parts, text);
    }
    if text != [] && exists p :: Asks(questions, p, text) {
      var p :| Asks(questions, p, text);
      forall i: nat | i < |p| ensures p[i] == parts[i] { assert CleansTo(questions, p, i); }
      assert p == parts;
      forall part | part in parts ensures part != [] {
        var i :| 0 <= i < |parts| && parts[i] == part;
        assert CleansTo(questions, p, i);
      }
    }
  }

  // ----- where a snapshot begins and ends -----

  /** Step `c` captures a question, and snapshot `n` is there only from then on. */
  ghost predicate Creates(maxLookups: nat, run: seq<Step>, c: nat, n: nat)
    requires c < |run|
  {
    run[c].CaptureStep? && run[c].event.Asked?
    && n == |After(maxLookups, run, c).state.snaps| < |After(maxLookups, run, c + 1).state.snaps|
  }

  /** Step `k` ends the life of snapshot `n`: an answer or rejection of its request, a new turn of its session, or
      the release of its last capture. */
  ghost predicate Invalidates(maxLookups: nat, run: seq<Step>, k: nat, n: nat)
    requires k < |run|
  {
    var w := After(maxLookups, run, k);
    n < |w.state.snaps| &&
    match run[k]
    case CaptureStep(Resolved(session, request)) =>
      session == w.state.snaps[n].sessionID && request == w.state.snaps[n].requestID
    case CaptureStep(UserMessage(session, _)) => session == w.state.snaps[n].sessionID && IsTurn(run, k, session)
    case ReleaseStep(m) => m == n && w.captured[n] == 1
    case _ => false
  }

  ghost predicate Active(s: State, n: int) { 0 <= n < |s.snaps| && s.snaps[n].active }

  ghost predicate Free(s: State, session: Text, request: Text) {
    forall i :: Active(s, i) ==> s.snaps[i].sessionID != session || s.snaps[i].requestID != request
  }

  lemma AskExactly(s: State, session: Text, request: Text, questions: seq<Option<Text>>)
    requires RegistryExact(s)
    ensures var (s', got) := Ask(s, session, request, questions);
      if SoundID(session) && SoundID(request) && (session, request) !in s.requests && |s.requests| < 512
      then s'.snaps == s.snaps + [Snapshot(session, request, QuestionText(questions), true, 1)]
      else |s'.snaps| == |s.snaps|
  {
    hide QuestionText, ValidID, SoundID;
    IDExactly(session);
    IDExactly(request);
  }

  lemma AskedIs(maxLookups: nat, w: World, i: nat, step: Step)
    requires step.CaptureStep? && step.event.Asked?
    ensures Apply(maxLookups, w, i, step).state
        == Ask(w.state, step.event.sessionID, step.event.requestID, step.event.questions).0
  {
    hide Ask;
  }

  /** A captured question makes a snapshot exactly when its ids are sound, no active snapshot has them and fewer than
      512 requests are registered; the snapshot is active and has the question's ids and text. */
  lemma CreatesExactly(maxLookups: nat, run: seq<Step>, c: nat, m: nat, n: nat)
    requires c < m == c + 1 <= |run| && run[c].CaptureStep? && run[c].event.Asked?
    ensures var s, s', e := After(maxLookups, run, c).state, After(maxLookups, run, m).state, run[c].event;
      && (Creates(maxLookups, run, c, n) <==>
          && n == |s.snaps| && SoundID(e.sessionID) && SoundID(e.requestID) && |s.requests| < 512
          && Free(s, e.sessionID, e.requestID))
      && (Creates(maxLookups, run, c, n) ==>
          && n < |s'.snaps|
          && s'.snaps[n] == Snapshot(e.sessionID, e.requestID, QuestionText(e.questions), true, 1))
  {
    var w, e := After(maxLookups, run, c), run[c].event;
    Reachable(maxLookups, run, c);
    AskedIs(maxLookups, w, c, run[c]);
    assert After(maxLookups, run, m) == Apply(maxLookups, w, c, run[c]);
    AskExactly(w.state, e.sessionID, e.requestID, e.questions);
    hide After, Apply, Ask, QuestionText, SoundID, ObserversCounted, Bounded, Distinct;
    if (e.sessionID, e.requestID) in w.state.requests {
      var i := w.state.requests[(e.sessionID, e.requestID)];
      assert KeyOf(w.state.snaps[i]) == (e.sessionID, e.requestID);
    }
  }

  lemma {:induction false} SnapshotsAreCreated(maxLookups: nat, run: seq<Step>, i: nat, n: nat) returns (c: nat)
    requires i <= |run| && n < |After(maxLookups, run, i).state.snaps|
    ensures c < i && Creates(maxLookups, run, c, n)
  {
    hide Apply, Capture, KeysValid, Ages;
    var w := After(maxLookups, run, i - 1);
    ApplyAges(maxLookups, w, i - 1, run[i - 1]);
    if n < |w.state.snaps| { c := SnapshotsAreCreated(maxLookups, run, i - 1, n); } else { c := i - 1; }
  }

  lemma AnswerDeactivates(s: State, session: Text, request: Text, n: nat)
    requires RegistryExact(s) && KeysValid(s) && Active(s, n)
    ensures Active(Resolve(s, session, request), n)
       <==> session != s.snaps[n].sessionID || request != s.snaps[n].requestID
  {
    hide ValidID;
  }

  lemma ReleaseDeactivates(s: State, captured: multiset<nat>, m: nat, n: nat)
    requires ObserversCounted(s, captured) && Active(s, n) && m < |s.snaps|
    ensures Active(Release(s, m), n) <==> m != n || captured[n] != 1
  {
    ReleaseSparesOthers(s, m);
    assert m == n ==> Release(s, m).snaps[n].active == (captured[n] > 1);
  }

  lemma AskSpares(s: State, session: Text, request: Text, questions: seq<Option<Text>>, n: nat)
    requires Active(s, n)
    ensures Active(Ask(s, session, request, questions).0, n)
  {
    hide ValidID, QuestionText;
  }

  lemma TurnDeactivates(maxLookups: nat, run: seq<Step>, k: nat, m: nat, n: nat)
    requires k < m == k + 1 <= |run| && run[k].CaptureStep? && run[k].event.UserMessage?
    requires Active(After(maxLookups, run, k).state, n)
    ensures Active(After(maxLookups, run, m).state, n) <==> !Invalidates(maxLookups, run, k, n)
  {
    TurnExactly(maxLookups, run, k, m);
    hide After, IsTurn;
  }

  lemma StateAfter(maxLookups: nat, run: seq<Step>, k: nat, m: nat)
    requires k < m == k + 1 <= |run|
    ensures var w, s' := After(maxLookups, run, k), After(maxLookups, run, m).state;
      match run[k]
      case CaptureStep(e) => s' == Capture(w.state, e).0
      case ReleaseStep(n) => s' == if w.captured[n] > 0 && n < |w.state.snaps| then Release(w.state, n) else w.state
      case _ => s' == w.state
  {
    hide Capture, Release, LookupFor, Proceeds;
  }

  /** One step leaves an active snapshot active exactly when it does not invalidate it. */
  lemma StaysActive(maxLookups: nat, run: seq<Step>, k: nat, m: nat, n: nat)
    requires k < m == k + 1 <= |run| && Active(After(maxLookups, run, k).state, n)
    ensures Active(After(maxLookups, run, m).state, n) <==> !Invalidates(maxLookups, run, k, n)
  {
    var w := After(maxLookups, run, k);
    Reachable(maxLookups, run, k);
    AllKeysValid(maxLookups, run, k);
    StateAfter(maxLookups, run, k, m);
    hide After, NewTurn, Resolve, Release, Ask, IsTurn, RegistryExact, ObserversCounted, Bounded, Distinct, KeysValid;
    match run[k]
    case CaptureStep(UserMessage(_, _)) => TurnDeactivates(maxLookups, run, k, m, n);
    case CaptureStep(Resolved(session, request)) => AnswerDeactivates(w.state, session, request, n);
    case CaptureStep(Asked(session, request, questions)) => AskSpares(w.state, session, request, questions, n);
    case ReleaseStep(x) => if x < |w.state.snaps| { ReleaseDeactivates(w.state, w.captured, x, n); }
    case _ =>
  }

  /** A snapshot is active exactly as long as no step since its creation has invalidated it. */
  lemma {:induction false} ActiveExactly(maxLookups: nat, run: seq<Step>, c: nat, j: nat, n: nat)
    requires c < j <= |run| && Creates(maxLookups, run, c, n)
    ensures Active(After(maxLookups, run, j).state, n)
       <==> forall k :: c < k < j ==> !Invalidates(maxLookups, run, k, n)
  {
    hide After, Creates, Invalidates, Active;
    if j == c + 1 {
      CreatedActive(maxLookups, run, c, j, n);
    } else {
      ActiveExactly(maxLookups, run, c, j - 1, n);
      if Active(After(maxLookups, run, j - 1).state, n) {
        StaysActive(maxLookups, run, j - 1, j, n);
      } else {
        CreatedActive(maxLookups, run, c, c + 1, n);
        StaysInactive(maxLookups, run, c + 1, j - 1, j, n);
      }
    }
  }

  lemma CreatedActive(maxLookups: nat, run: seq<Step>, c: nat, m: nat, n: nat)
    requires c < m == c + 1 <= |run| && Creates(maxLookups, run, c, n)
    ensures Active(After(maxLookups, run, m).state, n)
  {
    CreatesExactly(maxLookups, run, c, m, n);
    hide After, Creates;
  }

  lemma StaysInactive(maxLookups: nat, run: seq<Step>, b: nat, i: nat, j: nat, n: nat)
    requires b <= i <= j <= |run| && Active(After(maxLookups, run, b).state, n)
    requires !Active(After(maxLookups, run, i).state, n)
    ensures !Active(After(maxLookups, run, j).state, n)
  {
    RunAges(maxLookups, run, b, i);
    RunAges(maxLookups, run, i, j);
    hide After;
  }

  // ----- what an enrichment shows -----

  /** The enrichment resumed at step `j` shows `text`. */
  ghost predicate Shows(maxLookups: nat, run: seq<Step>, j: nat, text: Text)
    requires j < |run|
  {
    var w := After(maxLookups, run, j);
    run[j].FinishStep? && Enabled(w, run[j]) && Emitted(w.state, w.pending[run[j].begun].snapshot) == text != []
  }

  /** The enrichment begun at step `b` waits for its title before step `i`. */
  ghost predicate Waits(run: seq<Step>, b: nat, i: nat)
    requires i <= |run|
  {
    b < i && run[b].BeginStep? && run[b].fact.rootSession && SoundID(run[b].fact.sessionID)
    && forall k :: b < k < i ==> run[k] != FinishStep(b)
  }

  lemma {:induction false} PendingExactly(maxLookups: nat, run: seq<Step>, i: nat, b: nat)
    requires i <= |run|
    ensures var p := After(maxLookups, run, i).pending;
      && (b in p <==> Waits(run, b, i))
      && (b in p ==> p[b] == Pending(run[b].fact, LookupFor(After(maxLookups, run, b).state, run[b].fact)))
  {
    hide ValidID, SoundID, LookupFor, Capture, Release;
    if i > 0 {
      PendingExactly(maxLookups, run, i - 1, b);
      if run[i - 1].BeginStep? { IDExactly(run[i - 1].fact.sessionID); }
    }
  }

  /** At step `j` the enrichment begun at step `b` is resumed; step `c` captured the question it asks about, and the
      snapshot `n` which that made has not been invalidated since. */
  ghost predicate Warrants(maxLookups: nat, run: seq<Step>, c: nat, b: nat, j: nat, n: nat, text: Text)
    requires j < |run|
  {
    && c < b < j && run[j] == FinishStep(b) && Waits(run, b, j) && run[b].fact.asksQuestion
    && Creates(maxLookups, run, c, n)
    && run[c].event.sessionID == run[b].fact.sessionID && run[c].event.requestID == run[b].fact.requestID
    && QuestionText(run[c].event.questions) == text != []
    && forall k :: c < k < j ==> !Invalidates(maxLookups, run, k, n)
  }

  lemma LookupExactly(s: State, f: Fact, n: nat)
    requires RegistryExact(s) && KeysValid(s) && Active(s, n)
    ensures LookupFor(s, f) == Some(n)
       <==> f.asksQuestion && f.sessionID == s.snaps[n].sessionID && f.requestID == s.snaps[n].requestID
  {
    hide ValidID;
  }

  lemma CreatedKept(maxLookups: nat, run: seq<Step>, c: nat, b: nat, n: nat)
    requires c < b <= |run| && Creates(maxLookups, run, c, n)
    ensures var e, s := run[c].event, After(maxLookups, run, b).state;
      && n < |s.snaps| && s.snaps[n].question == QuestionText(e.questions)
      && s.snaps[n].sessionID == e.sessionID && s.snaps[n].requestID == e.requestID
  {
    hide After, QuestionText, SoundID, Free;
    CreatesExactly(maxLookups, run, c, c + 1, n);
    RunAges(maxLookups, run, c + 1, b);
  }

  lemma BeginsWith(maxLookups: nat, run: seq<Step>, b: nat, c: nat, n: nat)
    requires c < b < |run| && run[b].BeginStep? && Creates(maxLookups, run, c, n)
    requires Active(After(maxLookups, run, b).state, n)
    ensures var f, e, s := run[b].fact, run[c].event, After(maxLookups, run, b).state;
      LookupFor(s, f) == Some(n) <==> f.asksQuestion && f.sessionID == e.sessionID && f.requestID == e.requestID
  {
    hide After, Creates, LookupFor, QuestionText, Active, KeysValid;
    CreatedKept(maxLookups, run, c, b, n);
    Reachable(maxLookups, run, b);
    AllKeysValid(maxLookups, run, b);
    LookupExactly(After(maxLookups, run, b).state, run[b].fact, n);
  }

  /** A resumed enrichment shows a text exactly when it is the text of the question that the fact asks about, captured
      before the lookup and not answered, superseded or released since. */
  lemma ShownExactly(maxLookups: nat, run: seq<Step>, j: nat, text: Text)
    requires j < |run|
    ensures Shows(maxLookups, run, j, text)
       <==> exists c: nat, b: nat, n: nat :: Warrants(maxLookups, run, c, b, j, n, text)
  {
    if Shows(maxLookups, run, j, text) {
      var c, n := ShownWarranted(maxLookups, run, j, text);
    }
    forall c: nat, b: nat, n: nat | Warrants(maxLookups, run, c, b, j, n, text)
      ensures Shows(maxLookups, run, j, text)
    {
      WarrantedShown(maxLookups, run, c, b, j, n, text);
    }
  }

  lemma WarrantedShown(maxLookups: nat, run: seq<Step>, c: nat, b: nat, j: nat, n: nat, text: Text)
    requires j < |run| && Warrants(maxLookups, run, c, b, j, n, text)
    ensures Shows(maxLookups, run, j, text)
  {
    hide After, Creates, Invalidates, QuestionText, LookupFor;
    ActiveExactly(maxLookups, run, c, b, n);
    ActiveExactly(maxLookups, run, c, j, n);
    BeginsWith(maxLookups, run, b, c, n);
    CreatedKept(maxLookups, run, c, j, n);
    PendingExactly(maxLookups, run, j, b);
    RunAges(maxLookups, run, b, j);
  }

  lemma ShownWarranted(maxLookups: nat, run: seq<Step>, j: nat, text: Text) returns (c: nat, n: nat)
    requires j < |run| && Shows(maxLookups, run, j, text)
    ensures Warrants(maxLookups, run, c, run[j].begun, j, n, text)
  {
    hide After, Creates, Invalidates, QuestionText, LookupFor;
    var b := run[j].begun;
    PendingExactly(maxLookups, run, j, b);
    n := After(maxLookups, run, j).pending[b].snapshot.value;
    Reachable(maxLookups, run, b);
    LookupIsOld(maxLookups, run, b, n);
    c := SnapshotsAreCreated(maxLookups, run, b, n);
    RunAges(maxLookups, run, b, j);
    ActiveExactly(maxLookups, run, c, j, n);
    CreatedKept(maxLookups, run, c, j, n);
    BeginsWith(maxLookups, run, b, c, n);
  }

  lemma LookupIsOld(maxLookups: nat, run: seq<Step>, b: nat, n: nat)
    requires b < |run| && run[b].BeginStep?
    requires LookupFor(After(maxLookups, run, b).state, run[b].fact) == Some(n)
    ensures Active(After(maxLookups, run, b).state, n)
  {
    Reachable(maxLookups, run, b);
    hide After, ValidID;
  }
}
