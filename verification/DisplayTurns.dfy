/** Which user messages count as a new turn, over whole runs.

    The program keeps one bounded map and one bounded set and drops their oldest entries. Here nothing is ever
    dropped: `accepted` lists all turns taken so far, `entered` the sessions in the order in which they took a place
    in the map. The two are proved to decide alike. */
module DisplayTurns {
  import opened Options
  import opened DisplayText
  import opened DisplayModel
  import opened DisplayRuns

  datatype History = History(accepted: seq<(Text, Text)>, entered: seq<Text>)

  /** The last 512 of a list. */
  function Recent<T>(s: seq<T>): (r: seq<T>)
    ensures |r| <= |s| && |r| <= 512
  {
    if |s| <= 512 then s else s[|s| - 512..]
  }

  /** The latest turn that `session` took is `id`. */
  ghost predicate Latest(turns: seq<(Text, Text)>, session: Text, id: Text) {
    exists a :: 0 <= a < |turns| && turns[a] == (session, id) && forall b :: a < b < |turns| ==> turns[b].0 != session
  }

  ghost predicate StartsTurn(h: History, session: Text, id: Text) {
    && SoundID(session) && SoundID(id)
    && (session, id) !in Recent(h.accepted)
    && !(session in Recent(h.entered) && Latest(h.accepted, session, id))
  }

  ghost function Take(h: History, session: Text, id: Text): History {
    History(h.accepted + [(session, id)], if session in Recent(h.entered) then h.entered else h.entered + [session])
  }

  ghost function HistoryOf(run: seq<Step>, i: nat): History
    requires i <= |run|
  {
    if i == 0 then History([], [])
    else
      var h := HistoryOf(run, i - 1);
      match run[i - 1]
      case CaptureStep(UserMessage(session, id)) => if StartsTurn(h, session, id) then Take(h, session, id) else h
      case _ => h
  }

  predicate Captures(step: Step, session: Text, id: Text) { step == CaptureStep(UserMessage(session, id)) }

  /** Step `k` captures a user message that starts a new turn of `session`. */
  ghost predicate IsTurn(run: seq<Step>, k: nat, session: Text)
    requires k < |run|
  {
    && run[k].CaptureStep? && run[k].event.UserMessage? && run[k].event.sessionID == session
    && StartsTurn(HistoryOf(run, k), session, run[k].event.messageID)
  }

  // ----- the bounded collections remember what they must -----

  ghost predicate Remembers(s: State, h: History) {
    && s.seenTurns == Recent(h.accepted)
    && |s.turns| == |Recent(h.entered)|
    && forall i :: 0 <= i < |s.turns|
        ==> s.turns[i].0 == Recent(h.entered)[i] && Latest(h.accepted, s.turns[i].0, s.turns[i].1)
  }

  lemma RecentGrows<T>(s: seq<T>, x: T)
    ensures Recent(s + [x]) == DropOldest(Recent(s) + [x])
  {
  }

  lemma {:induction false} TurnOfExactly(turns: seq<(Text, Text)>, session: Text, id: Text)
    requires Distinct(turns)
    ensures TurnOf(turns, session) == Some(id) <==> (session, id) in turns
  {
    if turns != [] {
      TurnOfExactly(turns[1..], session, id);
      assert turns == [turns[0]] + turns[1..];
      assert turns[0].0 == session ==> forall i :: 0 <= i < |turns[1..]| ==> turns[1..][i].0 != session;
    }
  }

  ghost predicate SetAt(turns: seq<(Text, Text)>, session: Text, id: Text, i: nat) {
    i < |turns| && turns[i].0 == session && SetTurn(turns, session, id) == turns[i := (session, id)]
  }

  lemma {:induction false} SetTurnExactly(turns: seq<(Text, Text)>, session: Text, id: Text)
    ensures if exists t :: t in turns && t.0 == session then exists i: nat :: SetAt(turns, session, id, i)
            else SetTurn(turns, session, id) == turns + [(session, id)]
  {
    if turns != [] {
      assert turns == [turns[0]] + turns[1..];
      if turns[0].0 == session {
        assert SetAt(turns, session, id, 0);
      } else {
        SetTurnExactly(turns[1..], session, id);
        if exists t :: t in turns && t.0 == session {
          var t :| t in turns && t.0 == session;
          assert t in turns[1..];
          var i: nat :| SetAt(turns[1..], session, id, i);
          assert SetAt(turns, session, id, i + 1);
        }
      }
    }
  }

  lemma LatestGrows(turns: seq<(Text, Text)>, session: Text, id: Text, other: Text, last: Text)
    ensures Latest(turns + [(session, id)], session, id)
    ensures other != session && Latest(turns, other, last) ==> Latest(turns + [(session, id)], other, last)
  {
    var more := turns + [(session, id)];
    assert more[|turns|] == (session, id);
    if other != session && Latest(turns, other, last) {
      var a :| 0 <= a < |turns| && turns[a] == (other, last) && forall b :: a < b < |turns| ==> turns[b].0 != other;
      assert more[a] == (other, last);
    }
  }

  lemma LatestUnique(turns: seq<(Text, Text)>, session: Text, a: Text, b: Text)
    requires Latest(turns, session, a) && Latest(turns, session, b)
    ensures a == b
  {
  }

  /** The map and the set decide as the full history does. */
  lemma AcceptsExactly(s: State, h: History, session: Text, id: Text)
    requires Remembers(s, h) && Distinct(s.turns)
    ensures AcceptsTurn(s, session, id) <==> StartsTurn(h, session, id)
  {
    hide ValidID, SoundID, Latest, Recent;
    IDExactly(session);
    IDExactly(id);
    TurnOfExactly(s.turns, session, id);
    if session in Recent(h.entered) && Latest(h.accepted, session, id) {
      var i :| 0 <= i < |s.turns| && Recent(h.entered)[i] == session;
      LatestUnique(h.accepted, session, id, s.turns[i].1);
      assert s.turns[i] == (session, id);
    }
  }

  lemma PlaceKept(turns: seq<(Text, Text)>, entered: seq<Text>, session: Text, id: Text)
    requires |turns| == |Recent(entered)| && Distinct(turns)
    requires forall i :: 0 <= i < |turns| ==> turns[i].0 == Recent(entered)[i]
    ensures var more, after := DropOldest(SetTurn(turns, session, id)),
                               if session in Recent(entered) then entered else entered + [session];
      && |more| == |Recent(after)| && (forall i :: 0 <= i < |more| ==> more[i].0 == Recent(after)[i])
      && forall t :: t in more ==> t == (session, id) || (t in turns && t.0 != session)
  {
    hide SetTurn;
    SetTurnExactly(turns, session, id);
    RecentGrows(entered, session);
    if session in Recent(entered) {
      var i :| 0 <= i < |turns| && Recent(entered)[i] == session;
      assert turns[i] in turns;
    }
  }

  lemma TakeRemembers(s: State, h: History, session: Text, id: Text)
    requires Remembers(s, h) && Distinct(s.turns) && AcceptsTurn(s, session, id)
    ensures Remembers(NewTurn(s, session, id), Take(h, session, id))
  {
    var s', h' := NewTurn(s, session, id), Take(h, session, id);
    RecentGrows(h.accepted, (session, id));
    PlaceKept(s.turns, h.entered, session, id);
    hide AcceptsTurn, SetTurn, OfSession, Deactivate, Latest, DropOldest, Recent;
    forall i | 0 <= i < |s'.turns| ensures Latest(h'.accepted, s'.turns[i].0, s'.turns[i].1) {
      assert s'.turns[i] in s'.turns;
      LatestGrows(h.accepted, session, id, s'.turns[i].0, s'.turns[i].1);
    }
  }

  lemma StepRemembers(maxLookups: nat, w: World, i: nat, step: Step, h: History)
    requires Remembers(w.state, h) && Distinct(w.state.turns)
    ensures match step
            case CaptureStep(UserMessage(session, id)) =>
              Remembers(Apply(maxLookups, w, i, step).state,
                        if StartsTurn(h, session, id) then Take(h, session, id) else h)
            case _ => Remembers(Apply(maxLookups, w, i, step).state, h)
  {
    hide AcceptsTurn, StartsTurn, Distinct, Take, Latest, Recent;
    match step
    case CaptureStep(UserMessage(session, id)) =>
      AcceptsExactly(w.state, h, session, id);
      if AcceptsTurn(w.state, session, id) { TakeRemembers(w.state, h, session, id); }
    case _ =>
  }

  lemma NothingYet()
    ensures Remembers(EMPTY, History([], []))
  {
  }

  lemma {:induction false} RunRemembers(maxLookups: nat, run: seq<Step>, i: nat)
    requires i <= |run|
    ensures Remembers(After(maxLookups, run, i).state, HistoryOf(run, i))
    ensures Distinct(After(maxLookups, run, i).state.turns)
  {
    hide Apply, StartsTurn, Take, Remembers;
    Reachable(maxLookups, run, i);
    if i > 0 {
      RunRemembers(maxLookups, run, i - 1);
      StepRemembers(maxLookups, After(maxLookups, run, i - 1), i - 1, run[i - 1], HistoryOf(run, i - 1));
    } else {
      NothingYet();
    }
  }

  // ----- what a capture of a user message does -----

  ghost predicate Registered(s: State, session: Text, request: Text, n: nat) {
    (session, request) in s.requests && s.requests[(session, request)] == n
  }

  /** The session's snapshots are all inactive and none of its requests is registered; other sessions keep theirs. */
  ghost predicate Cleared(s: State, s': State, session: Text) {
    && |s'.snaps| == |s.snaps|
    && (forall n :: 0 <= n < |s.snaps|
          ==> s'.snaps[n] == if s.snaps[n].sessionID == session then s.snaps[n].(active := false) else s.snaps[n])
    && (forall other, request, n ::
          Registered(s', other, request, n) <==> other != session && Registered(s, other, request, n))
  }

  lemma DropOldestKeepsLast<T>(s: seq<T>, x: T)
    ensures x in DropOldest(s + [x])
  {
    var r := DropOldest(s + [x]);
    assert r[|r| - 1] == x;
  }

  lemma NewTurnClears(s: State, session: Text, id: Text)
    requires RegistryExact(s) && AcceptsTurn(s, session, id)
    ensures NewTurn(s, session, id) != s && Cleared(s, NewTurn(s, session, id), session)
  {
    TurnSparesOthers(s, session, id);
    DropOldestKeepsLast(s.seenTurns, (session, id));
    assert (session, id) in NewTurn(s, session, id).seenTurns by { hide OfSession, SetTurn, DropOldest; }
    hide AcceptsTurn, NewTurn, RegistryExact;
  }

  /** A user message takes its session's questions out of play exactly when it starts a turn, and changes nothing
      otherwise. */
  lemma TurnExactly(maxLookups: nat, run: seq<Step>, k: nat, m: nat)
    requires k < m == k + 1 <= |run| && run[k].CaptureStep? && run[k].event.UserMessage?
    ensures var s, s' := After(maxLookups, run, k).state, After(maxLookups, run, m).state;
            if IsTurn(run, k, run[k].event.sessionID) then s' != s && Cleared(s, s', run[k].event.sessionID)
            else After(maxLookups, run, m) == After(maxLookups, run, k)
  {
    hide AcceptsTurn, StartsTurn, Remembers, Distinct, ObserversCounted, Bounded, RegistryExact, Cleared, HistoryOf;
    var w, session, id := After(maxLookups, run, k), run[k].event.sessionID, run[k].event.messageID;
    Reachable(maxLookups, run, k);
    RunRemembers(maxLookups, run, k);
    AcceptsExactly(w.state, HistoryOf(run, k), session, id);
    if AcceptsTurn(w.state, session, id) { NewTurnClears(w.state, session, id); }
    assert After(maxLookups, run, m).state == NewTurn(w.state, session, id) by { hide NewTurn; }
  }

  /** An earlier step of the run captured this very message. */
  ghost predicate CapturedBefore(run: seq<Step>, k: nat, session: Text, id: Text)
    requires k <= |run|
  {
    exists i :: 0 <= i < k && Captures(run[i], session, id)
  }

  lemma {:induction false} TakenWasCaptured(run: seq<Step>, k: nat, session: Text, id: Text)
    requires k <= |run| && (session, id) in HistoryOf(run, k).accepted
    ensures CapturedBefore(run, k, session, id)
  {
    hide StartsTurn, Recent;
    if k > 0 {
      if (session, id) in HistoryOf(run, k - 1).accepted {
        TakenWasCaptured(run, k - 1, session, id);
        var i :| 0 <= i < k - 1 && Captures(run[i], session, id);
      } else {
        assert Captures(run[k - 1], session, id);
      }
    }
  }

  /** A message captured for the first time leaves no snapshot of its session active or registered. */
  lemma NewMessageClears(maxLookups: nat, run: seq<Step>, k: nat, m: nat, session: Text, id: Text)
    requires k < m == k + 1 <= |run| && run[k] == CaptureStep(UserMessage(session, id))
    requires SoundID(session) && SoundID(id) && !CapturedBefore(run, k, session, id)
    ensures IsTurn(run, k, session)
    ensures var s := After(maxLookups, run, m).state;
      && (forall n :: 0 <= n < |s.snaps| && s.snaps[n].active ==> s.snaps[n].sessionID != session)
      && (forall key :: key in s.requests ==> key.0 != session)
  {
    hide SoundID;
    var h := HistoryOf(run, k);
    if (session, id) in h.accepted { TakenWasCaptured(run, k, session, id); }
    assert IsTurn(run, k, session) by { hide HistoryOf, CapturedBefore; }
    TurnExactly(maxLookups, run, k, m);
    var s' := After(maxLookups, run, m).state;
    hide After, IsTurn, HistoryOf;
    forall key | key in s'.requests ensures key.0 != session {
      assert Registered(s', key.0, key.1, s'.requests[key]);
    }
  }

  /** The messages captured by the steps from `j` up to `k`. */
  ghost function CapturedIn(run: seq<Step>, j: nat, k: nat): set<(Text, Text)>
    requires j <= k <= |run|
  {
    set i | j <= i < k && run[i].CaptureStep? && run[i].event.UserMessage?
      :: (run[i].event.sessionID, run[i].event.messageID)
  }

  ghost predicate NoRepeat<T>(s: seq<T>) { forall i, j :: 0 <= i < j < |s| ==> s[i] != s[j] }

  lemma {:induction false} NoRepeatSize<T>(s: seq<T>, all: set<T>)
    requires NoRepeat(s) && forall x :: x in s ==> x in all
    ensures |s| <= |all|
  {
    if s != [] {
      var last := s[|s| - 1];
      assert last in s;
      forall x | x in s[..|s| - 1] ensures x in all - {last} { assert x in s; }
      NoRepeatSize(s[..|s| - 1], all - {last});
    }
  }

  /** What was taken since step `j`, each message once as long as fewer than 512 different ones were captured. */
  ghost predicate TakenSince(run: seq<Step>, j: nat, k: nat, since: seq<(Text, Text)>)
    requires j < k <= |run|
  {
    && (exists before :: HistoryOf(run, k).accepted == before + since)
    && since != [] && run[j].CaptureStep? && run[j].event.UserMessage?
    && since[0] == (run[j].event.sessionID, run[j].event.messageID)
    && NoRepeat(since) && forall x :: x in since[1..] ==> x in CapturedIn(run, j + 1, k)
  }

  lemma LastAreRecent<T>(before: seq<T>, since: seq<T>)
    requires |since| <= 512
    ensures forall x :: x in since ==> x in Recent(before + since)
  {
    var all, r := before + since, Recent(before + since);
    assert r == all[|all| - |r|..];
    forall x | x in since ensures x in r {
      var i :| 0 <= i < |since| && since[i] == x;
      assert r[|r| - |since| + i] == x;
    }
  }

  lemma SinceBounded(run: seq<Step>, j: nat, k: nat, since: seq<(Text, Text)>)
    requires j < k <= |run| && TakenSince(run, j, k, since) && |CapturedIn(run, j + 1, k)| < 512
    ensures |since| <= 512
  {
    hide HistoryOf, CapturedIn;
    assert NoRepeat(since[1..]);
    NoRepeatSize(since[1..], CapturedIn(run, j + 1, k));
  }

  lemma SinceIsRecent(run: seq<Step>, j: nat, k: nat, since: seq<(Text, Text)>)
    requires j < k <= |run| && TakenSince(run, j, k, since) && |CapturedIn(run, j + 1, k)| < 512
    ensures forall x :: x in since ==> x in Recent(HistoryOf(run, k).accepted)
  {
    hide HistoryOf, CapturedIn, NoRepeat, Recent;
    SinceBounded(run, j, k, since);
    var before :| HistoryOf(run, k).accepted == before + since;
    LastAreRecent(before, since);
  }

  lemma SinceTaken(run: seq<Step>, j: nat, k: nat, m: nat, since: seq<(Text, Text)>) returns (more: seq<(Text, Text)>)
    requires j < k < m == k + 1 <= |run| && TakenSince(run, j, k, since)
    requires forall x :: x in since ==> x in Recent(HistoryOf(run, k).accepted)
    ensures TakenSince(run, j, m, more)
  {
    hide SoundID, Latest, Recent;
    var before :| HistoryOf(run, k).accepted == before + since;
    assert CapturedIn(run, j + 1, k) <= CapturedIn(run, j + 1, m);
    if HistoryOf(run, m).accepted == HistoryOf(run, k).accepted {
      more := since;
    } else {
      var taken := (run[k].event.sessionID, run[k].event.messageID);
      more := since + [taken];
      assert taken in CapturedIn(run, j + 1, m) && taken !in since;
      hide CapturedIn;
      assert more[1..] == since[1..] + [taken];
      assert HistoryOf(run, m).accepted == before + more;
    }
  }

  lemma MoreCaptured(run: seq<Step>, j: nat, k: nat, m: nat)
    requires j <= k <= m <= |run|
    ensures |CapturedIn(run, j, k)| <= |CapturedIn(run, j, m)|
  {
    SubsetSize(CapturedIn(run, j, k), CapturedIn(run, j, m));
  }

  lemma SinceStarts(run: seq<Step>, j: nat, k: nat, session: Text) returns (since: seq<(Text, Text)>)
    requires j < k == j + 1 <= |run| && IsTurn(run, j, session)
    ensures TakenSince(run, j, k, since)
  {
    hide StartsTurn, CapturedIn;
    since := [(session, run[j].event.messageID)];
    assert HistoryOf(run, k).accepted == HistoryOf(run, j).accepted + since;
  }

  lemma {:induction false} SinceGrows(run: seq<Step>, j: nat, k: nat, session: Text) returns (since: seq<(Text, Text)>)
    requires j < k <= |run| && IsTurn(run, j, session) && |CapturedIn(run, j + 1, k)| < 512
    ensures TakenSince(run, j, k, since)
  {
    hide *;
    if k == j + 1 {
      since := SinceStarts(run, j, k, session);
    } else {
      MoreCaptured(run, j + 1, k - 1, k);
      var less := SinceGrows(run, j, k - 1, session);
      SinceIsRecent(run, j, k - 1, less);
      since := SinceTaken(run, j, k - 1, k, less);
    }
  }

  /** A message that started a turn is ignored when it is captured again before 512 others were. */
  lemma RecentMessageIgnored(maxLookups: nat, run: seq<Step>, j: nat, k: nat, m: nat, session: Text)
    requires j < k < m == k + 1 <= |run| && IsTurn(run, j, session) && run[k] == run[j]
    requires |CapturedIn(run, j + 1, k)| < 512
    ensures After(maxLookups, run, m) == After(maxLookups, run, k)
  {
    var since := SinceGrows(run, j, k, session);
    SinceIsRecent(run, j, k, since);
    TurnExactly(maxLookups, run, k, m);
    assert since[0] in since;
    assert !IsTurn(run, k, session) by { hide Recent, HistoryOf, After, TakenSince, CapturedIn; }
    hide *;
  }

  // ----- the map of sessions -----

  ghost function SessionsIn(run: seq<Step>, k: nat): set<Text>
    requires k <= |run|
  {
    set i | 0 <= i < k && run[i].CaptureStep? && run[i].event.UserMessage? :: run[i].event.sessionID
  }

  lemma {:induction false} EnteredOnce(run: seq<Step>, k: nat)
    requires k <= |run| && |SessionsIn(run, k)| <= 512
    ensures NoRepeat(HistoryOf(run, k).entered) && |HistoryOf(run, k).entered| <= 512
    ensures forall x :: x in HistoryOf(run, k).entered ==> x in SessionsIn(run, k)
  {
    hide StartsTurn, NoRepeat;
    if k > 0 {
      assert SessionsIn(run, k - 1) <= SessionsIn(run, k);
      SubsetSize(SessionsIn(run, k - 1), SessionsIn(run, k));
      EnteredOnce(run, k - 1);
      EnteredGrows(HistoryOf(run, k - 1).entered, HistoryOf(run, k).entered);
    } else {
      assert NoRepeat(HistoryOf(run, k).entered) by { NoRepeatNone<Text>(); }
    }
    NoRepeatSize(HistoryOf(run, k).entered, SessionsIn(run, k));
  }

  lemma EnteredGrows(entered: seq<Text>, more: seq<Text>)
    requires NoRepeat(entered) && |entered| <= 512
    requires more == entered || exists x :: x !in Recent(entered) && more == entered + [x]
    ensures NoRepeat(more)
  {
  }

  lemma NoRepeatNone<T>()
    ensures NoRepeat<T>([])
  {
  }

  lemma {:induction false} LatestKept(run: seq<Step>, j: nat, k: nat, session: Text)
    requires j < k <= |run| && IsTurn(run, j, session) && |SessionsIn(run, k)| <= 512
    requires forall i, id :: j < i < k ==> !Captures(run[i], session, id)
    ensures session in HistoryOf(run, k).entered
    ensures Latest(HistoryOf(run, k).accepted, session, run[j].event.messageID)
  {
    hide StartsTurn, Latest, HistoryOf, SessionsIn;
    HistoryStep(run, k - 1, k);
    var h := HistoryOf(run, k - 1);
    if k == j + 1 {
      LatestGrows(h.accepted, session, run[j].event.messageID, session, []);
    } else {
      MoreSessions(run, k - 1, k);
      LatestKept(run, j, k - 1, session);
      if run[k - 1].CaptureStep? && run[k - 1].event.UserMessage? {
        var e := run[k - 1].event;
        assert !Captures(run[k - 1], session, e.messageID);
        LatestGrows(h.accepted, e.sessionID, e.messageID, session, run[j].event.messageID);
      }
    }
  }

  lemma HistoryStep(run: seq<Step>, k: nat, m: nat)
    requires k < m == k + 1 <= |run|
    ensures var h, h' := HistoryOf(run, k), HistoryOf(run, m);
      match run[k]
      case CaptureStep(UserMessage(session, id)) =>
        if !StartsTurn(h, session, id) then h' == h
        else h'.accepted == h.accepted + [(session, id)] && session in h'.entered
             && (h'.entered == h.entered || h'.entered == h.entered + [session])
      case _ => h' == h
  {
    hide StartsTurn;
  }

  lemma MoreSessions(run: seq<Step>, k: nat, m: nat)
    requires k <= m <= |run|
    ensures |SessionsIn(run, k)| <= |SessionsIn(run, m)|
  {
    SubsetSize(SessionsIn(run, k), SessionsIn(run, m));
  }

  /** The latest turn of a session is ignored when it is captured again, however many turns other sessions took, as
      long as there were at most 512 sessions. */
  lemma LatestMessageIgnored(maxLookups: nat, run: seq<Step>, j: nat, k: nat, m: nat, session: Text)
    requires j < k < m == k + 1 <= |run| && IsTurn(run, j, session) && run[k] == run[j]
    requires |SessionsIn(run, k)| <= 512
    requires forall i, id :: j < i < k ==> !Captures(run[i], session, id)
    ensures After(maxLookups, run, m) == After(maxLookups, run, k)
  {
    LatestKept(run, j, k, session);
    EnteredOnce(run, k);
    TurnExactly(maxLookups, run, k, m);
    assert !IsTurn(run, k, session) by { hide HistoryOf, After, SessionsIn, Latest, NoRepeat; }
    hide *;
  }
}
