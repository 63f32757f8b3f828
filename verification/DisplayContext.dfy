/** `createDisplayContext` of opencode-plugin/display.ts over the program's own shared snapshot objects.

    Each method is one synchronous stretch; its contract is the matching step of `DisplayModel`. */
module DisplayContexts {
  import opened Options
  import opened DisplayText
  import opened DisplayModel
  import opened DisplayRuns

  class SharedSnapshot {
    const sessionID: Text
    const requestID: Text
    const question: Text
    var active: bool
    var observers: int
    ghost const id: nat

    constructor (sessionID: Text, requestID: Text, question: Text, ghost id: nat)
      ensures this.sessionID == sessionID && this.requestID == requestID && this.question == question && this.id == id
      ensures active && observers == 1
    {
      this.sessionID, this.requestID, this.question, this.id := sessionID, requestID, question, id;
      active, observers := true, 1;
    }

    ghost function Value(): Snapshot
      reads this
    {
      Snapshot(sessionID, requestID, question, active, observers)
    }
  }

  class DisplayContext {
    const maxLookups: nat
    var requests: map<Key, SharedSnapshot>
    var turns: seq<(Text, Text)>
    var seenTurns: seq<Key>
    var activeLookups: nat
    /** Every snapshot ever made, in creation order. */
    ghost var all: seq<SharedSnapshot>

    ghost predicate Valid()
      reads this, all
    {
      && (forall i :: 0 <= i < |all| ==> all[i].id == i)
      && (forall k :: k in requests ==> requests[k] in all)
    }

    ghost function Abs(): State
      reads this, all
    {
      State(seq(|all|, i requires 0 <= i < |all| reads this, all => all[i].Value()),
            map k | k in requests :: requests[k].id, turns, seenTurns)
    }

    constructor (maxLookups: nat)
      ensures Valid() && Abs() == EMPTY && activeLookups == 0 && this.maxLookups == maxLookups && all == []
    {
      this.maxLookups := maxLookups;
      requests, turns, seenTurns, activeLookups, all := map[], [], [], 0, [];
    }

    /** The program's loop over the registry, deleting as it goes. */
    method SweepSession(session: Text) returns (ghost gone: set<Key>, ghost goneIds: set<nat>)
      requires Valid()
      modifies this`requests, all
      ensures Valid() && requests == old(requests) - gone
      ensures forall k :: k in gone <==> k in old(requests) && old(requests)[k].sessionID == session
      ensures goneIds == set k | k in gone :: old(requests)[k].id
      ensures forall i :: 0 <= i < |all| ==>
        all[i].observers == old(all[i].observers) && all[i].active == (old(all[i].active) && i !in goneIds)
    {
      gone, goneIds := {}, {};
      var registered := requests;
      var todo := registered.Keys;
      while todo != {}
        invariant Valid() && todo <= registered.Keys
        invariant requests == registered - gone
        invariant forall k :: k in gone <==> k in registered && k !in todo && registered[k].sessionID == session
        invariant goneIds == set k | k in gone :: registered[k].id
        invariant forall i :: 0 <= i < |all| ==>
          all[i].observers == old(all[i].observers) && all[i].active == (old(all[i].active) && i !in goneIds)
        decreases todo
      {
        var k :| k in todo;
        todo := todo - {k};
        var snapshot := registered[k];
        if snapshot.sessionID == session {
          snapshot.active := false;
          requests := requests - {k};
          gone, goneIds := gone + {k}, goneIds + {snapshot.id};
        }
      }
    }

    /** A new user turn deactivates and forgets every registered snapshot of its session. */
    method ForgetSession(session: Text)
      requires Valid()
      modifies this`requests, all
      ensures Valid() && all == old(all)
      ensures var s := old(Abs()); var gone := OfSession(s, session);
        && Abs().snaps == Deactivate(s.snaps, set k | k in gone :: s.requests[k])
        && Abs().requests == s.requests - gone
    {
      hide OfSession, Mirrors;
      ghost var s, registered := Abs(), requests;
      AbsMirrors();
      SessionKeys(s, registered, session, OfSession(s, session));
      ghost var gone, goneIds := SweepSession(session);
      assert gone == OfSession(s, session);
      assert Abs().requests == s.requests - gone;
      assert Abs().snaps == Deactivate(s.snaps, goneIds);
    }

    ghost predicate Mirrors(s: State, registered: map<Key, SharedSnapshot>)
      reads this, all
    {
      && |s.snaps| == |all| && s.requests.Keys == registered.Keys
      && (forall k :: k in registered ==> registered[k].id < |all| && s.requests[k] == registered[k].id)
      && (forall k :: k in registered ==> s.snaps[registered[k].id].sessionID == registered[k].sessionID)
    }

    lemma AbsMirrors()
      requires Valid()
      ensures Mirrors(Abs(), requests)
    {
    }

    lemma SessionKeys(s: State, registered: map<Key, SharedSnapshot>, session: Text, gone: set<Key>)
      requires Mirrors(s, registered) && gone == OfSession(s, session)
      ensures forall k :: k in gone <==> k in registered && registered[k].sessionID == session
      ensures (set k | k in gone :: registered[k].id) == set k | k in gone :: s.requests[k]
    {
    }

    method CaptureTurn(session: Text, id: Text)
      requires Valid()
      modifies this`requests, this`turns, this`seenTurns, all
      ensures Valid() && all == old(all) && Abs() == NewTurn(old(Abs()), session, id)
    {
      hide ValidID, SetTurn, TurnOf, OfSession;
      if ValidID(session) && ValidID(id) && TurnOf(turns, session) != Some(id) && (session, id) !in seenTurns {
        ForgetSession(session);
        turns := DropOldest(SetTurn(turns, session, id));
        seenTurns := DropOldest(seenTurns + [(session, id)]);
      }
    }

    method CaptureAnswer(session: Text, request: Text)
      requires Valid()
      modifies this`requests, all
      ensures Valid() && all == old(all) && Abs() == Resolve(old(Abs()), session, request)
    {
      hide ValidID;
      ghost var s := Abs();
      if ValidID(session) && ValidID(request) && (session, request) in requests {
        requests[(session, request)].active := false;
        requests := requests - {(session, request)};
        assert Abs().snaps == Resolve(s, session, request).snaps;
        assert Abs().requests == Resolve(s, session, request).requests;
      }
    }

    method Register(session: Text, request: Text, question: Text) returns (snapshot: SharedSnapshot)
      requires Valid() && (session, request) !in requests
      modifies this`requests, this`all
      ensures Valid() && fresh(snapshot) && all == old(all) + [snapshot] && snapshot.id == |old(all)|
      ensures Abs().snaps == old(Abs().snaps) + [Snapshot(session, request, question, true, 1)]
      ensures Abs().requests == old(Abs().requests)[(session, request) := |old(all)|]
    {
      ghost var s := Abs();
      snapshot := new SharedSnapshot(session, request, question, |all|);
      all := all + [snapshot];
      requests := requests[(session, request) := snapshot];
      assert Abs().snaps == s.snaps + [snapshot.Value()];
    }

    method ObserveAgain(snapshot: SharedSnapshot)
      requires Valid() && snapshot in all
      modifies snapshot
      ensures Valid() && snapshot.id < |Abs().snaps| && Abs().requests == old(Abs().requests)
      ensures Abs().snaps
          == old(Abs().snaps)[snapshot.id := old(snapshot.Value()).(observers := old(snapshot.observers) + 1)]
    {
      snapshot.observers := snapshot.observers + 1;
    }

    method CaptureQuestion(session: Text, request: Text, questions: seq<Option<Text>>)
          returns (snapshot: SharedSnapshot?)
      requires Valid()
      modifies this`requests, this`all, all
      ensures Valid() && old(all) <= all && (forall x :: x in all && x !in old(all) ==> fresh(x))
      ensures Abs() == Ask(old(Abs()), session, request, questions).0
      ensures (snapshot == null) == Ask(old(Abs()), session, request, questions).1.None?
      ensures snapshot != null
          ==> snapshot in all && Ask(old(Abs()), session, request, questions).1 == Some(snapshot.id)
    {
      hide QuestionText, ValidID;
      snapshot := null;
      ghost var s := Abs();
      assert s.requests.Keys == requests.Keys;
      if !ValidID(session) || !ValidID(request) { return; }
      if (session, request) in requests {
        // The first immutable text stays until every observation of it is released.
        snapshot := requests[(session, request)];
        ObserveAgain(snapshot);
        return;
      }
      if |requests| >= CAPACITY { return; }
      snapshot := Register(session, request, QuestionText(questions));
    }

    /** `capture`. */
    method Capture(e: Event) returns (snapshot: SharedSnapshot?)
      requires Valid()
      modifies this`requests, this`turns, this`seenTurns, this`all, all
      ensures Valid() && old(all) <= all && (forall x :: x in all && x !in old(all) ==> fresh(x))
      ensures Abs() == DisplayModel.Capture(old(Abs()), e).0
      ensures (snapshot == null) == DisplayModel.Capture(old(Abs()), e).1.None?
      ensures snapshot != null ==> snapshot in all && DisplayModel.Capture(old(Abs()), e).1 == Some(snapshot.id)
    {
      hide NewTurn, Resolve, Ask;
      snapshot := null;
      match e
      case UserMessage(session, id) => CaptureTurn(session, id);
      case Resolved(session, request) => CaptureAnswer(session, request);
      case Asked(session, request, questions) => snapshot := CaptureQuestion(session, request, questions);
      case OtherEvent =>
    }

    /** `release`. */
    method Release(snapshot: SharedSnapshot)
      requires Valid() && snapshot in all
      modifies this`requests, snapshot
      ensures Valid() && all == old(all)
      ensures Abs() == DisplayModel.Release(old(Abs()), snapshot.id)
    {
      ghost var s := Abs();
      snapshot.observers := snapshot.observers - 1;
      if snapshot.observers > 0 {
        assert Abs().snaps == DisplayModel.Release(s, snapshot.id).snaps;
        return;
      }
      snapshot.active := false;
      var k := (snapshot.sessionID, snapshot.requestID);
      if k in requests && requests[k] == snapshot { requests := requests - {k}; }
      assert Abs().snaps == DisplayModel.Release(s, snapshot.id).snaps;
      assert Abs().requests == DisplayModel.Release(s, snapshot.id).requests;
    }

    /** `enrich` up to its await: the registry lookup, then the admission of a title lookup. */
    method Begin(fact: Fact) returns (snapshot: SharedSnapshot?, admitted: bool)
      requires Valid() && Proceeds(fact)
      modifies this`activeLookups
      ensures Valid() && Abs() == old(Abs())
      ensures (snapshot == null) == LookupFor(Abs(), fact).None?
      ensures snapshot != null ==> snapshot in all && LookupFor(Abs(), fact) == Some(snapshot.id)
      ensures admitted == (old(activeLookups) < maxLookups)
      ensures activeLookups == old(activeLookups) + if admitted then 1 else 0
    {
      hide ValidID;
      snapshot := null;
      if fact.asksQuestion && ValidID(fact.sessionID) && ValidID(fact.requestID)
          && (fact.sessionID, fact.requestID) in requests {
        snapshot := requests[(fact.sessionID, fact.requestID)];
      }
      admitted := activeLookups < maxLookups;
      if admitted { activeLookups := activeLookups + 1; }
    }

    /** The native lookup ended; only now is its capacity free again. */
    method Settle()
      requires Valid() && activeLookups > 0
      modifies this`activeLookups
      ensures Valid() && Abs() == old(Abs()) && activeLookups == old(activeLookups) - 1
    {
      activeLookups := activeLookups - 1;
    }

    /** `enrich` after its await. */
    method Finish(snapshot: SharedSnapshot?) returns (question: Text)
      requires Valid() && (snapshot != null ==> snapshot in all)
      ensures question == Emitted(Abs(), if snapshot == null then None else Some(snapshot.id))
    {
      question := if snapshot != null && snapshot.active then snapshot.question else [];
    }
  }
}
