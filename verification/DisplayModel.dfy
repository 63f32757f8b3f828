/** The snapshot registry of `createDisplayContext`, one atomic step per synchronous stretch of the program.

    Snapshots are shared objects in the program; here each is a number, its place in creation order. */
module DisplayModel {
  import opened Options
  import opened DisplayText

  const CAPACITY: nat := 512

  type Key = (Text, Text)

  datatype Snapshot = Snapshot(sessionID: Text, requestID: Text, question: Text, active: bool, observers: int)

  /** An event after the checks on its shape. `questions` holds what each question's `question` field is:
      `None` when the entry is no object or the field is no string. */
  datatype Event =
    | UserMessage(sessionID: Text, messageID: Text)
    | Resolved(sessionID: Text, requestID: Text)
    | Asked(sessionID: Text, requestID: Text, questions: seq<Option<Text>>)
    | OtherEvent

  datatype State = State(snaps: seq<Snapshot>, requests: map<Key, nat>, turns: seq<(Text, Text)>, seenTurns: seq<Key>)

  const EMPTY := State([], map[], [], [])

  // ----- the bounded insertion-ordered turn map -----

  function TurnOf(turns: seq<(Text, Text)>, session: Text): Option<Text> {
    if turns == [] then None
    else if turns[0].0 == session then Some(turns[0].1)
    else TurnOf(turns[1..], session)
  }

  /** A known key keeps its place; a new one goes last. */
  function SetTurn(turns: seq<(Text, Text)>, session: Text, id: Text): seq<(Text, Text)> {
    if turns == [] then [(session, id)]
    else if turns[0].0 == session then [(session, id)] + turns[1..]
    else [turns[0]] + SetTurn(turns[1..], session, id)
  }

  function DropOldest<T>(s: seq<T>): seq<T> { if |s| > CAPACITY then s[1..] else s }

  // ----- capture -----

  const SEPARATOR: Text := [32, 0xb7, 32]

  function Join(parts: seq<Text>): Text {
    if parts == [] then [] else if |parts| == 1 then parts[0] else parts[0] + SEPARATOR + Join(parts[1..])
  }

  function Parts(questions: seq<Option<Text>>): seq<Text> {
    if questions == [] then []
    else [if questions[0].Some? then CleanText(questions[0].value, 1024) else []] + Parts(questions[1..])
  }

  function QuestionText(questions: seq<Option<Text>>): Text {
    var parts := Parts(questions);
    if 0 < |questions| <= 8 && [] !in parts && ByteCount(Join(parts)) <= 2048 then Join(parts) else []
  }

  function Deactivate(snaps: seq<Snapshot>, dropped: set<nat>): seq<Snapshot> {
    seq(|snaps|, i requires 0 <= i < |snaps| => if i in dropped then snaps[i].(active := false) else snaps[i])
  }

  /** The registered snapshots of a session. */
  function OfSession(s: State, session: Text): set<Key> {
    set k | k in s.requests && s.requests[k] < |s.snaps| && s.snaps[s.requests[k]].sessionID == session
  }

  predicate AcceptsTurn(s: State, session: Text, id: Text) {
    ValidID(session) && ValidID(id) && TurnOf(s.turns, session) != Some(id) && (session, id) !in s.seenTurns
  }

  function NewTurn(s: State, session: Text, id: Text): State {
    if !AcceptsTurn(s, session, id) then s
    else
      var gone := OfSession(s, session);
      State(Deactivate(s.snaps, set k | k in gone :: s.requests[k]), s.requests - gone,
            DropOldest(SetTurn(s.turns, session, id)), DropOldest(s.seenTurns + [(session, id)]))
  }

  function Resolve(s: State, session: Text, request: Text): State {
    if !ValidID(session) || !ValidID(request) || (session, request) !in s.requests then s
    else s.(snaps := Deactivate(s.snaps, {s.requests[(session, request)]}),
            requests := s.requests - {(session, request)})
  }

  function Ask(s: State, session: Text, request: Text, questions: seq<Option<Text>>): (State, Option<nat>) {
    var k := (session, request);
    if !ValidID(session) || !ValidID(request) then (s, None)
    else if k in s.requests then
      var n := s.requests[k];
      if n < |s.snaps| then (s.(snaps := s.snaps[n := s.snaps[n].(observers := s.snaps[n].observers + 1)]), Some(n))
      else (s, None)
    else if |s.requests| >= CAPACITY then (s, None)
    else (s.(snaps := s.snaps + [Snapshot(session, request, QuestionText(questions), true, 1)],
             requests := s.requests[k := |s.snaps|]), Some(|s.snaps|))
  }

  function Capture(s: State, e: Event): (State, Option<nat>) {
    match e
    case UserMessage(session, id) => (NewTurn(s, session, id), None)
    case Resolved(session, request) => (Resolve(s, session, request), None)
    case Asked(session, request, questions) => Ask(s, session, request, questions)
    case OtherEvent => (s, None)
  }

  // ----- release -----

  function Release(s: State, n: nat): State
    requires n < |s.snaps|
  {
    var observers := s.snaps[n].observers - 1;
    if observers > 0 then s.(snaps := s.snaps[n := s.snaps[n].(observers := observers)])
    else
      var k := (s.snaps[n].sessionID, s.snaps[n].requestID);
      s.(snaps := s.snaps[n := s.snaps[n].(observers := observers, active := false)],
         requests := if k in s.requests && s.requests[k] == n then s.requests - {k} else s.requests)
  }

  /** The snapshot `enrich` looks up before it awaits the title. */
  function Lookup(s: State, session: Text, request: Text): Option<nat> {
    if ValidID(session) && ValidID(request) && (session, request) in s.requests
    then Some(s.requests[(session, request)])
    else None
  }

  /** The question text `enrich` uses after the await. */
  function Emitted(s: State, snapshot: Option<nat>): Text {
    if snapshot.Some? && snapshot.value < |s.snaps| && s.snaps[snapshot.value].active
    then s.snaps[snapshot.value].question
    else []
  }
}
