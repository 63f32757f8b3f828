/** Finding one execution interval in a sparse event log, and the last step inside it.

    Source: scripts/opencode-native-e2e.py, `native_position`, `execution_window`, `final_steps`. */
module NativeWindows {
  import opened Options

  datatype Kind = Started | Succeeded | Failed | Interrupted | StepEnded | StepFailed | Other

  /** None stands for a field that is missing or of another type than the one `native_position` asks for; a
      creation time that is no number, or not finite, is None too. */
  datatype Event = Event(kind: Kind, id: Option<string>, created: Option<real>, dataSession: Option<string>,
                         aggregate: Option<string>, number: Option<int>, version: Option<int>)

  function Position(e: Event, root: Option<string>): (r: Option<nat>) {
    if && root.Some? && root.value != "" && e.dataSession == root && e.aggregate == root
       && e.number.Some? && e.number.value >= 0 && e.version.Some? && e.version.value >= 1
       && e.id.Some? && e.id.value != ""
       && e.created.Some? && 0.0 < e.created.value < 10000000000000000.0
    then Some(e.number.value)
    else None
  }

  predicate PositionBetween(e: Event, root: Option<string>, lo: int, hi: int) {
    Position(e, root).Some? && lo < Position(e, root).value < hi
  }

  predicate Terminal(e: Event) {
    e.kind == Succeeded || e.kind == Failed || e.kind == Interrupted
  }

  predicate Step(e: Event) {
    e.kind == StepEnded || e.kind == StepFailed
  }

  predicate Start(e: Event) {
    e.kind == Started
  }

  function Select(native: seq<Event>, want: Event -> bool, root: Option<string>, lo: int, hi: int): (r: seq<Event>)
    ensures forall e :: e in r <==> e in native && want(e) && PositionBetween(e, root, lo, hi)
    ensures r == [] || r[0] in r
  {
    if native == [] then []
    else
      (if want(native[0]) && PositionBetween(native[0], root, lo, hi) then [native[0]] else [])
      + Select(native[1..], want, root, lo, hi)
  }

  /** Python's `max` by position: the first of the events with the largest. */
  function Latest(events: seq<Event>, root: Option<string>): (r: Event)
    requires events != [] && forall e :: e in events ==> Position(e, root).Some?
    ensures r in events && forall e :: e in events ==> Position(e, root).value <= Position(r, root).value
  {
    if |events| == 1 then events[0]
    else
      var rest := Latest(events[1..], root);
      if Position(events[0], root).value >= Position(rest, root).value then events[0] else rest
  }

  function Root(sid: Option<string>, end: Event): Option<string> {
    if sid.Some? && sid.value != "" then sid else end.dataSession
  }

  function Wanted(name: string): Kind {
    if name == "error" then Failed else Succeeded
  }

  /** Both events have a position in the session the end names. */
  predicate Placed(start: Event, end: Event) {
    Position(start, end.dataSession).Some? && Position(end, end.dataSession).Some?
  }

  /** One turn of the loop. */
  function WindowOf(native: seq<Event>, kind: Kind, sid: Option<string>, end: Event): (r: Option<(Event, Event)>)
    ensures r.Some? ==> Placed(r.value.0, r.value.1)
  {
    var root := Root(sid, end);
    if end.kind != kind || Position(end, root).None? then None
    else
      var last := Position(end, root).value;
      var starts := Select(native, Start, root, -1, last);
      if starts == [] then None
      else
        var start := Latest(starts, root);
        if start.created.value > end.created.value
           || Select(native, Terminal, root, Position(start, root).value, last) != []
        then None
        else Some((start, end))
  }

  /** The loop over `reversed(native)`, with the first n events still to come. */
  function Search(native: seq<Event>, n: nat, kind: Kind, sid: Option<string>): (r: Option<(Event, Event)>)
    requires n <= |native|
    ensures r.Some? ==> Placed(r.value.0, r.value.1)
  {
    if n == 0 then None
    else
      var found := WindowOf(native, kind, sid, native[n - 1]);
      if found.Some? then found else Search(native, n - 1, kind, sid)
  }

  function ExecutionWindow(native: seq<Event>, name: string, sid: Option<string>): Option<(Event, Event)> {
    Search(native, |native|, Wanted(name), sid)
  }

  function FinalSteps(native: seq<Event>, name: string, sid: Option<string>): seq<Event> {
    var window := ExecutionWindow(native, name, sid);
    if window.None? then []
    else
      var (start, end) := window.value;
      var root := end.dataSession;
      var steps := Select(native, Step, root, Position(start, root).value, Position(end, root).value);
      if steps == [] then []
      else
        var step := Latest(steps, root);
        if step.kind == (if name == "error" then StepFailed else StepEnded) then [step] else []
  }

  // ----- an event's place in the log of a session, field by field -----

  /** The event belongs to the session: both its envelope and its data name it, and every field is sound. */
  predicate InSession(e: Event, root: Option<string>) {
    && root.Some? && root.value != "" && e.dataSession == root && e.aggregate == root
    && e.id.Some? && e.id.value != "" && e.number.Some? && e.number.value >= 0
    && e.version.Some? && e.version.value > 0
    && e.created.Some? && e.created.value > 0.0 && e.created.value < 10000000000000000.0
  }

  /** An event has a position exactly when it belongs to the session, and then it is its sequence number. */
  lemma PositionExactly(e: Event, root: Option<string>)
    ensures Position(e, root) == if InSession(e, root) then Some(e.number.value) else None
  {
  }

  /** The event's number lies strictly between lo and hi. */
  predicate Between(e: Event, root: Option<string>, lo: int, hi: int) {
    InSession(e, root) && lo < e.number.value < hi
  }

  lemma BetweenIs(root: Option<string>)
    ensures forall e, lo, hi :: PositionBetween(e, root, lo, hi) <==> Between(e, root, lo, hi)
    ensures forall e :: Position(e, root) == if InSession(e, root) then Some(e.number.value) else None
  {
    forall e ensures Position(e, root) == if InSession(e, root) then Some(e.number.value) else None {
      PositionExactly(e, root);
    }
  }

  // ----- what `max` over a selection picks -----

  /** No earlier event of the kind wanted holds the same number. */
  ghost predicate Foremost(native: seq<Event>, want: Event -> bool, root: Option<string>, e: Event) {
    exists k :: 0 <= k < |native| && ForemostAt(native, want, root, e, k)
  }

  predicate ForemostAt(native: seq<Event>, want: Event -> bool, root: Option<string>, e: Event, k: int)
    requires 0 <= k < |native|
  {
    native[k] == e && forall j :: 0 <= j < k && want(native[j]) && InSession(native[j], root)
                                  ==> native[j].number != e.number
  }

  /** The highest number strictly between lo and hi among the events wanted. */
  predicate Highest(native: seq<Event>, want: Event -> bool, root: Option<string>, lo: int, hi: int, e: Event) {
    && e in native && want(e) && Between(e, root, lo, hi)
    && forall x :: x in native && want(x) && Between(x, root, lo, hi) ==> x.number.value <= e.number.value
  }

  lemma ForemostUnique(native: seq<Event>, want: Event -> bool, root: Option<string>, a: Event, b: Event)
    requires Foremost(native, want, root, a) && Foremost(native, want, root, b) && want(a) && want(b)
    requires InSession(a, root) && InSession(b, root) && a.number == b.number
    ensures a == b
  {
    hide InSession;
    var i :| 0 <= i < |native| && ForemostAt(native, want, root, a, i);
    var j :| 0 <= j < |native| && ForemostAt(native, want, root, b, j);
  }

  lemma ForemostShift(native: seq<Event>, want: Event -> bool, root: Option<string>, e: Event)
    requires native != [] && Foremost(native[1..], want, root, e)
    requires want(native[0]) && InSession(native[0], root) ==> native[0].number != e.number
    ensures Foremost(native, want, root, e)
  {
    hide InSession;
    var tail := native[1..];
    var k :| 0 <= k < |tail| && ForemostAt(tail, want, root, e, k);
    assert native[k + 1] == tail[k];
    forall j | 0 <= j < k + 1 && want(native[j]) && InSession(native[j], root) ensures native[j].number != e.number {
      if j > 0 { assert native[j] == tail[j - 1]; }
    }
    assert ForemostAt(native, want, root, e, k + 1);
  }

  lemma {:induction false} LatestForemost(native: seq<Event>, want: Event -> bool, root: Option<string>, lo: int,
                                          hi: int)
    requires Select(native, want, root, lo, hi) != []
    ensures Foremost(native, want, root, Latest(Select(native, want, root, lo, hi), root))
  {
    BetweenIs(root);
    hide Position, InSession, PositionBetween;
    var h, tail := native[0], native[1..];
    var rest := Select(tail, want, root, lo, hi);
    var picked := want(h) && PositionBetween(h, root, lo, hi);
    var top := Latest(Select(native, want, root, lo, hi), root);
    if picked {
      assert ([h] + rest)[1..] == rest;
      if rest == [] || Position(h, root).value >= Position(Latest(rest, root), root).value {
        assert top == h;
        assert ForemostAt(native, want, root, h, 0);
        return;
      }
      assert top == Latest(rest, root);
    } else {
      assert [] + rest == rest;
    }
    LatestForemost(tail, want, root, lo, hi);
    assert top in rest && Between(top, root, lo, hi);
    ForemostShift(native, want, root, top);
  }

  /** `max` over the selection is the highest event, and of several with one number the first in the log. */
  lemma LatestExactly(native: seq<Event>, want: Event -> bool, root: Option<string>, lo: int, hi: int, e: Event)
    ensures var chosen := Select(native, want, root, lo, hi);
      chosen != [] && e == Latest(chosen, root)
      <==> Highest(native, want, root, lo, hi, e) && Foremost(native, want, root, e)
  {
    BetweenIs(root);
    hide PositionBetween;
    var chosen := Select(native, want, root, lo, hi);
    if chosen != [] {
      LatestForemost(native, want, root, lo, hi);
      var top := Latest(chosen, root);
      hide Latest, Select, Foremost, Position, InSession;
      assert Highest(native, want, root, lo, hi, top);
      if Highest(native, want, root, lo, hi, e) && Foremost(native, want, root, e) {
        assert top.number.value == e.number.value;
        ForemostUnique(native, want, root, top, e);
      }
    }
  }

  // ----- what a window is -----

  /** The session searched: the one asked for, or the one the end's data names when none is. */
  ghost predicate Searches(sid: Option<string>, end: Event, root: Option<string>) {
    root == if sid == None || sid == Some("") then end.dataSession else sid
  }

  predicate Ends(e: Event) { e.kind in {Succeeded, Failed, Interrupted} }

  /** `end` closes the execution that `start` opened: no other start lies between them and no terminal event lies
      strictly inside; of several starts with one number it is the first in the log. */
  ghost predicate IsWindow(native: seq<Event>, root: Option<string>, start: Event, end: Event) {
    && start in native && end in native && start.kind == Started && Ends(end)
    && InSession(start, root) && InSession(end, root)
    && (exists k :: 0 <= k < |native| && FirstStart(native, root, start, k))
    && start.created.value <= end.created.value
    && start.number.value < end.number.value
    && forall e :: e in native && InSession(e, root) && start.number.value < e.number.value < end.number.value
        ==> e.kind != Started && !Ends(e)
  }

  /** `start` stands at k and no start before it holds its number. */
  predicate FirstStart(native: seq<Event>, root: Option<string>, start: Event, k: int)
    requires 0 <= k < |native|
  {
    native[k] == start && forall j :: 0 <= j < k && native[j].kind == Started && InSession(native[j], root)
                                      ==> native[j].number != start.number
  }

  /** `end` is of the kind looked for and closes the execution that `start` opened in the session searched. */
  ghost predicate Closes(native: seq<Event>, kind: Kind, sid: Option<string>, start: Event, end: Event) {
    end.kind == kind && exists root :: Searches(sid, end, root) && IsWindow(native, root, start, end)
  }

  ghost predicate Unpaired(native: seq<Event>, kind: Kind, sid: Option<string>, end: Event) {
    forall start :: !Closes(native, kind, sid, start, end)
  }

  /** What the turn tests, with the choice of `max` and the terminal events inside said without the selections. */
  ghost predicate Chosen(native: seq<Event>, root: Option<string>, start: Event, end: Event) {
    && InSession(start, root) && InSession(end, root)
    && Highest(native, Start, root, -1, end.number.value, start) && Foremost(native, Start, root, start)
    && start.created.value <= end.created.value
    && forall e :: e in native && Between(e, root, start.number.value, end.number.value) ==> !Terminal(e)
  }

  lemma TurnChooses(native: seq<Event>, kind: Kind, sid: Option<string>, start: Event, end: Event)
    ensures WindowOf(native, kind, sid, end) == Some((start, end))
            <==> end.kind == kind && Chosen(native, Root(sid, end), start, end)
  {
    var root := Root(sid, end);
    PositionExactly(end, root);
    PositionExactly(start, root);
    hide Root, Foremost;
    if InSession(end, root) {
      var last := end.number.value;
      LatestExactly(native, Start, root, -1, last, start);
      assert Highest(native, Start, root, -1, last, start) ==> InSession(start, root);
      if InSession(start, root) {
        NoneInside(native, root, start.number.value, last);
      }
      hide Highest, Latest, Select, Terminal, Between, Position, InSession;
    }
  }

  lemma StartsForemost(native: seq<Event>, root: Option<string>, start: Event)
    ensures Foremost(native, Start, root, start)
       <==> exists k :: 0 <= k < |native| && FirstStart(native, root, start, k)
  {
    hide InSession;
    forall k | 0 <= k < |native|
      ensures ForemostAt(native, Start, root, start, k) <==> FirstStart(native, root, start, k)
    {
    }
  }

  lemma WindowIsChosen(native: seq<Event>, root: Option<string>, start: Event, end: Event)
    requires end in native && Terminal(end)
    ensures IsWindow(native, root, start, end) <==> Chosen(native, root, start, end)
  {
    if InSession(end, root) { NearestIsHighest(native, root, start, end.number.value); }
    StartsForemost(native, root, start);
    hide InSession, Foremost, Highest, FirstStart;
  }

  lemma SearchesRoot(sid: Option<string>, end: Event)
    ensures forall root :: Searches(sid, end, root) <==> root == Root(sid, end)
  {
  }

  /** One turn of the loop finds exactly the window its end closes. */
  lemma TurnExact(native: seq<Event>, kind: Kind, sid: Option<string>, start: Event, end: Event)
    requires end in native && (kind == Succeeded || kind == Failed)
    ensures WindowOf(native, kind, sid, end) == Some((start, end)) <==> Closes(native, kind, sid, start, end)
  {
    hide WindowOf, Chosen, IsWindow, Root, Searches;
    TurnChooses(native, kind, sid, start, end);
    SearchesRoot(sid, end);
    if end.kind == kind { WindowIsChosen(native, Root(sid, end), start, end); }
  }

  /** The highest start before `last` is the one with no start between. */
  lemma NearestIsHighest(native: seq<Event>, root: Option<string>, start: Event, last: int)
    ensures Highest(native, Start, root, -1, last, start)
            <==> && start in native && Start(start) && Between(start, root, -1, last)
                 && forall e :: e in native && Between(e, root, start.number.value, last) ==> !Start(e)
  {
    if Highest(native, Start, root, -1, last, start) {
      forall e | e in native && Between(e, root, start.number.value, last) ensures !Start(e) {
        assert Start(e) ==> Between(e, root, -1, last);
      }
    }
  }

  lemma NoneInside(native: seq<Event>, root: Option<string>, lo: int, hi: int)
    ensures Select(native, Terminal, root, lo, hi) == []
            <==> forall e :: e in native && Between(e, root, lo, hi) ==> !Terminal(e)
  {
    BetweenIs(root);
    hide Position, InSession;
    var inside := Select(native, Terminal, root, lo, hi);
    forall e | e in native ensures e in inside <==> Terminal(e) && Between(e, root, lo, hi) {
    }
  }

  lemma TurnOutcome(native: seq<Event>, k: nat, kind: Kind, sid: Option<string>)
    requires k < |native| && (kind == Succeeded || kind == Failed)
    ensures var found := WindowOf(native, kind, sid, native[k]);
      if found.Some? then found.value.1 == native[k] && Closes(native, kind, sid, found.value.0, native[k])
      else Unpaired(native, kind, sid, native[k])
  {
    var end := native[k];
    var found := WindowOf(native, kind, sid, end);
    assert found.Some? ==> found.value.1 == end;
    hide WindowOf, Closes, Root;
    if found.Some? {
      TurnExact(native, kind, sid, found.value.0, end);
    } else {
      forall start ensures !Closes(native, kind, sid, start, end) {
        TurnExact(native, kind, sid, start, end);
      }
    }
  }

  /** `end` is the k-th event and no event after it, up to the n-th, closes a window. */
  ghost predicate LastPaired(native: seq<Event>, k: nat, n: nat, kind: Kind, sid: Option<string>, end: Event)
    requires n <= |native|
  {
    k < n && native[k] == end && forall later :: k < later < n ==> Unpaired(native, kind, sid, native[later])
  }

  /** The search returns the window whose end stands last in the log, and nothing exactly when there is none. */
  lemma {:induction false} SearchExact(native: seq<Event>, n: nat, kind: Kind, sid: Option<string>)
    requires n <= |native| && (kind == Succeeded || kind == Failed)
    ensures Search(native, n, kind, sid).None? ==> forall k :: 0 <= k < n ==> Unpaired(native, kind, sid, native[k])
    ensures var r := Search(native, n, kind, sid);
      r.Some? ==> Closes(native, kind, sid, r.value.0, r.value.1)
                  && exists k :: 0 <= k < n && LastPaired(native, k, n, kind, sid, r.value.1)
  {
    hide WindowOf, Closes, Unpaired;
    if n > 0 {
      SearchExact(native, n - 1, kind, sid);
      TurnOutcome(native, n - 1, kind, sid);
      var found := WindowOf(native, kind, sid, native[n - 1]);
      if found.Some? {
        assert LastPaired(native, n - 1, n, kind, sid, found.value.1);
      } else if Search(native, n - 1, kind, sid).Some? {
        var end := Search(native, n - 1, kind, sid).value.1;
        var k :| 0 <= k < n - 1 && LastPaired(native, k, n - 1, kind, sid, end);
        assert LastPaired(native, k, n, kind, sid, end);
      }
    }
  }

  /** The window of a name: the last one in the log whose end is a failure for "error" and a success for every other
      name, and nothing exactly when there is none. */
  lemma ExecutionWindowExact(native: seq<Event>, name: string, sid: Option<string>)
    ensures var kind, r := if name == "error" then Failed else Succeeded, ExecutionWindow(native, name, sid);
      && (r.None? <==> forall k :: 0 <= k < |native| ==> Unpaired(native, kind, sid, native[k]))
      && (r.Some? ==> Closes(native, kind, sid, r.value.0, r.value.1)
                      && exists k :: 0 <= k < |native| && LastPaired(native, k, |native|, kind, sid, r.value.1))
  {
    hide Search, Closes;
    SearchExact(native, |native|, Wanted(name), sid);
    var r := ExecutionWindow(native, name, sid);
    if r.Some? { assert !Unpaired(native, Wanted(name), sid, r.value.1); }
  }

  /** No two events of the session hold the same number. */
  predicate DistinctNumbers(native: seq<Event>, root: Option<string>) {
    forall i, j :: 0 <= i < j < |native| && InSession(native[i], root) && InSession(native[j], root)
      ==> native[i].number != native[j].number
  }

  lemma SameNumber(native: seq<Event>, root: Option<string>, a: Event, b: Event)
    requires DistinctNumbers(native, root) && a in native && b in native && InSession(a, root) && InSession(b, root)
    ensures a.number == b.number ==> a == b
  {
    hide InSession;
    var i :| 0 <= i < |native| && native[i] == a;
    var j :| 0 <= j < |native| && native[j] == b;
  }

  /** Windows of one session meet at most in an end point, whatever kinds their ends are, unless they span the same
      numbers; where numbers are distinct, windows of different ends do not even touch. */
  lemma WindowsDisjoint(native: seq<Event>, root: Option<string>, s1: Event, e1: Event, s2: Event, e2: Event)
    requires IsWindow(native, root, s1, e1) && IsWindow(native, root, s2, e2)
    ensures e1.number.value <= s2.number.value || e2.number.value <= s1.number.value
            || (s1.number == s2.number && e1.number == e2.number)
    ensures DistinctNumbers(native, root) && e1 != e2 ==>
      e1.number.value < s2.number.value || e2.number.value < s1.number.value
  {
    hide FirstStart, DistinctNumbers;
    if DistinctNumbers(native, root) {
      SameNumber(native, root, e1, e2);
      SameNumber(native, root, e1, s2);
      SameNumber(native, root, e2, s1);
    }
  }

  // ----- the last step -----

  predicate Steps(e: Event) { e.kind in {StepEnded, StepFailed} }

  /** `step` is the step of highest number strictly inside the window, the first of its number. */
  ghost predicate LastStep(native: seq<Event>, root: Option<string>, start: Event, end: Event, step: Event)
    requires InSession(start, root) && InSession(end, root)
  {
    && InSession(step, root) && start.number.value < step.number.value < end.number.value
    && (exists k :: 0 <= k < |native| && FirstStep(native, root, step, k))
    && forall e :: e in native && Steps(e) && InSession(e, root) && e.number.value < end.number.value
        ==> e.number.value <= step.number.value
  }

  predicate FirstStep(native: seq<Event>, root: Option<string>, step: Event, k: int)
    requires 0 <= k < |native|
  {
    native[k] == step && Steps(step) && forall j :: 0 <= j < k && Steps(native[j]) && InSession(native[j], root)
                                                    ==> native[j].number != step.number
  }

  lemma LastStepIs(native: seq<Event>, root: Option<string>, start: Event, end: Event, step: Event)
    requires InSession(start, root) && InSession(end, root)
    ensures LastStep(native, root, start, end, step)
            <==> Highest(native, Step, root, start.number.value, end.number.value, step)
                 && Foremost(native, Step, root, step)
  {
    hide InSession;
    forall k | 0 <= k < |native|
      ensures ForemostAt(native, Step, root, step, k) && Step(step) <==> FirstStep(native, root, step, k) {
    }
    if LastStep(native, root, start, end, step) {
      var k :| 0 <= k < |native| && FirstStep(native, root, step, k);
      assert ForemostAt(native, Step, root, step, k);
    }
  }

  /** The result is the highest step of the window when that step is of the kind the name asks for, and nothing
      otherwise: a lower step of the right kind is never returned in place of a higher one of the wrong kind. */
  lemma FinalStepsExact(native: seq<Event>, name: string, sid: Option<string>, step: Event)
    ensures |FinalSteps(native, name, sid)| <= 1
    ensures var w := ExecutionWindow(native, name, sid);
      && (w.Some? ==> && Closes(native, if name == "error" then Failed else Succeeded, sid, w.value.0, w.value.1)
                      && IsWindow(native, w.value.1.dataSession, w.value.0, w.value.1))
      && (step in FinalSteps(native, name, sid)
          <==> && w.Some? && LastStep(native, w.value.1.dataSession, w.value.0, w.value.1, step)
               && step.kind == if name == "error" then StepFailed else StepEnded)
  {
    SearchExact(native, |native|, Wanted(name), sid);
    hide Search, Latest, Select, Highest, Foremost, LastStep;
    var w := ExecutionWindow(native, name, sid);
    if w.Some? {
      var (start, end) := w.value;
      var root := end.dataSession;
      PositionExactly(start, root);
      PositionExactly(end, root);
      ClosesOwnSession(native, Wanted(name), sid, start, end);
      LastStepIs(native, root, start, end, step);
      hide Closes, Root, Position, Unpaired, LastPaired, IsWindow, InSession;
      LatestExactly(native, Step, root, start.number.value, end.number.value, step);
    }
  }

  lemma ClosesOwnSession(native: seq<Event>, kind: Kind, sid: Option<string>, start: Event, end: Event)
    requires Closes(native, kind, sid, start, end)
    ensures IsWindow(native, end.dataSession, start, end) && InSession(start, end.dataSession)
            && InSession(end, end.dataSession)
  {
  }
}
