/** One event log out of the captures of several readers.

    Source: scripts/opencode-native-e2e.py, `terminal_v2_events`.  Each location of the program
    under observation writes the same log from its beginning, so the combined capture is an
    interleaving of prefixes of one original list. */
module NativeCaptures {
  import opened Options

  /** `id` is None when the captured value is no record or its id is no string; `encoded` is the
      canonical JSON text of the whole event, None when it cannot be written as JSON. */
  datatype Envelope = Envelope(id: Option<string>, encoded: Option<string>)

  datatype Fault = IdentityMissing | EnvelopeInvalid | IdentityConflict

  datatype Verdict = Ordered(events: seq<Envelope>) | Refused(fault: Fault)

  predicate Named(e: Envelope) {
    e.id.Some? && e.id.value != ""
  }

  predicate WellFormed(e: Envelope) {
    Named(e) && e.encoded.Some?
  }

  predicate Clashes(before: seq<Envelope>, e: Envelope) {
    exists j :: 0 <= j < |before| && before[j].id == e.id && before[j].encoded != e.encoded
  }

  /** What event k is refused for, given the events before it. */
  function FaultAt(native: seq<Envelope>, k: nat): Option<Fault>
    requires k < |native|
  {
    if !Named(native[k]) then Some(IdentityMissing)
    else if native[k].encoded.None? then Some(EnvelopeInvalid)
    else if Clashes(native[..k], native[k]) then Some(IdentityConflict)
    else None
  }

  predicate Seen(s: seq<Envelope>, id: Option<string>) {
    exists j :: 0 <= j < |s| && s[j].id == id
  }

  /** The events whose id no earlier event bears, in order. */
  function Firsts(native: seq<Envelope>): seq<Envelope> {
    if native == [] then []
    else
      var front, last := native[..|native| - 1], native[|native| - 1];
      if Seen(front, last.id) then Firsts(front) else Firsts(front) + [last]
  }

  /** Event k has this fault: no id, or one that is empty; no JSON text; or an earlier event bears its id with other
      contents. */
  ghost predicate Wrong(native: seq<Envelope>, k: nat, fault: Fault)
    requires k < |native|
  {
    match fault
    case IdentityMissing => native[k].id == None || native[k].id == Some("")
    case EnvelopeInvalid => native[k].id != None && native[k].id != Some("") && native[k].encoded == None
    case IdentityConflict =>
      && native[k].id != None && native[k].id != Some("") && native[k].encoded != None
      && exists j :: 0 <= j < k && native[j].id == native[k].id && native[j].encoded != native[k].encoded
  }

  lemma FaultExactly(native: seq<Envelope>, k: nat)
    requires k < |native|
    ensures forall fault :: FaultAt(native, k) == Some(fault) <==> Wrong(native, k, fault)
  {
    var before := native[..k];
    assert forall j :: 0 <= j < k ==> before[j] == native[j];
  }

  lemma FaultIs(native: seq<Envelope>, k: nat)
    requires k < |native|
    ensures FaultAt(native, k)
         == if !Named(native[k]) then Some(IdentityMissing) else if native[k].encoded == None then Some(EnvelopeInvalid)
            else if Clashes(native[..k], native[k]) then Some(IdentityConflict) else None
    ensures WellFormed(native[k]) <==> Named(native[k]) && native[k].encoded != None
    ensures Named(native[k]) ==> native[k].id.Some?
  {
  }

  /** The loop of the source: a dictionary from ids to encodings, and the ordered list. */
  method TerminalV2Events(native: seq<Envelope>) returns (r: Verdict)
    ensures r.Ordered? ==>
      r.events == Firsts(native) && forall k, fault :: 0 <= k < |native| ==> !Wrong(native, k, fault)
    ensures r.Refused? ==> exists k :: 0 <= k < |native| && Wrong(native, k, r.fault)
                                       && forall j, fault :: 0 <= j < k ==> !Wrong(native, j, fault)
  {
    hide Wrong, FaultAt, Named;
    hide Records, Clashes, Seen, Firsts;
    var originals: map<string, string> := map[];
    var ordered: seq<Envelope> := [];
    var k := 0;
    NothingSeen(native[..0]);
    while k < |native|
      invariant k <= |native|
      invariant forall j, fault :: 0 <= j < k ==> !Wrong(native, j, fault)
      invariant Records(originals, native[..k])
      invariant ordered == Firsts(native[..k])
    {
      var event := native[k];
      FaultExactly(native, k);
      FaultIs(native, k);
      if !Named(event) {
        return Refused(IdentityMissing);
      }
      if event.encoded.None? {
        return Refused(EnvelopeInvalid);
      }
      var identity := event.id.value;
      RecordsStep(originals, native[..k], event);
      assert native[..k + 1] == native[..k] + [event];
      FirstsGrow(native[..k + 1], k);
      if identity in originals {
        if originals[identity] != event.encoded.value {
          return Refused(IdentityConflict);
        }
      } else {
        originals := originals[identity := event.encoded.value];
        ordered := ordered + [event];
      }
      k := k + 1;
    }
    assert native[..k] == native;
    return Ordered(ordered);
  }

  /** The dictionary maps exactly the ids seen, each to the one encoding it was seen with. */
  predicate Records(originals: map<string, string>, before: seq<Envelope>) {
    && (forall j :: 0 <= j < |before| ==> Named(before[j]) && before[j].id.value in originals
                                          && before[j].encoded == Some(originals[before[j].id.value]))
    && forall name :: name in originals ==> Seen(before, Some(name))
  }

  lemma NothingSeen(none: seq<Envelope>)
    requires none == []
    ensures Records(map[], none) && Firsts(none) == []
  {
  }

  lemma FirstsGrow(native: seq<Envelope>, n: nat)
    requires |native| == n + 1
    ensures Firsts(native) == Firsts(native[..n]) + if Seen(native[..n], native[n].id) then [] else [native[n]]
  {
    hide Seen;
  }

  lemma RecordsStep(originals: map<string, string>, before: seq<Envelope>, e: Envelope)
    requires Records(originals, before) && WellFormed(e)
    ensures e.id.value in originals <==> Seen(before, e.id)
    ensures Clashes(before, e) <==> e.id.value in originals && originals[e.id.value] != e.encoded.value
    ensures !Clashes(before, e) ==> Records(originals[e.id.value := e.encoded.value], before + [e])
    ensures e.id.value in originals && !Clashes(before, e) ==> Records(originals, before + [e])
  {
    SeenGrows(before, e);
    if e.id.value in originals {
      var j :| 0 <= j < |before| && before[j].id == Some(e.id.value);
      if !Clashes(before, e) {
        assert originals[e.id.value := e.encoded.value] == originals;
      }
    }
  }

  lemma SeenGrows(s: seq<Envelope>, e: Envelope)
    ensures forall id :: Seen(s + [e], id) <==> Seen(s, id) || id == e.id
  {
    forall id ensures Seen(s + [e], id) <==> Seen(s, id) || id == e.id {
      var t := s + [e];
      assert t[|s|] == e;
      if Seen(s, id) {
        var j :| 0 <= j < |s| && s[j].id == id;
        assert t[j].id == id;
      }
    }
  }

  // ----- when the capture is refused -----

  predicate Conflicting(native: seq<Envelope>) {
    exists j, k :: 0 <= j < k < |native| && native[j].id == native[k].id && native[j].encoded != native[k].encoded
  }

  /** Well-formed events are refused exactly when two of them share an id with different contents. */
  lemma RefusedExactlyOnConflict(native: seq<Envelope>)
    requires forall e :: e in native ==> WellFormed(e)
    ensures (exists k :: 0 <= k < |native| && FaultAt(native, k) != None) <==> Conflicting(native)
    ensures forall k :: 0 <= k < |native| && FaultAt(native, k) != None ==> FaultAt(native, k) == Some(IdentityConflict)
  {
    forall k | 0 <= k < |native| && FaultAt(native, k) != None
      ensures FaultAt(native, k) == Some(IdentityConflict) && Conflicting(native)
    {
      assert WellFormed(native[k]);
    }
    if Conflicting(native) {
      var j, k :| 0 <= j < k < |native| && native[j].id == native[k].id && native[j].encoded != native[k].encoded;
      assert native[..k][j] == native[j];
      assert FaultAt(native, k) != None;
    }
  }

  // ----- the list that comes out -----

  predicate DistinctIds(s: seq<Envelope>) {
    forall j, k :: 0 <= j < k < |s| ==> s[j].id != s[k].id
  }

  lemma {:induction false} FirstsDistinct(native: seq<Envelope>)
    ensures DistinctIds(Firsts(native))
    ensures forall id :: Seen(Firsts(native), id) <==> Seen(native, id)
    ensures forall k :: 0 <= k < |Firsts(native)| ==> Firsts(native)[k] in native
  {
    if native != [] {
      var front, last := native[..|native| - 1], native[|native| - 1];
      FirstsDistinct(front);
      assert native == front + [last];
      SeenGrows(front, last);
      if !Seen(front, last.id) {
        SeenGrows(Firsts(front), last);
        forall k | 0 <= k < |Firsts(front)| ensures Firsts(front)[k].id != last.id {
          assert !Seen(Firsts(front), last.id);
        }
      }
    }
  }

  lemma {:induction false} FirstsOfDistinct(s: seq<Envelope>)
    requires DistinctIds(s)
    ensures Firsts(s) == s
  {
    if s != [] {
      FirstsOfDistinct(s[..|s| - 1]);
      assert s == s[..|s| - 1] + [s[|s| - 1]];
    }
  }

  /** Running the de-duplication on its own result changes nothing and refuses nothing. */
  lemma Idempotent(native: seq<Envelope>)
    requires forall k :: 0 <= k < |native| ==> FaultAt(native, k) == None
    ensures Firsts(Firsts(native)) == Firsts(native)
    ensures forall k :: 0 <= k < |Firsts(native)| ==> FaultAt(Firsts(native), k) == None
  {
    hide Firsts;
    var r := Firsts(native);
    FirstsDistinct(native);
    FirstsOfDistinct(r);
    forall k | 0 <= k < |r| ensures FaultAt(r, k) == None {
      var j :| 0 <= j < |native| && native[j] == r[k];
      assert FaultAt(native, j) == None;
    }
  }

  // ----- interleavings -----

  /** What reader r captured: the events tagged r, in order. */
  function Captured(tags: seq<nat>, native: seq<Envelope>, r: nat): (c: seq<Envelope>)
    requires |tags| == |native|
  {
    if tags == [] then []
    else
      var n := |tags| - 1;
      Captured(tags[..n], native[..n], r) + if tags[n] == r then [native[n]] else []
  }

  predicate Prefix(p: seq<Envelope>, s: seq<Envelope>) {
    |p| <= |s| && p == s[..|p|]
  }

  /** Each reader captured a prefix of one original list. */
  ghost predicate Interleaves(tags: seq<nat>, native: seq<Envelope>, original: seq<Envelope>) {
    |tags| == |native| && forall r: nat :: Prefix(Captured(tags, native, r), original)
  }

  /** m is the length of the longest of these prefixes. */
  ghost predicate Longest(tags: seq<nat>, native: seq<Envelope>, m: nat)
    requires |tags| == |native|
  {
    (forall r: nat :: |Captured(tags, native, r)| <= m) && exists r: nat :: |Captured(tags, native, r)| == m
  }

  lemma InterleavesFront(tags: seq<nat>, native: seq<Envelope>, original: seq<Envelope>, n: nat)
    requires Interleaves(tags, native, original) && |tags| == n + 1
    ensures Interleaves(tags[..n], native[..n], original)
    ensures var p := |Captured(tags[..n], native[..n], tags[n])|; p < |original| && native[n] == original[p]
  {
    forall r: nat ensures Prefix(Captured(tags[..n], native[..n], r), original) {
      var whole, part := Captured(tags, native, r), Captured(tags[..n], native[..n], r);
      assert Prefix(whole, original);
      assert part == whole[..|part|];
    }
    var whole := Captured(tags, native, tags[n]);
    assert Prefix(whole, original);
    assert whole[|whole| - 1] == native[n];
  }

  /** Every captured event is among the first m of the original and none is refused. */
  predicate Covered(native: seq<Envelope>, original: seq<Envelope>, m: nat)
    requires m <= |original|
  {
    forall k :: 0 <= k < |native| ==> native[k] in original[..m] && FaultAt(native, k) == None
  }

  /** Whatever the interleaving, the result is the longest prefix in its original order. */
  lemma {:induction false} LongestPrefix(tags: seq<nat>, native: seq<Envelope>, original: seq<Envelope>)
        returns (m: nat)
    requires Interleaves(tags, native, original) && DistinctIds(original)
    requires forall k :: 0 <= k < |original| ==> WellFormed(original[k])
    ensures m <= |original| && Longest(tags, native, m) && Firsts(native) == original[..m]
    ensures Covered(native, original, m)
  {
    if tags == [] {
      m := 0;
      assert |Captured(tags, native, 0)| == 0;
    } else {
      var n := |tags| - 1;
      hide Covered, Captured, Firsts;
      InterleavesFront(tags, native, original, n);
      var before := LongestPrefix(tags[..n], native[..n], original);
      var p := |Captured(tags[..n], native[..n], tags[n])|;
      m := if p == before then before + 1 else before;
      assert p <= before;
      hide Interleaves, Longest;
      LongestGrows(tags, native, n, before, m);
      AppendMember(native, original, n, before, p, m);
    }
  }

  /** One more captured event, the p-th of the original, after captures that cover the first `before`. */
  lemma AppendMember(native: seq<Envelope>, original: seq<Envelope>, n: nat, before: nat, p: nat, m: nat)
    requires |native| == n + 1 && DistinctIds(original) && p <= before <= |original|
    requires p < |original| && native[n] == original[p] && WellFormed(original[p])
    requires m == if p == before then before + 1 else before
    requires Firsts(native[..n]) == original[..before] && Covered(native[..n], original, before)
    ensures Firsts(native) == original[..m] && Covered(native, original, m)
  {
    hide Covered, Seen, DistinctIds, Firsts;
    CoveredStep(native, original, n, before, p, m);
    SeenFirsts(native[..n], native[n].id);
    SeenPrefix(original, before, p);
    FirstsGrow(native, n);
    assert original[..m] == if p == before then original[..before] + [native[n]] else original[..before];
  }

  lemma SeenFirsts(native: seq<Envelope>, id: Option<string>)
    ensures Seen(Firsts(native), id) <==> Seen(native, id)
  {
    FirstsDistinct(native);
  }

  lemma SeenPrefix(s: seq<Envelope>, n: nat, p: nat)
    requires p < |s| && n <= |s| && DistinctIds(s)
    ensures Seen(s[..n], s[p].id) <==> p < n
  {
    if p < n {
      assert s[..n][p].id == s[p].id;
    }
  }

  lemma CoveredStep(native: seq<Envelope>, original: seq<Envelope>, n: nat, before: nat, p: nat, m: nat)
    requires |native| == n + 1 && DistinctIds(original) && p <= before <= m <= |original|
    requires p < m && native[n] == original[p] && WellFormed(original[p])
    requires Covered(native[..n], original, before)
    ensures Covered(native, original, m)
  {
    var front, last := native[..n], native[n];
    forall j | 0 <= j < n ensures native[j] in original[..m] && (native[j].id == last.id ==> native[j] == last)
                          ensures FaultAt(native, j) == None {
      assert front[j] == native[j] && native[..j] == front[..j] && FaultAt(front, j) == None;
      var i :| 0 <= i < before && original[..before][i] == native[j];
      assert original[i] == native[j] && original[..m][i] == native[j];
    }
    assert original[..m][p] == last;
  }

  lemma LongestGrows(tags: seq<nat>, native: seq<Envelope>, n: nat, before: nat, m: nat)
    requires |tags| == |native| == n + 1 && Longest(tags[..n], native[..n], before)
    requires m == if |Captured(tags[..n], native[..n], tags[n])| == before then before + 1 else before
    ensures Longest(tags, native, m)
  {
    forall r: nat ensures |Captured(tags, native, r)| <= m {
      assert |Captured(tags[..n], native[..n], r)| <= before;
    }
    var r: nat :| |Captured(tags[..n], native[..n], r)| == before;
    if m == before {
      assert |Captured(tags, native, r)| == m;
    } else {
      assert |Captured(tags, native, tags[n])| == m;
    }
  }
}
