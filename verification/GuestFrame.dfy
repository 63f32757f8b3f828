/** One hash-checked frame found in the noise of a serial console.

    Source: scripts/navigation-linux-handoff-guest-probe.py, `decode_guest_frame`. Bytes of the console are
    characters here; `hex` is the lower-case hexadecimal SHA-256 of a payload. */
module GuestFrame {
  import opened Options
  import Base64

  const SERIAL_BYTES: nat := 16 * 1024 * 1024
  const FRAME_BYTES: nat := 128 * 1024
  const HANDOFF := "NAVIGATION_TEST_HANDOFF_V1 "
  const SHIPPING := "NAVIGATION_TEST_SHIPPING_GO_V1 "

  datatype Result = Payload(bytes: seq<Base64.Byte>) | NotUnique | Incomplete | Malformed | HashMismatch

  predicate Occurs(s: string, m: string, i: int) {
    0 <= i <= i + |m| <= |s| && s[i..i + |m|] == m
  }

  /** Python's `count` from position i: occurrences that do not overlap, left to right. */
  function Count(s: string, m: string, i: nat): nat
    requires m != ""
    decreases |s| - i
  {
    if i + |m| > |s| then 0
    else if Occurs(s, m, i) then 1 + Count(s, m, i + |m|)
    else Count(s, m, i + 1)
  }

  /** The first occurrence at or after i. */
  function Index(s: string, m: string, i: nat): (r: Option<nat>)
    ensures r.Some? ==> i <= r.value && Occurs(s, m, r.value) && forall k :: i <= k < r.value ==> !Occurs(s, m, k)
    ensures r.None? ==> forall k :: i <= k ==> !Occurs(s, m, k)
    decreases |s| - i
  {
    if i + |m| > |s| then None
    else if Occurs(s, m, i) then Some(i)
    else Index(s, m, i + 1)
  }

  function StripCR(s: string): (r: string)
    ensures |r| <= |s| && r == s[..|r|] && (r == "" || r[|r| - 1] != '\r')
    ensures forall k :: |r| <= k < |s| ==> s[k] == '\r'
  {
    if s != "" && s[|s| - 1] == '\r' then StripCR(s[..|s| - 1]) else s
  }

  function Marker(shipping: bool): string {
    if shipping then SHIPPING else HANDOFF
  }

  function DecodeFrame(serial: string, shipping: bool, hex: seq<Base64.Byte> -> string): Result {
    var marker := Marker(shipping);
    if |serial| > SERIAL_BYTES || Count(serial, marker, 0) != 1 then NotUnique
    else
      var start := Index(serial, marker, 0);
      if start.None? then NotUnique
      else
        var tail := serial[start.value..];
        var terminator := Index(tail, "\n", 0);
        if terminator.None? then Incomplete
        else
          var frame := StripCR(tail[..terminator.value]);
          if |frame| > FRAME_BYTES then Incomplete else DecodeFields(frame, hex)
  }

  function DecodeFields(frame: string, hex: seq<Base64.Byte> -> string): Result {
    var first := Index(frame, " ", 0);
    if first.None? then Malformed
    else
      var second := Index(frame, " ", first.value + 1);
      if second.None? then Malformed
      else
        var payload := Base64.Decode(frame[second.value + 1..]);
        if payload.None? then Malformed
        else if hex(payload.value) != frame[first.value + 1..second.value] then HashMismatch
        else Payload(payload.value)
  }

  // ----- the grammar of what is accepted -----

  predicate HexDigit(c: char) {
    '0' <= c <= '9' || 'a' <= c <= 'f'
  }

  /** What is used of SHA-256: its printed form is lower-case hexadecimal. */
  ghost predicate HexDigest(hex: seq<Base64.Byte> -> string) {
    forall p, k :: 0 <= k < |hex(p)| ==> HexDigit(hex(p)[k])
  }

  ghost predicate Free(s: string, m: string) {
    forall i :: !Occurs(s, m, i)
  }

  function Returns(n: nat): string {
    seq(n, _ => '\r')
  }

  /** The console text: noise, one frame, noise. */
  function Framed(before: string, marker: string, claimed: string, encoded: string, crs: nat, after: string): string {
    before + (marker + claimed + " " + encoded + Returns(crs) + "\n") + after
  }

  /** What the guest's frame starts with, for either of its two uses. */
  ghost function Mark(shipping: bool): string {
    if shipping then "NAVIGATION_TEST_SHIPPING_GO_V1 " else "NAVIGATION_TEST_HANDOFF_V1 "
  }

  lemma MarkerExactly(shipping: bool)
    ensures Marker(shipping) == Mark(shipping)
  {
  }

  /** One frame of at most 128 KiB in at most 16 MiB of console text, which holds its marker nowhere else. */
  ghost predicate IsFrame(serial: string, shipping: bool, claimed: string, before: string, encoded: string,
                          crs: nat, after: string, payload: seq<Base64.Byte>) {
    var marker := Mark(shipping);
    && serial == Framed(before, marker, claimed, encoded, crs, after)
    && Base64.Decodes(encoded, payload)
    && |serial| <= 16777216 && |marker + claimed + " " + encoded| <= 131072
    && Free(before, marker) && Free(after, marker)
  }

  // ----- counting occurrences -----

  /** What keeps a marker from overlapping itself and from occurring inside the fields. */
  predicate Distinctive(m: string) {
    && |m| > 11 && m[|m| - 1] == ' ' && m[10] == '_'
    && forall k :: 0 <= k < |m| ==> m[k] != '\n' && (m[k] == ' ' ==> k == |m| - 1)
  }

  lemma MarkersDistinctive(shipping: bool)
    ensures Distinctive(Marker(shipping))
  {
  }

  lemma OccursAt(s: string, m: string, i: int, k: nat)
    requires Occurs(s, m, i) && k < |m|
    ensures s[i + k] == m[k]
  {
    assert s[i..i + |m|][k] == s[i + k];
  }

  /** Where a text stands: with as much before it as the place says. */
  lemma OccursExactly(s: string, m: string, i: nat)
    ensures Occurs(s, m, i) <==> exists before, after :: |before| == i && s == before + m + after
  {
    if Occurs(s, m, i) { assert s == s[..i] + m + s[i + |m|..]; }
    forall before, after | |before| == i && s == before + m + after ensures Occurs(s, m, i) {
      assert s[i..i + |m|] == m;
    }
  }

  lemma NoOverlap(s: string, m: string, i: int, j: int)
    requires Distinctive(m) && Occurs(s, m, i) && Occurs(s, m, j)
    ensures i == j || j >= i + |m| || i >= j + |m|
  {
    if i < j < i + |m| {
      OccursAt(s, m, i, |m| - 1);
      OccursAt(s, m, j, |m| - 1 - (j - i));
    }
    if j < i < j + |m| {
      OccursAt(s, m, j, |m| - 1);
      OccursAt(s, m, i, |m| - 1 - (i - j));
    }
  }

  lemma {:induction false} CountZero(s: string, m: string, i: nat)
    requires m != ""
    ensures Count(s, m, i) == 0 <==> forall k :: i <= k ==> !Occurs(s, m, k)
    decreases |s| - i
  {
    if i + |m| <= |s| {
      if Occurs(s, m, i) {
      } else {
        CountZero(s, m, i + 1);
      }
    }
  }

  /** The count is one exactly when one position is the only one where the marker stands. */
  lemma {:induction false} CountOne(s: string, m: string, i: nat, at: nat)
    requires Distinctive(m) && i <= at && Occurs(s, m, at) && forall k :: i <= k < at ==> !Occurs(s, m, k)
    ensures Count(s, m, i) == 1 <==> forall k :: i <= k && Occurs(s, m, k) ==> k == at
    decreases at - i
  {
    if i == at {
      CountZero(s, m, i + |m|);
      forall k | i <= k && Occurs(s, m, k) ensures k == at || k >= at + |m| {
        NoOverlap(s, m, at, k);
      }
    } else {
      CountOne(s, m, i + 1, at);
    }
  }

  // ----- the fields of a frame -----

  lemma IndexIs(s: string, c: char, i: nat, at: nat)
    requires i <= at < |s| && s[at] == c && forall k :: i <= k < at ==> s[k] != c
    ensures Index(s, [c], i) == Some(at)
  {
    var r := Index(s, [c], i);
    assert Occurs(s, [c], at);
    assert r.Some?;
    OccursAt(s, [c], r.value, 0);
  }

  /** The characters of a frame that the noise argument needs: nothing after the marker and before the newline is an
      underscore or a newline. */
  lemma BodyCharacters(claimed: string, encoded: string)
    requires Plain(claimed)
    requires Base64.Decode(encoded).Some?
    ensures forall k :: 0 <= k < |claimed| ==> claimed[k] != '_' && claimed[k] != '\n' && claimed[k] != ' '
    ensures forall k :: 0 <= k < |encoded| ==> encoded[k] !in {'_', '\n', '\r', ' '}
  {
    Base64.DecodedInAlphabet(encoded);
    forall k | 0 <= k < |encoded| ensures encoded[k] !in {'_', '\n', '\r', ' '} {
      assert Base64.InAlphabet(encoded[k]);
    }
  }

  lemma StripReturns(head: string, crs: nat)
    requires head == "" || head[|head| - 1] != '\r'
    ensures StripCR(head + Returns(crs)) == head
  {
    var s := head + Returns(crs);
    if head != "" {
      assert s[|head| - 1] == head[|head| - 1];
    }
  }

  lemma FieldsDecode(marker: string, claimed: string, encoded: string, hex: seq<Base64.Byte> -> string,
                     payload: seq<Base64.Byte>)
    requires Distinctive(marker) && Base64.Decode(encoded) == Some(payload) && claimed == hex(payload)
    requires Plain(claimed)
    ensures DecodeFields(marker + claimed + " " + encoded, hex) == Payload(payload)
  {
    var frame := marker + claimed + " " + encoded;
    var first, second := |marker| - 1, |marker| + |claimed|;
    IndexIs(frame, ' ', 0, first);
    IndexIs(frame, ' ', first + 1, second);
    assert frame[first + 1..second] == claimed;
    assert frame[second + 1..] == encoded;
  }

  // ----- the marker stands in exactly one place -----

  lemma OccursInside(s: string, m: string, i: int, lo: int, part: string)
    requires Occurs(s, m, i) && 0 <= lo <= i && i + |m| <= lo + |part| && lo + |part| <= |s|
        && s[lo..lo + |part|] == part
    ensures Occurs(part, m, i - lo)
  {
    forall k | 0 <= k < |m| ensures part[i - lo + k] == m[k] {
      OccursAt(s, m, i, k);
      assert part[i - lo + k] == s[i + k];
    }
    assert part[i - lo..i - lo + |m|] == m;
  }

  lemma OccursLift(s: string, m: string, lo: nat, part: string, i: int)
    requires lo + |part| <= |s| && part == s[lo..lo + |part|]
    ensures Occurs(part, m, i) ==> Occurs(s, m, lo + i)
  {
    if Occurs(part, m, i) {
      forall k | 0 <= k < |m| ensures s[lo + i + k] == m[k] {
        OccursAt(part, m, i, k);
        assert part[i + k] == s[lo + i + k];
      }
      assert s[lo + i..lo + i + |m|] == m;
    }
  }

  /** Neither the noise nor the frame holds the marker a second time, and no occurrence straddles their borders. */
  lemma OnlyOccurrence(before: string, m: string, body: string, after: string, k: int)
    requires Distinctive(m) && Free(before, m) && Free(after, m)
    requires forall j :: 0 <= j < |body| ==> body[j] != '_' && body[j] != '\n'
    requires Occurs(before + (m + body + "\n") + after, m, k)
    ensures k == |before|
  {
    var s := before + (m + body + "\n") + after;
    var at, newline := |before|, |before| + |m| + |body|;
    assert s[newline] == '\n';
    assert forall j :: at <= j < at + |m| ==> s[j] == m[j - at];
    assert forall j :: at + |m| <= j < newline ==> s[j] == body[j - at - |m|];
    forall p | k <= p < k + |m| ensures s[p] == m[p - k] {
      OccursAt(s, m, k, p - k);
    }
    if k + |m| <= at {
      OccursInside(s, m, k, 0, before);
    } else if newline < k {
      OccursInside(s, m, k, newline + 1, after);
    } else {
      SpaceSettles(s, m, at, k);
      assert s[k + 10] == '_';
    }
  }

  /** Two overlapping places of a text that both read as the marker are the same place. */
  lemma SpaceSettles(s: string, m: string, at: int, k: int)
    requires Distinctive(m) && 0 <= at && at + |m| <= |s| && 0 <= k && k + |m| <= |s|
    requires forall j :: at <= j < at + |m| ==> s[j] == m[j - at]
    requires forall p :: k <= p < k + |m| ==> s[p] == m[p - k]
    ensures k == at || k + |m| <= at || at + |m| <= k
  {
    assert s[k + |m| - 1] == ' ' && s[at + |m| - 1] == ' ';
  }

  // ----- the main results -----

  /** A frame in marker-free noise, within the bounds, is decoded to its payload. */
  lemma FrameDecodes(serial: string, shipping: bool, hex: seq<Base64.Byte> -> string, before: string, encoded: string,
                     crs: nat, after: string, payload: seq<Base64.Byte>)
    requires HexDigest(hex) && IsFrame(serial, shipping, hex(payload), before, encoded, crs, after, payload)
    ensures DecodeFrame(serial, shipping, hex) == Payload(payload)
  {
    hide Marker, Mark, DecodeFrame, DecodeFields, Count, Index, Occurs, StripCR, Framed, Distinctive, Free;
    hide Base64.Decode, Base64.Decodes;
    MarkerExactly(shipping);
    Base64.DecodeExactly(encoded, payload);
    var m, claimed := Marker(shipping), hex(payload);
    MarkersDistinctive(shipping);
    assert Plain(claimed);
    hide HexDigest, Plain;
    var head := m + claimed + " " + encoded;
    FrameFound(serial, m, claimed, before, encoded, crs, after);
    FrameCut(serial, m, claimed, before, encoded, crs, after);
    FieldsDecode(m, claimed, encoded, hex, payload);
    DecodeChain(serial, shipping, hex, |before|, |head| + crs, head);
  }

  predicate Plain(claimed: string) {
    forall k :: 0 <= k < |claimed| ==> HexDigit(claimed[k])
  }

  lemma FrameFound(serial: string, m: string, claimed: string, before: string, encoded: string, crs: nat, after: string)
    requires serial == Framed(before, m, claimed, encoded, crs, after) && Distinctive(m) && Plain(claimed)
    requires Base64.Decode(encoded).Some? && Free(before, m) && Free(after, m)
    ensures Count(serial, m, 0) == 1 && Index(serial, m, 0) == Some(|before|)
  {
    BodyCharacters(claimed, encoded);
    hide Count, Index, Free, Occurs, Distinctive;
    var body := claimed + " " + encoded + Returns(crs);
    assert m + claimed + " " + encoded + Returns(crs) == m + body;
    MarkerFound(serial, m, before, body, after);
  }

  /** What stands before the carriage returns holds no newline and does not end in a carriage return itself. */
  lemma HeadCharacters(m: string, claimed: string, encoded: string)
    requires Distinctive(m) && Plain(claimed) && Base64.Decode(encoded).Some?
    ensures var head := m + claimed + " " + encoded;
      head != "" && head[|head| - 1] != '\r' && forall k :: 0 <= k < |head| ==> head[k] != '\n'
  {
    hide Base64.Decode, Plain;
    BodyCharacters(claimed, encoded);
    var head := m + claimed + " " + encoded;
    assert head[|head| - 1] == if encoded == "" then ' ' else encoded[|encoded| - 1];
  }

  lemma FrameCut(serial: string, m: string, claimed: string, before: string, encoded: string, crs: nat, after: string)
    requires serial == Framed(before, m, claimed, encoded, crs, after) && Distinctive(m) && Plain(claimed)
    requires Base64.Decode(encoded).Some?
    ensures var head := m + claimed + " " + encoded;
      && Index(serial[|before|..], "\n", 0) == Some(|head| + crs)
      && StripCR(serial[|before|..][..|head| + crs]) == head
  {
    hide Index, StripCR, Occurs, Distinctive, Plain, Base64.Decode;
    HeadCharacters(m, claimed, encoded);
    FrameCutOut(serial, before, m + claimed + " " + encoded, crs, after);
  }

  lemma DecodeChain(serial: string, shipping: bool, hex: seq<Base64.Byte> -> string, at: nat, stop: nat, frame: string)
    requires |serial| <= 16777216 && Count(serial, Marker(shipping), 0) == 1
    requires Index(serial, Marker(shipping), 0) == Some(at) && Index(serial[at..], "\n", 0) == Some(stop)
    requires StripCR(serial[at..][..stop]) == frame && |frame| <= 131072
    ensures DecodeFrame(serial, shipping, hex) == DecodeFields(frame, hex)
  {
    hide Count, Index, StripCR, DecodeFields, Marker, Occurs;
  }

  /** Cutting at the first newline and stripping the carriage returns leaves the frame's fields. */
  lemma FrameCutOut(serial: string, before: string, head: string, crs: nat, after: string)
    requires serial == before + (head + Returns(crs) + "\n") + after
    requires head != "" && head[|head| - 1] != '\r' && forall k :: 0 <= k < |head| ==> head[k] != '\n'
    ensures Index(serial[|before|..], "\n", 0) == Some(|head| + crs)
    ensures StripCR(serial[|before|..][..|head| + crs]) == head
  {
    var tail := serial[|before|..];
    var line := head + Returns(crs);
    assert tail == line + "\n" + after;
    IndexIs(tail, '\n', 0, |line|);
    assert tail[..|line|] == line;
    StripReturns(head, crs);
  }

  lemma MarkerFound(serial: string, m: string, before: string, body: string, after: string)
    requires Distinctive(m) && Free(before, m) && Free(after, m) && serial == before + (m + body + "\n") + after
    requires forall j :: 0 <= j < |body| ==> body[j] != '_' && body[j] != '\n'
    ensures Count(serial, m, 0) == 1 && Index(serial, m, 0) == Some(|before|)
  {
    forall k | Occurs(serial, m, k) ensures k == |before| {
      OnlyOccurrence(before, m, body, after, k);
    }
    assert serial[|before|..|before| + |m|] == m;
    CountOne(serial, m, 0, |before|);
  }

  /** What the guest writes is recovered: the round trip, on every payload and any marker-free noise that fits. */
  lemma PayloadRecovered(payload: seq<Base64.Byte>, shipping: bool, hex: seq<Base64.Byte> -> string, before: string,
                         crs: nat, after: string)
    requires HexDigest(hex) && Free(before, Mark(shipping)) && Free(after, Mark(shipping))
    requires |Mark(shipping) + hex(payload) + " " + Base64.Encode(payload)| <= 131072
    requires |Framed(before, Mark(shipping), hex(payload), Base64.Encode(payload), crs, after)| <= 16777216
    ensures DecodeFrame(Framed(before, Mark(shipping), hex(payload), Base64.Encode(payload), crs, after),
                        shipping, hex)
            == Payload(payload)
  {
    hide *;
    var encoded := Base64.Encode(payload);
    Base64.RoundTrip(payload);
    Base64.DecodeExactly(encoded, payload);
    var serial := Framed(before, Mark(shipping), hex(payload), encoded, crs, after);
    FramedMeans(serial, shipping, hex(payload), before, encoded, crs, after, payload);
    FrameDecodes(serial, shipping, hex, before, encoded, crs, after, payload);
  }

  /** Nothing else is accepted: a decoded payload comes from one frame in marker-free noise whose claimed digest is
      the payload's. */
  lemma OnlyFramesDecode(serial: string, shipping: bool, hex: seq<Base64.Byte> -> string, payload: seq<Base64.Byte>)
      returns (before: string, encoded: string, crs: nat, after: string)
    requires DecodeFrame(serial, shipping, hex) == Payload(payload)
    ensures IsFrame(serial, shipping, hex(payload), before, encoded, crs, after, payload)
  {
    hide *;
    var m := Marker(shipping);
    MarkersDistinctive(shipping);
    var start, stop, frame := DecodeParts(serial, shipping, hex, payload);
    before, crs, after := Line(serial, m, start, stop, frame);
    encoded := FieldsOf(frame, m, hex, payload);
    Assembled(serial, start, stop, m, hex(payload), encoded, crs);
    MarkerExactly(shipping);
    Base64.DecodeExactly(encoded, payload);
    FramedMeans(serial, shipping, hex(payload), before, encoded, crs, after, payload);
  }

  lemma FramedMeans(serial: string, shipping: bool, claimed: string, before: string, encoded: string, crs: nat,
                    after: string, payload: seq<Base64.Byte>)
    requires serial == Framed(before, Mark(shipping), claimed, encoded, crs, after)
    requires Base64.Decodes(encoded, payload) && |serial| <= 16777216
    requires |Mark(shipping) + claimed + " " + encoded| <= 131072
    requires Free(before, Mark(shipping)) && Free(after, Mark(shipping))
    ensures IsFrame(serial, shipping, claimed, before, encoded, crs, after, payload)
  {
    hide Framed, Mark, Free, Base64.Decodes;
  }

  /** The noise around the line that holds the marker, and the carriage returns at the end of that line. */
  lemma Line(serial: string, m: string, start: nat, stop: nat, frame: string)
      returns (before: string, crs: nat, after: string)
    requires Distinctive(m) && Count(serial, m, 0) == 1
    requires Index(serial, m, 0) == Some(start) && start <= |serial| && Index(serial[start..], "\n", 0) == Some(stop)
    requires stop <= |serial| - start && StripCR(serial[start..][..stop]) == frame
    ensures start + stop < |serial| && serial[start..][stop] == '\n' && serial[start..][..stop] == frame + Returns(crs)
    ensures before == serial[..start] && after == serial[start + stop + 1..] && Free(before, m) && Free(after, m)
    ensures |m| <= |frame| && frame[..|m|] == m
  {
    hide Count, Free, Index, StripCR, Distinctive, Occurs;
    var tail := serial[start..];
    OccursFits(tail, "\n", stop);
    OccursAt(tail, "\n", stop, 0);
    NoiseFree(serial, m, start, start + stop + 1);
    MarkerLeads(serial, m, start, tail, stop);
    StripCRParts(tail[..stop]);
    before, crs, after := serial[..start], stop - |frame|, serial[start + stop + 1..];
  }

  lemma OccursFits(s: string, m: string, i: int)
    requires Occurs(s, m, i)
    ensures 0 <= i <= i + |m| <= |s|
  {
  }

  lemma StripCRParts(s: string)
    ensures |StripCR(s)| <= |s| && s == StripCR(s) + Returns(|s| - |StripCR(s)|)
  {
    hide StripCR;
  }

  lemma Assembled(serial: string, start: nat, stop: nat, m: string, claimed: string, encoded: string, crs: nat)
    requires start + stop < |serial| && serial[start..][stop] == '\n'
    requires serial[start..][..stop] == (m + claimed + " " + encoded) + Returns(crs)
    ensures serial == Framed(serial[..start], m, claimed, encoded, crs, serial[start + stop + 1..])
  {
    var tail, line := serial[start..], serial[start..][..stop];
    assert tail == line + "\n" + tail[stop + 1..];
    assert m + claimed + " " + encoded + Returns(crs) + "\n" == line + "\n";
    assert serial[start + stop + 1..] == tail[stop + 1..];
    assert serial == serial[..start] + tail;
  }

  lemma DecodeParts(serial: string, shipping: bool, hex: seq<Base64.Byte> -> string, payload: seq<Base64.Byte>)
      returns (at: nat, stop: nat, frame: string)
    requires DecodeFrame(serial, shipping, hex) == Payload(payload)
    ensures |serial| <= 16777216 && Count(serial, Marker(shipping), 0) == 1
    ensures Index(serial, Marker(shipping), 0) == Some(at) && at <= |serial|
    ensures Index(serial[at..], "\n", 0) == Some(stop) && stop <= |serial| - at
    ensures StripCR(serial[at..][..stop]) == frame && |frame| <= 131072
    ensures DecodeFields(frame, hex) == Payload(payload)
  {
    hide Count, StripCR, DecodeFields, Marker;
    at := Index(serial, Marker(shipping), 0).value;
    stop := Index(serial[at..], "\n", 0).value;
    frame := StripCR(serial[at..][..stop]);
  }

  lemma FieldsOf(frame: string, m: string, hex: seq<Base64.Byte> -> string, payload: seq<Base64.Byte>)
      returns (encoded: string)
    requires Distinctive(m) && |m| <= |frame| && frame[..|m|] == m && DecodeFields(frame, hex) == Payload(payload)
    ensures frame == m + hex(payload) + " " + encoded && Base64.Decode(encoded) == Some(payload)
  {
    FirstSpace(frame, m);
    hide Index, Distinctive, Occurs, Base64.Decode;
    var second := Index(frame, " ", |m|).value;
    OccursAt(frame, " ", second, 0);
    encoded := frame[second + 1..];
    assert frame == frame[..|m|] + frame[|m|..second] + " " + encoded;
  }

  /** The marker ends in the first space of the frame. */
  lemma FirstSpace(frame: string, m: string)
    requires Distinctive(m) && |m| <= |frame| && frame[..|m|] == m
    ensures Index(frame, " ", 0) == Some(|m| - 1)
  {
    assert forall k :: 0 <= k < |m| ==> frame[k] == frame[..|m|][k];
    IndexIs(frame, ' ', 0, |m| - 1);
  }

  /** The marker lies whole before the newline and before the carriage returns stripped. */
  lemma MarkerLeads(serial: string, m: string, start: nat, tail: string, stop: nat)
    requires Distinctive(m) && Occurs(serial, m, start) && tail == serial[start..]
    requires Occurs(tail, "\n", stop)
    ensures |m| <= |StripCR(tail[..stop])| && StripCR(tail[..stop])[..|m|] == m
  {
    assert tail[..|m|] == m;
    OccursAt(tail, "\n", stop, 0);
    assert forall j :: 0 <= j < |m| ==> tail[j] == m[j];
    var frame := StripCR(tail[..stop]);
    assert |m| <= stop;
    assert tail[..stop][|m| - 1] == ' ';
  }

  lemma NoiseFree(serial: string, m: string, start: nat, rest: nat)
    requires Distinctive(m) && Count(serial, m, 0) == 1 && Index(serial, m, 0) == Some(start)
        && start < rest <= |serial|
    ensures Free(serial[..start], m) && Free(serial[rest..], m)
  {
    CountOne(serial, m, 0, start);
    forall i ensures !Occurs(serial[..start], m, i) {
      OccursLift(serial, m, 0, serial[..start], i);
    }
    forall i ensures !Occurs(serial[rest..], m, i) {
      OccursLift(serial, m, rest, serial[rest..], i);
    }
  }
}
