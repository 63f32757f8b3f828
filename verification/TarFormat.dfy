/** Tar headers and pax records as scripts/navigation-linux-vendor-manifest.py reads them. */
module TarFormat {
  import opened Options

  type Byte = b: int | 0 <= b < 256
  type Bytes = seq<Byte>

  const PACKAGE_MAX_FILE_SIZE: nat := 543408877
  const METADATA_LIMIT: nat := 65536
  const HEADER_LIMIT: nat := 20000

  // ----- headers -----

  predicate AllZero(s: Bytes) { forall i :: 0 <= i < |s| ==> s[i] == 0 }

  predicate IsPadding(b: Byte) { b == 0 || b == 32 }

  function StripLeft(s: Bytes): Bytes {
    if s != [] && IsPadding(s[0]) then StripLeft(s[1..]) else s
  }

  function StripRight(s: Bytes): Bytes {
    if s != [] && IsPadding(s[|s| - 1]) then StripRight(s[..|s| - 1]) else s
  }

  predicate IsOctal(s: Bytes) { forall i :: 0 <= i < |s| ==> 48 <= s[i] <= 55 }

  function OctalValue(s: Bytes): nat
    requires IsOctal(s)
  {
    if s == [] then 0 else OctalValue(s[..|s| - 1]) * 8 + (s[|s| - 1] - 48)
  }

  /** The number in a size field, when it is one the guard accepts. */
  function GuardNumber(field: Bytes): Option<nat> {
    var digits := StripRight(StripLeft(field));
    if digits == [] || !IsOctal(digits) then None else Some(OctalValue(digits))
  }

  /** The declared size. */
  function DeclaredSize(h: Bytes): Option<nat>
    requires |h| == 512
  {
    GuardNumber(h[124..136])
  }

  function Kind(h: Bytes): Byte
    requires |h| == 512
  {
    h[156]
  }

  /** `x` (120), `g` (103), `L` (76) and `K` (75) carry metadata for later headers. */
  predicate IsMetadata(kind: Byte) { kind in {120, 103, 76, 75} }

  predicate IsPax(kind: Byte) { kind in {120, 103} }

  /** `0`, NUL, directory, symbolic link and the four metadata kinds. */
  predicate IsSupported(kind: Byte) { kind in {48, 0, 53, 50} || IsMetadata(kind) }

  function UpToNul(s: Bytes): Bytes {
    if s == [] || s[0] == 0 then [] else [s[0]] + UpToNul(s[1..])
  }

  /** A directory header named `.` or `./`. */
  predicate IsRoot(h: Bytes)
    requires |h| == 512
  {
    Kind(h) == 53 && UpToNul(h[..100]) in {[46], [46, 47]}
  }

  function RoundUp(size: nat): nat { (size + 511) / 512 * 512 }

  predicate HeaderOk(h: Bytes)
    requires |h| == 512
  {
    && DeclaredSize(h).Some? && IsSupported(Kind(h))
    && DeclaredSize(h).value <= if IsMetadata(Kind(h)) then METADATA_LIMIT else PACKAGE_MAX_FILE_SIZE
  }

  lemma RoundUpBounds(size: nat)
    ensures size <= RoundUp(size) < size + 512
    ensures RoundUp(size) == 0 <==> size == 0
  {
  }

  // ----- pax records: "<length> <key>=<value>\n", length counting the whole record -----

  predicate IsDigits(s: Bytes) { forall i :: 0 <= i < |s| ==> 48 <= s[i] <= 57 }

  function DecimalValue(s: Bytes): nat
    requires IsDigits(s)
  {
    if s == [] then 0 else DecimalValue(s[..|s| - 1]) * 10 + (s[|s| - 1] - 48)
  }

  /** Everything before the first `=`. */
  function KeyOf(content: Bytes): Bytes {
    if content == [] || content[0] == 61 then [] else [content[0]] + KeyOf(content[1..])
  }

  /** "size" */
  const SIZE_KEY: Bytes := [115, 105, 122, 101]
  /** "GNU.sparse" */
  const SPARSE_PREFIX: Bytes := [71, 78, 85, 46, 115, 112, 97, 114, 115, 101]

  predicate OverridesLayout(content: Bytes) { KeyOf(content) == SIZE_KEY || SPARSE_PREFIX <= KeyOf(content) }

  datatype Record = Record(digits: Bytes, content: Bytes)

  function Encode(r: Record): Bytes { r.digits + [32] + r.content + [10] }

  function EncodeAll(rs: seq<Record>): Bytes { if rs == [] then [] else Encode(rs[0]) + EncodeAll(rs[1..]) }

  /** The record counts its own length. */
  predicate SelfDelimited(r: Record) {
    r.digits != [] && IsDigits(r.digits) && DecimalValue(r.digits) == |Encode(r)|
  }

  predicate RecordOk(r: Record) {
    SelfDelimited(r) && 61 in r.content && !OverridesLayout(r.content)
  }

  function Find(s: Bytes, b: Byte, from: nat): (i: nat)
    requires from <= |s|
    ensures from <= i <= |s|
    ensures i < |s| ==> s[i] == b
    ensures forall j :: from <= j < i ==> s[j] != b
    decreases |s| - from
  {
    if from == |s| || s[from] == b then from else Find(s, b, from + 1)
  }

  /** Where the record at `cursor` ends, when one starts there. */
  function RecordEnd(s: Bytes, cursor: nat): Option<nat>
    requires cursor < |s|
  {
    var space := Find(s, 32, cursor);
    if space == |s| || space == cursor || !IsDigits(s[cursor..space]) then None
    else
      var end := cursor + DecimalValue(s[cursor..space]);
      if end <= |s| && end > space + 1 && s[end - 1] == 10 then Some(end) else None
  }

  function RecordAt(s: Bytes, cursor: nat): (r: Record)
    requires cursor < |s| && RecordEnd(s, cursor).Some?
  {
    var space := Find(s, 32, cursor);
    Record(s[cursor..space], s[space + 1..RecordEnd(s, cursor).value - 1])
  }

  lemma Slice(s: Bytes, from: nat, t: Bytes, i: nat, j: nat)
    requires i <= j <= |t| && from + |t| <= |s| && s[from..from + |t|] == t
    ensures s[from + i..from + j] == t[i..j]
  {
    var u := s[from..from + |t|];
    forall k | i <= k < j ensures s[from + k] == u[k] {
    }
    assert |s[from + i..from + j]| == j - i;
    forall k | 0 <= k < j - i ensures s[from + i..from + j][k] == t[i..j][k] {
      assert s[from + i..from + j][k] == s[from + (i + k)] == u[i + k];
    }
  }

  lemma TwoParts(a: Bytes, b: Bytes, c: Bytes)
    ensures (a + b + c)[|a|..|a| + |b|] == b
  {
    assert (a + b + c)[..|a| + |b|] == a + b;
    assert (a + b)[|a|..] == b;
    assert (a + b + c)[|a|..|a| + |b|] == (a + b + c)[..|a| + |b|][|a|..];
  }

  /** The parts of an encoded record. */
  lemma EncodeParts(r: Record)
    ensures var n, e := |r.digits|, Encode(r);
      && |e| == n + |r.content| + 2
      && e[..n] == r.digits && e[n..n + 1] == [32] && e[n + 1..|e| - 1] == r.content && e[|e| - 1..] == [10]
  {
    var n, e := |r.digits|, Encode(r);
    TwoParts(r.digits, [32], r.content + [10]);
    assert e == r.digits + [32] + (r.content + [10]);
    TwoParts(r.digits + [32], r.content, [10]);
  }

  lemma RecordAtEncodes(s: Bytes, cursor: nat)
    requires cursor < |s| && RecordEnd(s, cursor).Some?
    ensures cursor < RecordEnd(s, cursor).value <= |s|
    ensures Encode(RecordAt(s, cursor)) == s[cursor..RecordEnd(s, cursor).value]
    ensures SelfDelimited(RecordAt(s, cursor))
  {
    hide DecimalValue, IsDigits;
    var space, end := Find(s, 32, cursor), RecordEnd(s, cursor).value;
    Joined(s, cursor, space, end);
  }

  lemma Joined(s: Bytes, i: nat, j: nat, k: nat)
    requires i <= j < k - 1 < k <= |s|
    ensures s[i..k] == s[i..j] + [s[j]] + s[j + 1..k - 1] + [s[k - 1]]
  {
    assert s[i..j] + [s[j]] == s[i..j + 1];
    assert s[i..j + 1] + s[j + 1..k - 1] == s[i..k - 1];
  }

  /** The parts of a record that stands at `cursor`. */
  lemma EncodedParts(s: Bytes, cursor: nat, r: Record)
    requires cursor + |Encode(r)| <= |s| && s[cursor..cursor + |Encode(r)|] == Encode(r)
    ensures var n, end := |r.digits|, cursor + |Encode(r)|;
      && |Encode(r)| == n + |r.content| + 2
      && s[cursor..cursor + n] == r.digits && s[cursor + n] == 32
      && s[cursor + n + 1..end - 1] == r.content && s[end - 1] == 10
  {
    hide Encode;
    var n, e := |r.digits|, Encode(r);
    EncodeParts(r);
    Slice(s, cursor, e, 0, n);
    Slice(s, cursor, e, n, n + 1);
    Slice(s, cursor, e, n + 1, |e| - 1);
    Slice(s, cursor, e, |e| - 1, |e|);
    assert s[cursor + n] == s[cursor + n..cursor + n + 1][0];
    assert s[cursor + |e| - 1] == s[cursor + |e| - 1..cursor + |e|][0];
  }

  /** A record that starts at `cursor` is the one the cursor scan finds there. */
  lemma EncodedIsFound(s: Bytes, cursor: nat, r: Record)
    requires SelfDelimited(r) && cursor + |Encode(r)| <= |s| && s[cursor..cursor + |Encode(r)|] == Encode(r)
    ensures RecordEnd(s, cursor) == Some(cursor + |Encode(r)|) && RecordAt(s, cursor) == r
  {
    EncodedParts(s, cursor, r);
    var n := |r.digits|;
    forall k | cursor <= k < cursor + n ensures s[k] != 32 {
      assert s[cursor..cursor + n][k - cursor] == r.digits[k - cursor];
    }
    hide Encode, Find, DecimalValue, IsDigits;
    FindIs(s, 32, cursor, cursor + n);
  }

  lemma {:induction false} FindIs(s: Bytes, b: Byte, from: nat, at: nat)
    requires from <= at < |s| && s[at] == b && forall j :: from <= j < at ==> s[j] != b
    ensures Find(s, b, from) == at
    decreases at - from
  {
    if from < at { FindIs(s, b, from + 1, at); }
  }

  /** The records a reader of the format finds from `cursor` on; a malformed rest ends the list. */
  function ParseFrom(s: Bytes, cursor: nat): seq<Record>
    requires cursor <= |s|
    decreases |s| - cursor
  {
    if cursor == |s| || RecordEnd(s, cursor).None? then []
    else
      RecordAtEncodes(s, cursor);
      [RecordAt(s, cursor)] + ParseFrom(s, RecordEnd(s, cursor).value)
  }

  /** What the cursor loop of `validate_pax` accepts. */
  predicate PaxOkFrom(s: Bytes, cursor: nat)
    requires cursor <= |s|
    decreases |s| - cursor
  {
    cursor == |s| ||
    (RecordEnd(s, cursor).Some? &&
      (RecordAtEncodes(s, cursor); RecordOk(RecordAt(s, cursor))) &&
      (RecordAtEncodes(s, cursor); PaxOkFrom(s, RecordEnd(s, cursor).value)))
  }

  predicate PaxOk(s: Bytes) { PaxOkFrom(s, 0) }

  lemma {:induction false} ParseSound(s: Bytes, cursor: nat)
    requires cursor <= |s| && PaxOkFrom(s, cursor)
    ensures EncodeAll(ParseFrom(s, cursor)) == s[cursor..]
    ensures forall r :: r in ParseFrom(s, cursor) ==> RecordOk(r)
    decreases |s| - cursor
  {
    hide Encode, RecordEnd, RecordAt, SelfDelimited, OverridesLayout;
    if cursor < |s| {
      RecordAtEncodes(s, cursor);
      var end := RecordEnd(s, cursor).value;
      ParseSound(s, end);
      assert s[cursor..] == s[cursor..end] + s[end..];
    }
  }

  lemma FirstRecord(s: Bytes, cursor: nat, r: Record, rest: Bytes)
    requires cursor <= |s| && s[cursor..] == Encode(r) + rest && SelfDelimited(r)
    ensures cursor < cursor + |Encode(r)| <= |s| && s[cursor + |Encode(r)|..] == rest
    ensures RecordEnd(s, cursor) == Some(cursor + |Encode(r)|) && RecordAt(s, cursor) == r
  {
    hide RecordEnd, RecordAt, SelfDelimited;
    var e := Encode(r);
    assert |s| - cursor == |e| + |rest|;
    assert s[cursor..cursor + |e|] == s[cursor..][..|e|] == e;
    assert s[cursor + |e|..] == s[cursor..][|e|..] == rest;
    EncodedIsFound(s, cursor, r);
  }

  lemma {:induction false} ParseComplete(s: Bytes, cursor: nat, rs: seq<Record>)
    requires cursor <= |s| && s[cursor..] == EncodeAll(rs) && forall r :: r in rs ==> RecordOk(r)
    ensures PaxOkFrom(s, cursor) && ParseFrom(s, cursor) == rs
    decreases |rs|
  {
    hide Encode, RecordEnd, RecordAt, SelfDelimited, OverridesLayout;
    if rs == [] {
      assert cursor == |s|;
    } else {
      assert RecordOk(rs[0]) by { assert rs[0] in rs; }
      FirstRecord(s, cursor, rs[0], EncodeAll(rs[1..]));
      ParseComplete(s, cursor + |Encode(rs[0])|, rs[1..]);
      assert rs == [rs[0]] + rs[1..];
    }
  }

  /** `validate_pax` accepts exactly the concatenations of self-delimited key=value records that do not
      touch the layout. */
  lemma PaxGrammar(s: Bytes)
    ensures PaxOk(s) <==> IsPaxPayload(s)
  {
    assert s[0..] == s;
    if PaxOk(s) {
      ParseSound(s, 0);
      assert EncodesTo(ParseFrom(s, 0), s);
    }
    if IsPaxPayload(s) {
      var rs :| EncodesTo(rs, s);
      ParseComplete(s, 0, rs);
    }
  }

  ghost predicate EncodesTo(rs: seq<Record>, s: Bytes) {
    EncodeAll(rs) == s && forall r :: r in rs ==> RecordOk(r)
  }

  ghost predicate IsPaxPayload(s: Bytes) { exists rs :: EncodesTo(rs, s) }

  lemma PaxStep(s: Bytes, cursor: nat)
    requires cursor < |s|
    ensures RecordEnd(s, cursor).None? ==> !PaxOkFrom(s, cursor)
    ensures RecordEnd(s, cursor).Some? ==>
      var end := RecordEnd(s, cursor).value;
      cursor < end <= |s| && PaxOkFrom(s, cursor) == (RecordOk(RecordAt(s, cursor)) && PaxOkFrom(s, end))
    ensures RecordEnd(s, cursor).Some? ==>
      RecordOk(RecordAt(s, cursor))
          == (61 in RecordAt(s, cursor).content && !OverridesLayout(RecordAt(s, cursor).content))
  {
    if RecordEnd(s, cursor).Some? { RecordAtEncodes(s, cursor); }
  }
}
