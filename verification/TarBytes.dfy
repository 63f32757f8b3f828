/** What the guard accepts, byte by byte: the archive, its headers and the records of its pax payloads, said without any
    function the guard itself is written with. */
module TarBytes {
  import opened Options
  import opened TarFormat
  import opened TarGuard
  import opened TarGrammar

  // ----- numbers -----

  function Power(base: nat, n: nat): nat { if n == 0 then 1 else base * Power(base, n - 1) }

  /** The first digit counts for the highest power. */
  function Places(base: nat, digits: Bytes): int {
    if digits == [] then 0 else (digits[0] - 48) * Power(base, |digits| - 1) + Places(base, digits[1..])
  }

  lemma {:induction false} PlacesAppend(base: nat, digits: Bytes, last: Byte)
    ensures Places(base, digits + [last]) == Places(base, digits) * base + (last as int - 48)
  {
    var s := digits + [last];
    if digits == [] {
      assert s[1..] == [];
      assert Power(base, 0) == 1;
    } else {
      assert s[1..] == digits[1..] + [last];
      PlacesAppend(base, digits[1..], last);
      var d: int, p: int, q: int := digits[0] as int - 48, Power(base, |digits| - 1), Places(base, digits[1..]);
      assert Power(base, |digits|) == base * p;
      Distributes(d, p, q, base);
    }
  }

  lemma Distributes(d: int, p: int, q: int, base: int)
    ensures d * (base * p) + q * base == (d * p + q) * base
  {
  }

  lemma {:induction false} OctalPlaces(digits: Bytes)
    requires IsOctal(digits)
    ensures OctalValue(digits) == Places(8, digits)
  {
    if digits != [] {
      var front, last := digits[..|digits| - 1], digits[|digits| - 1];
      OctalPlaces(front);
      PlacesAppend(8, front, last);
      assert digits == front + [last];
    }
  }

  lemma {:induction false} DecimalPlaces(digits: Bytes)
    requires IsDigits(digits)
    ensures DecimalValue(digits) == Places(10, digits)
  {
    if digits != [] {
      var front, last := digits[..|digits| - 1], digits[|digits| - 1];
      DecimalPlaces(front);
      PlacesAppend(10, front, last);
      assert digits == front + [last];
    }
  }

  // ----- pax records -----

  /** Decimal digits that count the whole record, a space, and a newline at the end. */
  predicate Delimited(rec: Bytes, space: nat) {
    && 0 < space < |rec| - 1 && rec[space] == 32 && rec[|rec| - 1] == 10
    && (forall i :: 0 <= i < space ==> 48 <= rec[i] <= 57) && Places(10, rec[..space]) == |rec|
  }

  /** The first `=` of a text stands at k. */
  predicate FirstEquals(content: Bytes, k: nat) {
    k < |content| && content[k] == 61 && forall j :: 0 <= j < k ==> content[j] != 61
  }

  /** What stands before the `=` is "size" or begins with "GNU.sparse". */
  predicate NamesLayout(content: Bytes, k: nat)
    requires k <= |content|
  {
    || content[..k] == [115, 105, 122, 101]
    || (k >= 10 && content[..10] == [71, 78, 85, 46, 115, 112, 97, 114, 115, 101])
  }

  ghost predicate HarmlessRecord(rec: Bytes) {
    exists space, k :: HarmlessAt(rec, space, k)
  }

  predicate HarmlessAt(rec: Bytes, space: nat, k: nat) {
    Delimited(rec, space)
    && FirstEquals(rec[space + 1..|rec| - 1], k) && !NamesLayout(rec[space + 1..|rec| - 1], k)
  }

  /** A record that counts itself but holds no `=`, or names the layout. */
  ghost predicate HarmfulRecord(rec: Bytes) {
    exists space :: Delimited(rec, space) && Harmful(rec[space + 1..|rec| - 1])
  }

  ghost predicate Harmful(content: Bytes) {
    || (forall i :: 0 <= i < |content| ==> content[i] != 61)
    || exists k :: FirstEquals(content, k) && NamesLayout(content, k)
  }

  function Flat(records: seq<Bytes>): Bytes { if records == [] then [] else records[0] + Flat(records[1..]) }

  ghost predicate AllHarmless(records: seq<Bytes>) { forall i :: 0 <= i < |records| ==> HarmlessRecord(records[i]) }

  ghost predicate HarmlessPayload(payload: Bytes) {
    exists records :: Flat(records) == payload && AllHarmless(records)
  }

  lemma {:induction false} KeyStops(content: Bytes, k: nat)
    requires FirstEquals(content, k)
    ensures KeyOf(content) == content[..k] && 61 in content
  {
    if k == 0 {
      assert content[..0] == [];
    } else {
      KeyStops(content[1..], k - 1);
      assert content[..k] == [content[0]] + content[1..][..k - 1];
    }
  }

  lemma {:induction false} EqualsFound(content: Bytes) returns (k: nat)
    requires 61 in content
    ensures FirstEquals(content, k)
  {
    if content[0] == 61 {
      k := 0;
    } else {
      var j := EqualsFound(content[1..]);
      k := j + 1;
      forall i | 0 <= i < k ensures content[i] != 61 {
        if i > 0 { assert content[i] == content[1..][i - 1]; }
      }
    }
  }

  lemma OverridesExactly(content: Bytes, k: nat)
    requires FirstEquals(content, k)
    ensures OverridesLayout(content) <==> NamesLayout(content, k)
  {
    KeyStops(content, k);
    if k >= 10 { assert content[..k][..10] == content[..10]; }
  }

  /** A record of the format is its digits, a space, its content and a newline, and the other way round. */
  lemma EncodeDelimited(r: Record)
    requires SelfDelimited(r)
    ensures Delimited(Encode(r), |r.digits|) && Encode(r)[|r.digits| + 1..|Encode(r)| - 1] == r.content
  {
    EncodeParts(r);
    DecimalPlaces(r.digits);
    var e, n := Encode(r), |r.digits|;
    assert e[n] == e[n..n + 1][0] && e[|e| - 1] == e[|e| - 1..][0];
    forall i | 0 <= i < n ensures 48 <= e[i] <= 57 { assert e[i] == e[..n][i]; }
  }

  lemma DelimitedEncodes(rec: Bytes, space: nat) returns (r: Record)
    requires Delimited(rec, space)
    ensures SelfDelimited(r) && Encode(r) == rec && r.content == rec[space + 1..|rec| - 1]
  {
    r := Record(rec[..space], rec[space + 1..|rec| - 1]);
    DecimalPlaces(r.digits);
    Joined(rec, 0, space, |rec|);
    assert rec[0..space] == rec[..space] && rec[0..|rec|] == rec;
  }

  lemma HarmlessExactly(r: Record)
    requires RecordOk(r)
    ensures HarmlessRecord(Encode(r))
  {
    hide Encode, SelfDelimited, OverridesLayout, Delimited;
    var k := EqualsFound(r.content);
    OverridesExactly(r.content, k);
    EncodeDelimited(r);
    assert HarmlessAt(Encode(r), |r.digits|, k);
  }

  lemma HarmlessIs(rec: Bytes) returns (r: Record)
    requires HarmlessRecord(rec)
    ensures RecordOk(r) && Encode(r) == rec
  {
    hide Encode, SelfDelimited, OverridesLayout, Places;
    var space, k :| HarmlessAt(rec, space, k);
    r := DelimitedEncodes(rec, space);
    OverridesExactly(r.content, k);
    KeyStops(r.content, k);
  }

  lemma {:induction false} RecordsFlat(rs: seq<Record>) returns (records: seq<Bytes>)
    requires forall r :: r in rs ==> RecordOk(r)
    ensures Flat(records) == EncodeAll(rs) && AllHarmless(records)
  {
    hide RecordOk, HarmlessRecord, Encode;
    if rs == [] {
      records := [];
    } else {
      assert rs[0] in rs && forall r :: r in rs[1..] ==> r in rs;
      var more := RecordsFlat(rs[1..]);
      HarmlessExactly(rs[0]);
      records := [Encode(rs[0])] + more;
      assert records[1..] == more;
    }
  }

  lemma {:induction false} FlatRecords(records: seq<Bytes>) returns (rs: seq<Record>)
    requires AllHarmless(records)
    ensures Flat(records) == EncodeAll(rs) && forall r :: r in rs ==> RecordOk(r)
  {
    hide RecordOk, HarmlessRecord, Encode;
    if records == [] {
      rs := [];
    } else {
      assert HarmlessRecord(records[0]);
      var r := HarmlessIs(records[0]);
      forall i | 0 <= i < |records[1..]| ensures HarmlessRecord(records[1..][i]) {
        assert records[1..][i] == records[i + 1];
      }
      var more := FlatRecords(records[1..]);
      rs := [r] + more;
      assert rs[1..] == more;
    }
  }

  /** `validate_pax` accepts a payload exactly when it is self-counting records with a `=` each, none of which names
      `size` or a key that begins with `GNU.sparse`. */
  lemma PayloadExactly(payload: Bytes)
    ensures PaxOk(payload) <==> HarmlessPayload(payload)
  {
    PaxGrammar(payload);
    hide PaxOk, RecordOk, HarmlessRecord, Encode;
    if IsPaxPayload(payload) {
      var rs :| EncodesTo(rs, payload);
      var records := RecordsFlat(rs);
      assert Flat(records) == payload;
    }
    if HarmlessPayload(payload) {
      var records :| Flat(records) == payload && AllHarmless(records);
      var rs := FlatRecords(records);
      assert EncodesTo(rs, payload);
    }
  }

  /** `validate_pax`: one cursor loop whose cursor strictly increases. */
  method ValidatePax(payload: Bytes) returns (ok: bool)
    ensures ok == PaxOk(payload)
    ensures ok <==> IsPaxPayload(payload)
    ensures ok <==> HarmlessPayload(payload)
  {
    hide IsPaxPayload, HarmlessPayload, PaxOkFrom, RecordOk, KeyOf, DecimalValue;
    PaxGrammar(payload);
    PayloadExactly(payload);
    var cursor := 0;
    assert PaxOkFrom(payload, 0) == PaxOk(payload);
    while cursor < |payload|
      invariant cursor <= |payload| && PaxOkFrom(payload, cursor) == PaxOk(payload)
      decreases |payload| - cursor
    {
      PaxStep(payload, cursor);
      var space := Find(payload, 32, cursor);
      if space == |payload| || space <= cursor || !IsDigits(payload[cursor..space]) { return false; }
      var length := DecimalValue(payload[cursor..space]);
      var end := cursor + length;
      if !(end <= |payload| && end > space + 1 && payload[end - 1] == 10) { return false; }
      var record := payload[space + 1..end - 1];
      if 61 !in record { return false; }
      var key := KeyOf(record);
      if key == SIZE_KEY || SPARSE_PREFIX <= key { return false; }
      cursor := end;
    }
    PaxAtEnd(payload);
    return true;
  }

  lemma PaxAtEnd(s: Bytes)
    ensures PaxOkFrom(s, |s|)
  {
  }

  /** After any harmless records, one that has no `=` or names the layout gets the payload refused, whatever follows. */
  lemma {:induction false} HarmfulFrom(s: Bytes, cursor: nat, records: seq<Bytes>, bad: Bytes, rest: Bytes)
    requires cursor <= |s| && s[cursor..] == Flat(records) + (bad + rest) && AllHarmless(records) && HarmfulRecord(bad)
    ensures !PaxOkFrom(s, cursor)
    decreases |records|
  {
    hide RecordEnd, RecordAt, Encode, SelfDelimited, OverridesLayout, HarmlessRecord, Harmful, PaxOkFrom, Places;
    if records == [] {
      var space :| Delimited(bad, space) && Harmful(bad[space + 1..|bad| - 1]);
      var r := DelimitedEncodes(bad, space);
      HarmfulContent(r.content);
      assert Flat(records) + (bad + rest) == bad + rest;
      FirstRecord(s, cursor, r, rest);
      PaxStep(s, cursor);
    } else {
      assert HarmlessRecord(records[0]);
      var r := HarmlessIs(records[0]);
      forall i | 0 <= i < |records[1..]| ensures HarmlessRecord(records[1..][i]) {
        assert records[1..][i] == records[i + 1];
      }
      assert Flat(records) + (bad + rest) == records[0] + (Flat(records[1..]) + (bad + rest));
      FirstRecord(s, cursor, r, Flat(records[1..]) + (bad + rest));
      PaxStep(s, cursor);
      HarmfulFrom(s, cursor + |records[0]|, records[1..], bad, rest);
    }
  }

  lemma HarmfulContent(content: Bytes)
    requires Harmful(content)
    ensures 61 !in content || OverridesLayout(content)
  {
    hide OverridesLayout;
    if exists k :: FirstEquals(content, k) && NamesLayout(content, k) {
      var k :| FirstEquals(content, k) && NamesLayout(content, k);
      OverridesExactly(content, k);
    }
  }

  // ----- headers -----

  predicate IsBlank(s: Bytes) { forall i :: 0 <= i < |s| ==> s[i] == 0 || s[i] == 32 }

  /** The field holds this number in octal digits, with NULs and spaces around them. */
  ghost predicate Holds(field: Bytes, n: int) {
    exists i, j :: HoldsBetween(field, n, i, j)
  }

  predicate HoldsBetween(field: Bytes, n: int, i: int, j: int) {
    && 0 <= i < j <= |field| && IsBlank(field[..i]) && IsBlank(field[j..])
    && (forall k :: i <= k < j ==> 48 <= field[k] <= 55) && n == Places(8, field[i..j])
  }

  predicate MetadataKind(kind: Byte) { kind in {120, 103, 76, 75} }

  /** A header of one of the eight kinds with its body: the declared size rounded up to whole blocks, at most 65536 for
      metadata and 543408877 for files; the declared bytes of a pax header are harmless. */
  ghost predicate EntryInBytes(e: Entry) {
    && |e.header| == 512 && (exists i :: 0 <= i < 512 && e.header[i] != 0)
    && e.header[156] in {48, 0, 53, 50, 120, 103, 76, 75}
    && exists size: nat :: BodyInBytes(e, size)
  }

  ghost predicate BodyInBytes(e: Entry, size: nat)
    requires |e.header| == 512
  {
    && Holds(e.header[124..136], size) && size <= (if MetadataKind(e.header[156]) then 65536 else 543408877)
    && |e.body| % 512 == 0 && size <= |e.body| < size + 512
    && (e.header[156] in {120, 103} ==> HarmlessPayload(e.body[..size]))
  }

  /** A directory named "." or "./". */
  predicate RootInBytes(h: Bytes) {
    |h| == 512 && h[156] == 53 && h[0] == 46 && (h[1] == 0 || (h[1] == 47 && h[2] == 0))
  }

  /** At most 20000 headers with their bodies, at most one of them the root, and one or more zero blocks. */
  ghost predicate ArchiveInBytes(limit: nat, s: Bytes, es: seq<Entry>, z: nat) {
    && z >= 1 && s == Serialize(es) + Zeros(512 * z) && |s| <= limit && |es| <= 20000
    && (forall i :: 0 <= i < |es| ==> EntryInBytes(es[i]))
    && forall i, j :: 0 <= i < j < |es| ==> !(RootInBytes(es[i].header) && RootInBytes(es[j].header))
  }

  lemma {:induction false} StripLeftKeeps(s: Bytes)
    ensures var n := |s| - |StripLeft(s)|; n >= 0 && IsBlank(s[..n]) && StripLeft(s) == s[n..]
    ensures StripLeft(s) != [] ==> !IsPadding(StripLeft(s)[0])
  {
    if s != [] && IsPadding(s[0]) {
      StripLeftKeeps(s[1..]);
      var n := |s[1..]| - |StripLeft(s[1..])|;
      assert s[..n + 1] == [s[0]] + s[1..][..n];
    }
  }

  lemma {:induction false} StripRightKeeps(s: Bytes)
    ensures |StripRight(s)| <= |s| && StripRight(s) == s[..|StripRight(s)|] && IsBlank(s[|StripRight(s)|..])
  {
    if s != [] && IsPadding(s[|s| - 1]) {
      var front := s[..|s| - 1];
      StripRightKeeps(front);
      var n := |StripRight(front)|;
      assert s[n..] == front[n..] + [s[|s| - 1]];
    }
  }

  lemma {:induction false} StripLeftIs(s: Bytes, i: nat)
    requires i < |s| && IsBlank(s[..i]) && !IsPadding(s[i])
    ensures StripLeft(s) == s[i..]
  {
    if i > 0 {
      assert s[0] == s[..i][0];
      assert s[1..][..i - 1] == s[..i][1..];
      StripLeftIs(s[1..], i - 1);
    }
  }

  lemma {:induction false} StripRightIs(s: Bytes, j: nat)
    requires 0 < j <= |s| && IsBlank(s[j..]) && !IsPadding(s[j - 1])
    ensures StripRight(s) == s[..j]
  {
    if j < |s| {
      assert s[|s| - 1] == s[j..][|s| - 1 - j];
      var front := s[..|s| - 1];
      assert front[j..] == s[j..][..|s| - 1 - j];
      StripRightIs(front, j);
    } else {
      assert s[..j] == s;
    }
  }

  lemma NumberExactly(field: Bytes, n: int)
    ensures GuardNumber(field) == (if n < 0 then None else Some(n)) && n >= 0 <==> Holds(field, n) && n >= 0
  {
    if GuardNumber(field).Some? && n >= 0 && GuardNumber(field) == Some(n) {
      var left := StripLeft(field);
      var digits := StripRight(left);
      StripLeftKeeps(field);
      StripRightKeeps(left);
      OctalPlaces(digits);
      var i := |field| - |left|;
      var j := i + |digits|;
      assert field[i..j] == digits && field[j..] == left[|digits|..];
      forall k | i <= k < j ensures 48 <= field[k] <= 55 { assert field[k] == digits[k - i]; }
      assert HoldsBetween(field, n, i, j);
    }
    if Holds(field, n) && n >= 0 {
      var i, j :| HoldsBetween(field, n, i, j);
      HeldNumber(field, n, i, j);
    }
  }

  lemma HeldNumber(field: Bytes, n: int, i: int, j: int)
    requires HoldsBetween(field, n, i, j)
    ensures GuardNumber(field) == Some(n)
  {
    hide StripLeft, StripRight;
    var digits := field[i..j];
    assert forall k :: 0 <= k < |digits| ==> digits[k] == field[i + k];
    OctalPlaces(digits);
    StripLeftIs(field, i);
    var left := field[i..];
    assert left[j - i..] == field[j..] && left[j - i - 1] == field[j - 1];
    StripRightIs(left, j - i);
    assert left[..j - i] == digits;
  }

  lemma {:induction false} UpToNulIs(s: Bytes, n: nat)
    requires n <= |s| && (forall i :: 0 <= i < n ==> s[i] != 0) && (n < |s| ==> s[n] == 0)
    ensures UpToNul(s) == s[..n]
  {
    if n == 0 {
      assert s[..0] == [];
    } else {
      UpToNulIs(s[1..], n - 1);
      assert s[..n] == [s[0]] + s[1..][..n - 1];
    }
  }

  lemma {:induction false} UpToNulLength(s: Bytes)
    ensures UpToNul(s) <= s && (forall i :: 0 <= i < |UpToNul(s)| ==> s[i] != 0)
    ensures |UpToNul(s)| < |s| ==> s[|UpToNul(s)|] == 0
  {
    if s != [] && s[0] != 0 { UpToNulLength(s[1..]); }
  }

  lemma RootExactly(h: Bytes)
    requires |h| == 512
    ensures IsRoot(h) <==> RootInBytes(h)
  {
    var name := h[..100];
    assert name[0] == h[0] && name[1] == h[1] && name[2] == h[2];
    UpToNulLength(name);
    if RootInBytes(h) {
      UpToNulIs(name, if h[1] == 0 then 1 else 2);
      assert name[..1] == [46] && (h[1] == 47 ==> name[..2] == [46, 47]);
    }
    hide UpToNul;
    if IsRoot(h) {
      var k := UpToNul(name);
      assert k[0] == name[0] && (|k| == 2 ==> k[1] == name[1]);
    }
  }

  lemma RoundedExactly(size: nat, n: nat)
    ensures n == RoundUp(size) <==> n % 512 == 0 && size <= n < size + 512
  {
  }

  lemma EntryExactly(e: Entry)
    ensures EntryOk(e) <==> EntryInBytes(e)
  {
    hide GuardNumber, Holds, PaxOk, HarmlessPayload, RoundUp;
    if |e.header| == 512 {
      assert !AllZero(e.header) <==> exists i :: 0 <= i < 512 && e.header[i] != 0;
      forall size: nat ensures Holds(e.header[124..136], size) <==> DeclaredSize(e.header) == Some(size) {
        NumberExactly(e.header[124..136], size);
      }
      forall size: nat ensures |e.body| == RoundUp(size) <==> |e.body| % 512 == 0 && size <= |e.body| < size + 512 {
        RoundedExactly(size, |e.body|);
      }
      PayloadExactly([]);
      EmptyPayload();
      if EntryOk(e) {
        var size := DeclaredSize(e.header).value;
        PayloadExactly(e.body[..size]);
        assert size == 0 ==> e.body[..size] == [];
        assert BodyInBytes(e, size);
      }
      if EntryInBytes(e) {
        var size: nat :| BodyInBytes(e, size);
        PayloadExactly(e.body[..size]);
      }
    }
  }

  lemma EmptyPayload()
    ensures HarmlessPayload([])
  {
    assert Flat([]) == [] && AllHarmless([]);
  }

  lemma ArchiveExactly(limit: nat, s: Bytes, es: seq<Entry>, z: nat)
    ensures IsArchive(limit, s, es, z) <==> ArchiveInBytes(limit, s, es, z)
  {
    hide EntryOk, EntryInBytes, RootInBytes, IsRoot;
    forall i | 0 <= i < |es| ensures EntryOk(es[i]) <==> EntryInBytes(es[i]) { EntryExactly(es[i]); }
    forall i | 0 <= i < |es| && |es[i].header| == 512 ensures IsRootEntry(es[i]) <==> RootInBytes(es[i].header) {
      RootExactly(es[i].header);
    }
    forall i | 0 <= i < |es| && EntryOk(es[i]) ensures |es[i].header| == 512 { OkLength(es[i]); }
  }

  lemma OkLength(e: Entry)
    requires EntryOk(e)
    ensures |e.header| == 512
  {
  }

  /** `guard` followed by `finish` accepts exactly the archives said in bytes. */
  lemma AcceptsExactlyBytes(limit: nat, s: Bytes)
    ensures Accepted(limit, s) <==> exists es, z :: ArchiveInBytes(limit, s, es, z)
  {
    hide Accepted, IsArchive, ArchiveInBytes;
    AcceptsExactlyArchives(limit, s);
    forall es, z ensures IsArchive(limit, s, es, z) <==> ArchiveInBytes(limit, s, es, z) {
      ArchiveExactly(limit, s, es, z);
    }
  }

  // ----- a record that names the layout, anywhere in an archive -----

  lemma {:induction false} EntryRefused(limit: nat, g: Guard, es: seq<Entry>, h: Bytes, b: Bytes, rest: Bytes)
    requires At(g) && forall i :: 0 <= i < |es| ==> EntryOk(es[i])
    requires |h| == 512 && !AllZero(h) && HeaderOk(h) && |b| == RoundUp(DeclaredSize(h).value) && !BodyOk(h, b)
    ensures PushAll(limit, g, Serialize(es) + ((h + b) + rest)).None?
    decreases |es|
  {
    hide EntryOk, HeaderOk, BodyOk, AllZero, PushAll, RoundUp;
    if es == [] {
      assert Serialize(es) + ((h + b) + rest) == (h + b) + rest;
      PushConcat(limit, g, h + b, rest);
      if g.total + 512 + |b| <= limit { PushEntry(limit, g, h, b); }
    } else {
      var e, tail := es[0], Serialize(es[1..]) + ((h + b) + rest);
      assert EntryOk(es[0]);
      assert Serialize(es) + ((h + b) + rest) == (e.header + e.body) + tail;
      PushConcat(limit, g, e.header + e.body, tail);
      EntryPushed(limit, g, e);
      forall i | 0 <= i < |es[1..]| ensures EntryOk(es[1..][i]) { assert es[1..][i] == es[i + 1]; }
      if PushAll(limit, g, e.header + e.body).Some? {
        EntryRefused(limit, After(g, e), es[1..], h, b, rest);
      }
    }
  }

  lemma EntryPushed(limit: nat, g: Guard, e: Entry)
    requires At(g) && EntryOk(e)
    ensures var o := PushAll(limit, g, e.header + e.body); o.Some? ==> o == Some(After(g, e)) && At(After(g, e))
  {
    hide PushAll, HeaderOk, BodyOk, AllZero, RoundUp;
    if g.total + 512 + |e.body| <= limit { PushEntry(limit, g, e.header, e.body); }
  }

  /** Behind any entries, a pax header whose payload is harmless records and then one that has no `=` or names the
      layout gets the stream refused, whatever follows in the payload and behind it. */
  lemma LayoutRefused(limit: nat, es: seq<Entry>, h: Bytes, records: seq<Bytes>, bad: Bytes, more: Bytes,
                      padding: Bytes, rest: Bytes)
    requires (forall i :: 0 <= i < |es| ==> EntryInBytes(es[i])) && AllHarmless(records) && HarmfulRecord(bad)
    requires |h| == 512 && h[156] in {120, 103} && |Flat(records) + (bad + more)| <= 65536
    requires Holds(h[124..136], |Flat(records) + (bad + more)|)
    requires (|Flat(records) + (bad + more)| + |padding|) % 512 == 0 && |padding| < 512
    ensures !Accepted(limit, Serialize(es) + ((h + ((Flat(records) + (bad + more)) + padding)) + rest))
  {
    var payload := Flat(records) + (bad + more);
    var b := payload + padding;
    hide EntryOk, EntryInBytes, Holds, AllHarmless, HarmfulRecord, GuardNumber, PushAll, RoundUp, PaxOk, Flat;
    forall i | 0 <= i < |es| ensures EntryOk(es[i]) { EntryExactly(es[i]); }
    NumberExactly(h[124..136], |payload|);
    RoundedExactly(|payload|, |b|);
    assert h[156] != 0;
    assert b[..|payload|] == payload && payload[0..] == payload;
    HarmfulFrom(payload, 0, records, bad, more);
    PayloadNotOk(payload);
    NotEmpty(bad);
    EntryRefused(limit, INITIAL, es, h, b, rest);
  }

  lemma PayloadNotOk(payload: Bytes)
    requires !PaxOkFrom(payload, 0)
    ensures !PaxOk(payload)
  {
  }

  lemma NotEmpty(rec: Bytes)
    requires HarmfulRecord(rec)
    ensures |rec| > 0
  {
  }
}
