/** What Python's `tarfile` takes from the blocks behind a pax header: it reads them whole, with a laxer record grammar
    than the guard's, and goes on past the declared size into the padding. */
module TarPax {
  import opened Options
  import opened TarFormat
  import opened TarGuard
  import opened TarGrammar
  import opened TarReader

  /** The first byte from `from` on that is no digit. */
  function DigitsEnd(s: Bytes, from: nat): (i: nat)
    requires from <= |s|
    ensures from <= i <= |s| && IsDigits(s[from..i]) && (i < |s| ==> !(48 <= s[i] <= 57))
    decreases |s| - from
  {
    if from == |s| || !(48 <= s[from] <= 57) then from
    else
      var end := DigitsEnd(s, from + 1);
      assert s[from..end] == [s[from]] + s[from + 1..end];
      end
  }

  /** Digits, a space, a key that is not empty and `=`: where the space and the `=` stand. */
  function RecordHead(s: Bytes, pos: nat): (head: Option<(nat, nat)>)
    requires pos <= |s|
    ensures head.Some? ==> pos < head.value.0 < head.value.1 < |s| && head.value.1 - head.value.0 > 1
  {
    var space := DigitsEnd(s, pos);
    if space == pos || space == |s| || s[space] != 32 then None
    else
      var equals := Find(s, 61, space + 1);
      if equals == |s| || equals == space + 1 then None else Some((space, equals))
  }

  /** The value is what is left of the record's length, cut off at the end of the blocks; neither a newline nor room for
      the value is asked for. A length of zero is an error. */
  function TarfileRecords(s: Bytes, pos: nat): Option<seq<Record>>
    decreases |s| - pos
  {
    if pos > |s| || RecordHead(s, pos).None? then Some([])
    else
      var (space, equals) := RecordHead(s, pos).value;
      var length := DecimalValue(s[pos..space]);
      if length == 0 then None
      else
        var end := pos + length - 1;
        var content := ContentAt(s, space + 1, equals, if equals < end then end - equals - 1 else 0);
        Prepended(Record(s[pos..space], content), TarfileRecords(s, pos + length))
  }

  /** A key, `=` and at most so many bytes of value. */
  function ContentAt(s: Bytes, from: nat, equals: nat, value: nat): Bytes
    requires from <= equals < |s|
  {
    s[from..equals] + [61] + Upto(s[equals + 1..], value)
  }

  function Prepended(r: Record, rest: Option<seq<Record>>): Option<seq<Record>> {
    if rest.None? then None else Some([r] + rest.value)
  }

  // ----- on the declared bytes -----

  /** Whether a reader gets past the declared records: the guard lets an empty key by, and such a reader stops at it. */
  predicate Named(rs: seq<Record>) {
    forall i :: 0 <= i < |rs| ==> KeyOf(rs[i].content) != []
  }

  lemma {:induction false} KeyParts(content: Bytes)
    requires 61 in content
    ensures var k := |KeyOf(content)|;
      k < |content| && content[k] == 61 && content[..k] == KeyOf(content) && forall j :: 0 <= j < k ==> content[j] != 61
  {
    if content[0] != 61 {
      KeyParts(content[1..]);
      var k := |KeyOf(content[1..])|;
      assert content[..k + 1] == [content[0]] + content[1..][..k];
    }
  }

  lemma {:induction false} DigitsEndIs(s: Bytes, from: nat, at: nat)
    requires from <= at < |s| && s[at] == 32 && forall k :: from <= k < at ==> 48 <= s[k] <= 57
    ensures DigitsEnd(s, from) == at
    decreases at - from
  {
    if from < at { DigitsEndIs(s, from + 1, at); }
  }

  predicate Stands(s: Bytes, from: nat, t: Bytes) { from + |t| <= |s| && s[from..from + |t|] == t }

  /** Where a self-delimited record stands, this reader finds the same record, or stops at an empty key. */
  lemma HeadIs(s: Bytes, pos: nat, r: Record)
    requires SelfDelimited(r) && 61 in r.content
    requires pos + |Encode(r)| <= |s| && s[pos..pos + |Encode(r)|] == Encode(r)
    ensures var space, k := pos + |r.digits|, |KeyOf(r.content)|;
      && |Encode(r)| == |r.digits| + |r.content| + 2 && s[pos..space] == r.digits
      && Stands(s, space + 1, r.content)
      && RecordHead(s, pos) == if k == 0 then None else Some((space, space + 1 + k))
  {
    hide Encode, DecimalValue, KeyOf, DigitsEnd, Find, SelfDelimited, IsDigits;
    EncodedParts(s, pos, r);
    KeyParts(r.content);
    DelimitedDigits(r);
    var space, k := pos + |r.digits|, |KeyOf(r.content)|;
    forall j | pos <= j < space ensures 48 <= s[j] <= 57 {
      assert s[j] == s[pos..space][j - pos];
    }
    DigitsEndIs(s, pos, space);
    forall i | space + 1 <= i <= space + 1 + k ensures s[i] == r.content[i - space - 1] {
      assert s[space + 1..space + 1 + |r.content|][i - space - 1] == r.content[i - space - 1];
    }
    FindIs(s, 61, space + 1, space + 1 + k);
  }

  lemma DelimitedDigits(r: Record)
    requires SelfDelimited(r)
    ensures r.digits != [] && IsDigits(r.digits) && DecimalValue(r.digits) == |Encode(r)|
    ensures forall j :: 0 <= j < |r.digits| ==> 48 <= r.digits[j] <= 57
  {
    hide DecimalValue, Encode;
  }

  lemma KeySplits(content: Bytes)
    requires 61 in content
    ensures var k := |KeyOf(content)|; k < |content| && content == content[..k] + [61] + content[k + 1..]
  {
    hide KeyOf;
    KeyParts(content);
  }

  lemma UptoSlice(s: Bytes, from: nat, m: nat)
    requires from + m <= |s|
    ensures Upto(s[from..], m) == s[from..from + m]
  {
  }

  lemma TarfileStep(s: Bytes, pos: nat, digits: Bytes, space: nat, equals: nat, length: nat)
    requires pos <= |s| && RecordHead(s, pos) == Some((space, equals)) && s[pos..space] == digits
    requires IsDigits(digits) && DecimalValue(digits) == length && equals < pos + length - 1
    ensures TarfileRecords(s, pos)
            == Prepended(Record(digits, ContentAt(s, space + 1, equals, pos + length - equals - 2)),
                         TarfileRecords(s, pos + length))
  {
    hide RecordHead, DecimalValue, IsDigits, ContentAt, Prepended;
  }

  lemma RecordTaken(s: Bytes, pos: nat, r: Record)
    requires SelfDelimited(r) && 61 in r.content
    requires pos + |Encode(r)| <= |s| && s[pos..pos + |Encode(r)|] == Encode(r)
    ensures TarfileRecords(s, pos)
            == if KeyOf(r.content) == [] then Some([]) else Prepended(r, TarfileRecords(s, pos + |Encode(r)|))
  {
    hide *;
    HeadIs(s, pos, r);
    KeyShorter(r.content);
    DelimitedNumber(r);
    var space, k, content := pos + |r.digits|, |KeyOf(r.content)|, r.content;
    if k == 0 {
      NoHead(s, pos);
    } else {
      ContentTaken(s, space + 1, content, k);
      TarfileStep(s, pos, r.digits, space, space + 1 + k, |Encode(r)|);
    }
  }

  lemma KeyShorter(content: Bytes)
    requires 61 in content
    ensures |KeyOf(content)| < |content| && (|KeyOf(content)| == 0 <==> KeyOf(content) == [])
  {
    hide KeyOf;
    KeyParts(content);
  }

  lemma DelimitedNumber(r: Record)
    requires SelfDelimited(r)
    ensures IsDigits(r.digits) && DecimalValue(r.digits) == |Encode(r)|
  {
    hide DecimalValue, Encode;
  }

  lemma NoHead(s: Bytes, pos: nat)
    requires pos <= |s| && RecordHead(s, pos).None?
    ensures TarfileRecords(s, pos) == Some([])
  {
  }

  lemma ContentTaken(s: Bytes, from: nat, content: Bytes, k: nat)
    requires 61 in content && k == |KeyOf(content)| < |content|
    requires Stands(s, from, content)
    ensures from + |content| <= |s| && ContentAt(s, from, from + k, |content| - k - 1) == content
  {
    hide Upto, KeyOf;
    KeySplits(content);
    Slice(s, from, content, 0, k);
    Slice(s, from, content, k + 1, |content|);
    UptoSlice(s, from + k + 1, |content| - k - 1);
  }

  // ----- the padding, exactly -----

  function Joined(front: seq<Record>, rest: Option<seq<Record>>): Option<seq<Record>> {
    if rest.None? then None else Some(front + rest.value)
  }

  /** On an accepted payload with anything behind it, from one of its records on: the payload's records and then the
      run of records that continues behind it; or, from an empty key on, nothing more. */
  lemma {:induction false} PastDeclared(s: Bytes, n: nat, pos: nat)
    requires pos <= n <= |s| && PaxOkFrom(s[..n], pos)
    ensures var declared := ParseFrom(s[..n], pos);
      if Named(declared) then TarfileRecords(s, pos) == Joined(declared, TarfileRecords(s, n))
      else TarfileRecords(s, pos).Some? && !TouchesLayout(TarfileRecords(s, pos).value)
    decreases n - pos
  {
    hide RecordEnd, RecordAt, Encode, TarfileRecords, OverridesLayout, SelfDelimited, KeyOf, Named, TouchesLayout;
    hide Joined, Prepended;
    var b := s[..n];
    if pos == n {
      AllNamed(b, pos);
      PrependNothing(TarfileRecords(s, n));
    } else {
      PaxStep(b, pos);
      RecordAtEncodes(b, pos);
      var rec, end := RecordAt(b, pos), RecordEnd(b, pos).value;
      assert s[pos..end] == b[pos..end];
      RecordTaken(s, pos, rec);
      PastDeclared(s, n, end);
      assert ParseFrom(b, pos) == [rec] + ParseFrom(b, end);
      NothingTouches();
      PrependedIs(rec, TarfileRecords(s, end));
      NamedHead(rec, ParseFrom(b, end));
      JoinedHead(rec, ParseFrom(b, end), TarfileRecords(s, n));
      if TarfileRecords(s, end).Some? { CleanHead(rec, TarfileRecords(s, end).value); }
    }
  }

  lemma PrependNothing(rest: Option<seq<Record>>)
    ensures Joined([], rest) == rest
  {
    if rest.Some? { assert [] + rest.value == rest.value; }
  }

  lemma AllNamed(s: Bytes, pos: nat)
    requires pos == |s|
    ensures ParseFrom(s, pos) == [] && Named([])
  {
  }

  lemma PrependedIs(r: Record, rest: Option<seq<Record>>)
    ensures Prepended(r, rest).Some? <==> rest.Some?
    ensures rest.Some? ==> Prepended(r, rest) == Some([r] + rest.value)
  {
  }

  lemma NamedHead(r: Record, rs: seq<Record>)
    ensures Named([r] + rs) <==> KeyOf(r.content) != [] && Named(rs)
  {
    hide KeyOf;
    assert forall i :: 0 <= i < |rs| ==> ([r] + rs)[i + 1] == rs[i];
    if Named([r] + rs) {
      assert KeyOf(([r] + rs)[0].content) != [];
      forall i | 0 <= i < |rs| ensures KeyOf(rs[i].content) != [] { assert KeyOf(([r] + rs)[i + 1].content) != []; }
    }
  }

  lemma JoinedHead(r: Record, rs: seq<Record>, rest: Option<seq<Record>>)
    ensures Joined([r] + rs, rest) == Prepended(r, Joined(rs, rest))
  {
    if rest.Some? { assert ([r] + rs) + rest.value == [r] + (rs + rest.value); }
  }

  lemma CleanHead(r: Record, rs: seq<Record>)
    ensures TouchesLayout([r] + rs) <==> OverridesLayout(r.content) || TouchesLayout(rs)
  {
    hide OverridesLayout;
    TouchesAppend([r], rs);
    if OverridesLayout(r.content) { assert OverridesLayout([r][0].content); }
  }

  /** A reader that takes what the program does from the blocks behind a pax header. */
  ghost predicate TakesBlocks(r: Reader) {
    forall b, size :: r.records(b, size) == TarfileRecords(b, 0)
  }

  /** The run of records that such a reader takes from the padding of a pax header, if it gets that far. */
  function PaddingRun(e: Entry): Option<seq<Record>>
    requires EntryOk(e)
  {
    RoundUpBounds(DeclaredSize(e.header).value);
    var size := DeclaredSize(e.header).value;
    if Named(ParseFrom(e.body[..size], 0)) then TarfileRecords(e.body, size) else Some([])
  }

  /** Per accepted pax header, exactly: such a reader takes a layout record from it if and only if no NUL stands before
      the digits of its size and the run of records that continues in the padding holds one; and it gives up on the
      header if and only if that run does. */
  lemma PaddingExactly(r: Reader, e: Entry)
    requires EntryOk(e) && IsPax(Kind(e.header)) && ReadsOctal(r) && TakesBlocks(r) && r.sizes(e.header).Some?
    ensures var nul, run := NulFirst(e.header[124..136]), PaddingRun(e);
      && (TakesOverride(r, e) <==> !nul && run.Some? && TouchesLayout(run.value))
      && (Taken(r, r.sizes(e.header).value, e.body).None? <==> !nul && run.None?)
  {
    hide AllZero, NulFirst, ReadsOctal, RoundUp, TouchesLayout, TarfileRecords, ParseFrom, PaxOkFrom, Named;
    var size, n := r.sizes(e.header).value, DeclaredSize(e.header).value;
    RoundUpBounds(n);
    SizeSeen(r, e);
    NothingTouches();
    NothingTaken(e.body[..0]);
    assert Upto(e.body, RoundUp(size)) == if NulFirst(e.header[124..136]) then e.body[..0] else e.body;
    PayloadOk(e);
    CleanPayload(e.header, e.body);
    PastDeclared(e.body, n, 0);
    if TarfileRecords(e.body, n).Some? {
      TouchesAppend(ParseFrom(e.body[..n], 0), TarfileRecords(e.body, n).value);
    }
  }

  /** A pax header whose padding carries a layout record to such a reader. */
  predicate PaddingOverrides(e: Entry)
    requires EntryOk(e)
  {
    && IsPax(Kind(e.header)) && !NulFirst(e.header[124..136])
    && PaddingRun(e).Some? && TouchesLayout(PaddingRun(e).value)
  }

  /** Per archive: such a reader is given no layout record exactly when no padding carries one. */
  lemma NoOverridesExactly(r: Reader, es: seq<Entry>)
    requires AllOk(es) && ReadsOctal(r) && TakesBlocks(r) && forall i :: 0 <= i < |es| ==> r.sizes(es[i].header).Some?
    ensures NoOverrides(r, es) <==> forall i :: 0 <= i < |es| ==> !PaddingOverrides(es[i])
  {
    forall i | 0 <= i < |es| ensures TakesOverride(r, es[i]) <==> PaddingOverrides(es[i]) {
      OverridesExactly(r, es[i]);
    }
    hide EntryOk, TakesOverride, PaddingOverrides, TakesBlocks;
  }

  lemma OverridesExactly(r: Reader, e: Entry)
    requires EntryOk(e) && ReadsOctal(r) && TakesBlocks(r) && r.sizes(e.header).Some?
    ensures TakesOverride(r, e) <==> PaddingOverrides(e)
  {
    hide HeaderOk, BodyOk, AllZero, TouchesLayout, NulFirst, PaddingRun, TakesBlocks, ReadsOctal;
    NothingTouches();
    if IsPax(Kind(e.header)) { PaddingExactly(r, e); }
  }

  lemma NothingTaken(s: Bytes)
    requires s == []
    ensures TarfileRecords(s, 0) == Some([])
  {
  }

  lemma PayloadOk(e: Entry)
    requires EntryOk(e) && IsPax(Kind(e.header))
    ensures DeclaredSize(e.header).value <= |e.body| && PaxOkFrom(e.body[..DeclaredSize(e.header).value], 0)
  {
    RoundUpBounds(DeclaredSize(e.header).value);
  }

  // ----- what becomes of a `size` record -----

  /** The value of a record as a plain decimal number; anything else counts as zero. */
  function ValueOf(content: Bytes): nat {
    var value := if |KeyOf(content)| < |content| then content[|KeyOf(content)| + 1..] else [];
    if IsDigits(value) then DecimalValue(value) else 0
  }

  /** The last `size` record of a list. */
  function LastSize(rs: seq<Record>): Option<nat> {
    if rs == [] then None
    else if KeyOf(rs[|rs| - 1].content) == SIZE_KEY then Some(ValueOf(rs[|rs| - 1].content))
    else LastSize(rs[..|rs| - 1])
  }

  /** Of several waiting pax headers the first that knows a size decides. */
  function WaitingSize(local: seq<seq<Record>>): Option<nat> {
    if local == [] then None
    else if LastSize(local[0]).Some? then LastSize(local[0])
    else WaitingSize(local[1..])
  }

  /** How far a reader skips that applies `size` records and lets sparse records be: in place of the size in the header,
      for a header that stores its body. */
  function SizeLayout(sizes: Bytes -> Option<nat>, p: Pending, t: Bytes): Option<nat> {
    if |t| < 512 || sizes(t[..512]).None? then None
    else if StoresNothing(t[..512]) then Some(0)
    else
      var size := WaitingSize(p.local);
      Some(RoundUp(if size.Some? then size.value else sizes(t[..512]).value))
  }
}
