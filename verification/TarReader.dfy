/** Readers of the format behind the guard: how far they skip after each header, and when that is where the guard does.

    They read headers as the `tarfile` module of Python 3.11 does. A size ends at its first NUL and none at all is zero,
    where the guard strips NULs from both sides; directories, links, devices and pipes store nothing whatever size they
    declare, and a header of kind NUL whose name ends in a slash is a directory; and what a reader takes from the blocks
    behind a pax header is its own affair, where the guard looks at the declared bytes only. */
module TarReader {
  import opened Options
  import opened TarFormat
  import opened TarGuard
  import opened TarGrammar

  predicate TouchesLayout(rs: seq<Record>) { exists i :: 0 <= i < |rs| && OverridesLayout(rs[i].content) }

  /** For each pax header that waits for the next member, the records in force when it was read, its own last; and the
      records that hold for every later header. */
  datatype Pending = Pending(local: seq<seq<Record>>, global: seq<Record>)

  const NOTHING := Pending([], [])

  /** `sizes` is the size a reader finds in a block, None when it takes the block for no header (a checksum that does
      not fit, a number it cannot read); `records` is what it takes from the blocks behind a pax header, given these
      blocks whole and the size; `layout` is how far it skips after a member's header when a layout record is pending,
      given the stream from that header on. The last two may give up as well. */
  datatype Reader = Reader(sizes: Bytes -> Option<nat>, records: (Bytes, nat) -> Option<seq<Record>>,
                           layout: (Pending, Bytes) -> Option<nat>, honours: bool)

  predicate Clean(p: Pending) {
    !TouchesLayout(p.global) && forall i :: 0 <= i < |p.local| ==> !TouchesLayout(p.local[i])
  }

  /** The number in a field: up to the first NUL, without the spaces around it, and zero when nothing is left. */
  function ReaderNumber(field: Bytes): Option<nat> {
    var digits := StripRight(StripLeft(UpToNul(field)));
    if digits == [] then Some(0) else if IsOctal(digits) then Some(OctalValue(digits)) else None
  }

  /** What is asked of a reader: in a header whose size field the guard accepts it reads that number, if it reads the
      header at all. */
  ghost predicate ReadsOctal(r: Reader) {
    forall h :: |h| == 512 && DeclaredSize(h).Some? && r.sizes(h).Some? ==> r.sizes(h) == ReaderNumber(h[124..136])
  }

  /** Links, devices, directories and pipes, and a directory in the old style: kind NUL and a name that ends in `/`. */
  predicate StoresNothing(h: Bytes)
    requires |h| == 512
  {
    49 <= Kind(h) <= 54 || (Kind(h) == 0 && var name := UpToNul(h[..100]); name != [] && name[|name| - 1] == 47)
  }

  /** A member's header under a pending layout record. */
  predicate Overridden(r: Reader, p: Pending, h: Bytes)
    requires |h| == 512
  {
    r.honours && !IsMetadata(Kind(h)) && !Clean(p)
  }

  function Upto(s: Bytes, n: nat): Bytes { if n <= |s| then s[..n] else s }

  /** What the reader takes from what follows a pax header of this size. */
  function Taken(r: Reader, size: nat, after: Bytes): Option<seq<Record>> {
    r.records(Upto(after, RoundUp(size)), size)
  }

  /** The reader takes the first block of `t` for a header and gets past it. */
  predicate Reads(r: Reader, p: Pending, t: Bytes) {
    && |t| >= 512 && !AllZero(t[..512]) && r.sizes(t[..512]).Some?
    && (IsPax(Kind(t[..512])) ==> Taken(r, r.sizes(t[..512]).value, t[512..]).Some?)
    && (Overridden(r, p, t[..512]) ==> r.layout(p, t).Some?)
  }

  function Take(p: Pending, kind: Byte, rs: seq<Record>): Pending {
    if kind == 120 then p.(local := p.local + [p.global + rs]) else p.(global := p.global + rs)
  }

  /** How far the next header is expected from this one, and what is pending there. */
  function Next(r: Reader, p: Pending, t: Bytes): (nat, Pending)
    requires Reads(r, p, t)
  {
    var h, size := t[..512], r.sizes(t[..512]).value;
    if IsPax(Kind(h)) then (512 + RoundUp(size), Take(p, Kind(h), Taken(r, size, t[512..]).value))
    else if IsMetadata(Kind(h)) then (512 + RoundUp(size), p)
    else if Overridden(r, p, h) then (512 + r.layout(p, t).value, p.(local := []))
    else (512 + if StoresNothing(h) then 0 else RoundUp(size), p.(local := []))
  }

  /** Offsets at which a reader finds headers, up to where it stops. */
  function HeaderOffsets(r: Reader, s: Bytes, off: nat, p: Pending): seq<nat>
    decreases |s| - off
  {
    if off > |s| || !Reads(r, p, s[off..]) then []
    else
      var (n, p') := Next(r, p, s[off..]);
      [off] + HeaderOffsets(r, s, off + n, p')
  }

  function EntryOffsets(es: seq<Entry>, off: nat): seq<nat> {
    if es == [] then [] else [off] + EntryOffsets(es[1..], off + 512 + |es[0].body|)
  }

  // ----- the two readings of a size field -----

  /** The padding in front of the digits holds a NUL. */
  predicate NulFirst(field: Bytes) {
    exists i :: 0 <= i < |field| && field[i] == 0 && forall j :: 0 <= j < i ==> field[j] == 32
  }

  lemma {:induction false} StripRightKeeps(s: Bytes)
    ensures |StripRight(s)| <= |s| && StripRight(s) == s[..|StripRight(s)|]
    ensures forall i :: |StripRight(s)| <= i < |s| ==> IsPadding(s[i])
    ensures StripRight(s) == [] || !IsPadding(StripRight(s)[|StripRight(s)| - 1])
  {
    if s != [] && IsPadding(s[|s| - 1]) { StripRightKeeps(s[..|s| - 1]); }
  }

  lemma {:induction false} StripRightIs(digits: Bytes, s: Bytes)
    requires digits <= s && forall i :: |digits| <= i < |s| ==> IsPadding(s[i])
    requires digits == [] || !IsPadding(digits[|digits| - 1])
    ensures StripRight(s) == digits
  {
    if |digits| < |s| {
      StripRightIs(digits, s[..|s| - 1]);
    }
  }

  lemma {:induction false} UpToNulOf(s: Bytes)
    ensures UpToNul(s) <= s && (forall i :: 0 <= i < |UpToNul(s)| ==> s[i] != 0)
    ensures |UpToNul(s)| < |s| ==> s[|UpToNul(s)|] == 0
  {
    if s != [] && s[0] != 0 { UpToNulOf(s[1..]); }
  }

  /** In a field the guard accepts, a reader finds the declared number unless a NUL stands before the digits, and then
      it finds zero. */
  lemma {:induction false} NumberIs(field: Bytes)
    requires GuardNumber(field).Some?
    ensures ReaderNumber(field) == if NulFirst(field) then Some(0) else GuardNumber(field)
  {
    if field[0] == 0 {
      assert NulFirst(field);
    } else if field[0] == 32 {
      NumberIs(field[1..]);
      NulFirstTail(field);
      assert UpToNul(field)[1..] == UpToNul(field[1..]);
    } else {
      var digits := StripRight(field);
      StripRightKeeps(field);
      UpToNulOf(field);
      var seen := UpToNul(field);
      assert forall k :: 0 <= k < |digits| ==> field[k] == digits[k] && field[k] != 0;
      assert |digits| <= |seen|;
      assert !NulFirst(field);
      StripRightIs(digits, seen);
    }
  }

  lemma NulFirstTail(field: Bytes)
    requires field != [] && field[0] == 32
    ensures NulFirst(field) <==> NulFirst(field[1..])
  {
    if NulFirst(field[1..]) {
      var i :| 0 <= i < |field[1..]| && field[1..][i] == 0 && forall j :: 0 <= j < i ==> field[1..][j] == 32;
      assert field[i + 1] == 0;
      forall j | 0 <= j < i + 1 ensures field[j] == 32 {
        if j > 0 { assert field[j] == field[1..][j - 1]; }
      }
    }
    if NulFirst(field) {
      var i :| 0 <= i < |field| && field[i] == 0 && forall j :: 0 <= j < i ==> field[j] == 32;
      assert field[1..][i - 1] == 0;
      assert forall j :: 0 <= j < i - 1 ==> field[1..][j] == field[j + 1];
    }
  }

  // ----- one entry -----

  /** An entry whose declared body the guard skips and a reader does not. */
  predicate Misread(e: Entry) {
    |e.header| == 512 && e.body != [] && (StoresNothing(e.header) || NulFirst(e.header[124..136]))
  }

  /** The records a reader takes from an entry. */
  function TakenFrom(r: Reader, e: Entry): seq<Record>
    requires |e.header| == 512
  {
    if !IsPax(Kind(e.header)) || r.sizes(e.header).None? then []
    else
      var rs := Taken(r, r.sizes(e.header).value, e.body);
      if rs.None? then [] else rs.value
  }

  function PendingAfter(r: Reader, p: Pending, e: Entry): Pending
    requires |e.header| == 512
  {
    if IsPax(Kind(e.header)) then Take(p, Kind(e.header), TakenFrom(r, e))
    else if IsMetadata(Kind(e.header)) then p
    else p.(local := [])
  }

  /** How far a reader skips after the header of an entry at the front of `t`. */
  function Reach(r: Reader, p: Pending, e: Entry, t: Bytes): nat
    requires |e.header| == 512 && (Overridden(r, p, e.header) ==> r.layout(p, t).Some?)
  {
    if Overridden(r, p, e.header) then r.layout(p, t).value else if Misread(e) then 0 else |e.body|
  }

  /** The size a reader finds in an entry's header. */
  lemma SizeSeen(r: Reader, e: Entry)
    requires EntryOk(e) && ReadsOctal(r) && r.sizes(e.header).Some?
    ensures var size := r.sizes(e.header).value;
      && size == (if NulFirst(e.header[124..136]) then 0 else DeclaredSize(e.header).value)
      && RoundUp(size) == if NulFirst(e.header[124..136]) then 0 else |e.body|
  {
    NumberIs(e.header[124..136]);
  }

  lemma FrontIs(h: Bytes, b: Bytes, tail: Bytes)
    requires |h| == 512
    ensures var t := (h + b) + tail; |t| >= 512 && t[..512] == h && t[512..] == b + tail && t[512 + |b|..] == tail
    ensures Upto(b + tail, |b|) == b == Upto(b, |b|)
  {
  }

  /** A reader at an entry of the grammar: how far it goes and what is pending then. */
  lemma EntryNext(r: Reader, p: Pending, e: Entry, tail: Bytes)
    requires EntryOk(e) && ReadsOctal(r)
    ensures var t := (e.header + e.body) + tail;
      && |t| >= 512
      && (Reads(r, p, t) <==>
          && r.sizes(e.header).Some?
          && (IsPax(Kind(e.header)) ==> Taken(r, r.sizes(e.header).value, e.body).Some?)
          && (Overridden(r, p, e.header) ==> r.layout(p, t).Some?))
      && (Reads(r, p, t) ==> Next(r, p, t) == (512 + Reach(r, p, e, t), PendingAfter(r, p, e)))
  {
    hide AllZero, BodyOk, HeaderOk, Clean, NulFirst, ReadsOctal, RoundUp, DeclaredSize;
    var t := (e.header + e.body) + tail;
    FrontIs(e.header, e.body, tail);
    if r.sizes(e.header).Some? {
      SizeSeen(r, e);
      RoundedZero();
      StoringKinds(e.header);
    }
  }

  lemma RoundedZero()
    ensures RoundUp(0) == 0
  {
  }

  lemma StoringKinds(h: Bytes)
    requires |h| == 512
    ensures IsMetadata(Kind(h)) ==> !StoresNothing(h)
  {
  }

  /** Per entry, exactly: a reader gets past the header of an entry where its size, its pax records and the pending
      layout can be read, and then goes on where the guard does if and only if a pending layout record, honoured, says
      so, or none is and the declared size is zero or the entry stores its body and no NUL stands before the digits of
      the size. */
  lemma NextExactly(r: Reader, p: Pending, e: Entry, tail: Bytes)
    requires EntryOk(e) && ReadsOctal(r)
    ensures var t := (e.header + e.body) + tail;
      && |t| >= 512
      && (Reads(r, p, t) <==>
          && r.sizes(e.header).Some?
          && (IsPax(Kind(e.header)) ==> Taken(r, r.sizes(e.header).value, e.body).Some?)
          && (Overridden(r, p, e.header) ==> r.layout(p, t).Some?))
      && (Reads(r, p, t) ==>
          (Next(r, p, t).0 == 512 + |e.body|
           <==> if Overridden(r, p, e.header) then r.layout(p, t) == Some(|e.body|)
                else DeclaredSize(e.header) == Some(0) || !(StoresNothing(e.header) || NulFirst(e.header[124..136]))))
  {
    EntryNext(r, p, e, tail);
    RoundUpBounds(DeclaredSize(e.header).value);
    hide Reads, Next, NulFirst, Overridden;
  }

  // ----- a whole archive -----

  function Rest(es: seq<Entry>, z: nat): Bytes { Serialize(es) + Zeros(512 * z) }

  predicate AllOk(es: seq<Entry>) { forall i :: 0 <= i < |es| ==> EntryOk(es[i]) }

  /** What is pending before entry i. */
  function PendingAt(r: Reader, p: Pending, es: seq<Entry>, i: nat): Pending
    requires i <= |es| && AllOk(es)
    decreases i
  {
    if i == 0 then p else PendingAt(r, PendingAfter(r, p, es[0]), es[1..], i - 1)
  }

  /** The reader gets past the first of these entries and goes on where the guard does, or stops after the last one. */
  predicate Keeps(r: Reader, p: Pending, es: seq<Entry>, z: nat)
    requires es != [] && AllOk(es)
  {
    var e, t := es[0], Rest(es, z);
    && r.sizes(e.header).Some?
    && (IsPax(Kind(e.header)) ==> Taken(r, r.sizes(e.header).value, e.body).Some?)
    && (Overridden(r, p, e.header) ==> r.layout(p, t).Some?)
    && (Reach(r, p, e, t) == |e.body|
        || (|es| == 1 && Stops(r, PendingAfter(r, p, e), t, 512 + Reach(r, p, e, t))))
  }

  /** No header is read at offset n. */
  predicate Stops(r: Reader, p: Pending, t: Bytes, n: nat) { n > |t| || !Reads(r, p, t[n..]) }

  predicate Aligned(r: Reader, p: Pending, es: seq<Entry>, z: nat)
    requires AllOk(es)
  {
    forall i :: 0 <= i < |es| ==> Keeps(r, PendingAt(r, p, es, i), es[i..], z)
  }

  lemma AlignedTail(r: Reader, p: Pending, es: seq<Entry>, z: nat)
    requires es != [] && AllOk(es)
    ensures |es[0].header| == 512 && AllOk(es[1..])
    ensures Aligned(r, p, es, z) <==> Keeps(r, p, es, z) && Aligned(r, PendingAfter(r, p, es[0]), es[1..], z)
  {
    hide Keeps, PendingAfter, HeaderOk, BodyOk, AllZero;
    var p' := PendingAfter(r, p, es[0]);
    assert es[0..] == es && PendingAt(r, p, es, 0) == p;
    forall i | 0 < i < |es|
      ensures es[1..][i - 1..] == es[i..] && PendingAt(r, p, es, i) == PendingAt(r, p', es[1..], i - 1)
    {
    }
    if Aligned(r, p, es, z) {
      forall j | 0 <= j < |es[1..]| ensures Keeps(r, PendingAt(r, p', es[1..], j), es[1..][j..], z) {
        assert Keeps(r, PendingAt(r, p, es, j + 1), es[j + 1..], z);
        assert es[1..][j..] == es[j + 1..];
      }
    }
  }

  lemma RestHead(es: seq<Entry>, z: nat)
    requires es != []
    ensures Rest(es, z) == (es[0].header + es[0].body) + Rest(es[1..], z)
  {
  }

  lemma EndsAtZeros(r: Reader, s: Bytes, off: nat, z: nat, p: Pending)
    requires off <= |s| && z >= 1 && s[off..] == Rest([], z)
    ensures HeaderOffsets(r, s, off, p) == []
  {
    var t := s[off..];
    assert t == Zeros(512 * z);
    assert AllZero(t[..512]);
  }

  lemma HeaderStep(r: Reader, s: Bytes, off: nat, p: Pending)
    requires off <= |s|
    ensures HeaderOffsets(r, s, off, p)
            == if !Reads(r, p, s[off..]) then []
               else [off] + HeaderOffsets(r, s, off + Next(r, p, s[off..]).0, Next(r, p, s[off..]).1)
  {
    hide Reads, Next;
  }

  lemma OffsetsStart(r: Reader, s: Bytes, off: nat, n: nat, p: Pending)
    requires off <= |s|
    ensures var found := HeaderOffsets(r, s, off + n, p);
      if Stops(r, p, s[off..], n) then found == [] else found != [] && found[0] == off + n
  {
    hide Reads, Next;
    if off + n <= |s| {
      assert s[off..][n..] == s[off + n..];
    }
  }

  lemma OneMoreOffset(off: nat, a: seq<nat>, b: seq<nat>)
    ensures [off] + a == [off] + b <==> a == b
  {
    assert ([off] + a)[1..] == a && ([off] + b)[1..] == b;
  }

  lemma EntryStep(es: seq<Entry>, off: nat)
    requires es != []
    ensures EntryOffsets(es, off) == [off] + EntryOffsets(es[1..], off + 512 + |es[0].body|)
    ensures |es| == 1 ==> EntryOffsets(es[1..], off + 512 + |es[0].body|) == []
    ensures |es| > 1 ==> EntryOffsets(es[1..], off + 512 + |es[0].body|) != []
    ensures |es| > 1 ==> EntryOffsets(es[1..], off + 512 + |es[0].body|)[0] == off + 512 + |es[0].body|
  {
  }

  /** After a skip of another length than the guard's, a reader stays with the grammar only by stopping at the end. */
  lemma OutOfStep(r: Reader, s: Bytes, off: nat, p: Pending, es: seq<Entry>, n: nat)
    requires off <= |s| && es != [] && n != 512 + |es[0].body|
    ensures [off] + HeaderOffsets(r, s, off + n, p) == EntryOffsets(es, off)
            <==> |es| == 1 && Stops(r, p, s[off..], n)
  {
    hide *;
    OffsetsStart(r, s, off, n, p);
    EntryStep(es, off);
    OneMoreOffset(off, HeaderOffsets(r, s, off + n, p), EntryOffsets(es[1..], off + 512 + |es[0].body|));
  }

  lemma KeepsMeans(r: Reader, p: Pending, es: seq<Entry>, z: nat)
    requires es != [] && AllOk(es) && ReadsOctal(r)
    ensures var t, e := Rest(es, z), es[0];
      && (Keeps(r, p, es, z) ==> Reads(r, p, t))
      && (Reads(r, p, t) ==>
          var (n, p') := Next(r, p, t);
          && p' == PendingAfter(r, p, e)
          && (Keeps(r, p, es, z) <==> n == 512 + |e.body| || (|es| == 1 && Stops(r, p', t, n))))
  {
    hide Reads, Next, Stops, PendingAfter, Overridden, Rest, Taken, EntryOk, ReadsOctal, Misread;
    assert EntryOk(es[0]);
    RestHead(es, z);
    EntryNext(r, p, es[0], Rest(es[1..], z));
  }

  lemma DropFront(s: Bytes, off: nat, h: Bytes, b: Bytes, tail: Bytes)
    requires off <= |s| && s[off..] == (h + b) + tail && |h| == 512
    ensures off + 512 + |b| <= |s| && s[off + 512 + |b|..] == tail
  {
    FrontIs(h, b, tail);
    assert |s| - off == 512 + |b| + |tail|;
    assert s[off..][512 + |b|..] == s[off + 512 + |b|..];
  }

  /** A reader finds the grammar's headers exactly on the archives aligned for it. */
  lemma {:induction false} ReaderFollowsGrammar(r: Reader, s: Bytes, off: nat, p: Pending, es: seq<Entry>, z: nat)
    requires off <= |s| && z >= 1 && s[off..] == Rest(es, z) && AllOk(es) && ReadsOctal(r)
    ensures HeaderOffsets(r, s, off, p) == EntryOffsets(es, off) <==> Aligned(r, p, es, z)
    decreases |es|
  {
    hide *;
    if es == [] {
      EndsAtZeros(r, s, off, z, p);
      NoEntries(r, p, es, z, off);
    } else {
      KeepsMeans(r, p, es, z);
      HeaderStep(r, s, off, p);
      EntryStep(es, off);
      AlignedTail(r, p, es, z);
      if Reads(r, p, s[off..]) {
        var (n, p') := Next(r, p, s[off..]);
        if n == 512 + |es[0].body| {
          RestHead(es, z);
          DropFront(s, off, es[0].header, es[0].body, Rest(es[1..], z));
          ReaderFollowsGrammar(r, s, off + n, p', es[1..], z);
          OneMoreOffset(off, HeaderOffsets(r, s, off + n, p'), EntryOffsets(es[1..], off + n));
        } else {
          OutOfStep(r, s, off, p', es, n);
          if |es| == 1 { NoEntries(r, p', es[1..], z, off); }
        }
      }
    }
  }

  lemma NoEntries(r: Reader, p: Pending, es: seq<Entry>, z: nat, off: nat)
    requires es == []
    ensures AllOk(es) && Aligned(r, p, es, z) && EntryOffsets(es, off) == []
  {
  }

  /** On an archive of the grammar a reader finds the headers where the guard found them exactly when the archive is
      aligned for it, whatever it takes from pax blocks and makes of layout records. */
  lemma NoLayoutDisagreement(limit: nat, s: Bytes, es: seq<Entry>, z: nat, r: Reader)
    requires IsArchive(limit, s, es, z) && ReadsOctal(r)
    ensures AllOk(es)
    ensures HeaderOffsets(r, s, 0, NOTHING) == EntryOffsets(es, 0) <==> Aligned(r, NOTHING, es, z)
  {
    assert s[0..] == s;
    ReaderFollowsGrammar(r, s, 0, NOTHING, es, z);
  }

  // ----- when nothing that is pending touches the layout -----

  predicate TakesOverride(r: Reader, e: Entry)
    requires |e.header| == 512
  {
    TouchesLayout(TakenFrom(r, e))
  }

  lemma TouchesAppend(a: seq<Record>, b: seq<Record>)
    ensures TouchesLayout(a + b) <==> TouchesLayout(a) || TouchesLayout(b)
  {
    if TouchesLayout(b) {
      var i :| 0 <= i < |b| && OverridesLayout(b[i].content);
      assert (a + b)[|a| + i] == b[i];
    }
    if TouchesLayout(a) {
      var i :| 0 <= i < |a| && OverridesLayout(a[i].content);
      assert (a + b)[i] == a[i];
    }
  }

  lemma CleanTake(p: Pending, kind: Byte, rs: seq<Record>)
    requires Clean(p)
    ensures Clean(Take(p, kind, rs)) <==> !TouchesLayout(rs)
  {
    hide TouchesLayout;
    TouchesAppend(p.global, rs);
    var q := Take(p, kind, rs);
    if kind == 120 {
      assert q.local[|p.local|] == p.global + rs;
      assert forall i :: 0 <= i < |p.local| ==> q.local[i] == p.local[i];
    }
  }

  lemma CleanStep(r: Reader, p: Pending, e: Entry)
    requires |e.header| == 512 && Clean(p)
    ensures Clean(PendingAfter(r, p, e)) <==> !TakesOverride(r, e)
  {
    hide TouchesLayout, Take;
    NothingTouches();
    if IsPax(Kind(e.header)) {
      CleanTake(p, Kind(e.header), TakenFrom(r, e));
    }
  }

  lemma NothingTouches()
    ensures !TouchesLayout([]) && Clean(NOTHING)
  {
  }

  /** Nothing that touches the layout is ever pending. */
  predicate AllClean(r: Reader, p: Pending, es: seq<Entry>)
    requires AllOk(es)
  {
    forall i :: 0 <= i <= |es| ==> Clean(PendingAt(r, p, es, i))
  }

  /** No entry gives the reader a record that touches the layout. */
  predicate NoOverrides(r: Reader, es: seq<Entry>)
    requires AllOk(es)
  {
    forall i :: 0 <= i < |es| ==> !TakesOverride(r, es[i])
  }

  lemma AllCleanTail(r: Reader, p: Pending, es: seq<Entry>)
    requires es != [] && AllOk(es)
    ensures |es[0].header| == 512 && AllOk(es[1..])
    ensures AllClean(r, p, es) <==> Clean(p) && AllClean(r, PendingAfter(r, p, es[0]), es[1..])
  {
    hide Clean, PendingAfter, HeaderOk, BodyOk, AllZero;
    var p' := PendingAfter(r, p, es[0]);
    assert PendingAt(r, p, es, 0) == p;
    forall i | 0 < i <= |es| ensures PendingAt(r, p, es, i) == PendingAt(r, p', es[1..], i - 1) {
    }
    if AllClean(r, p, es) {
      forall j | 0 <= j <= |es[1..]| ensures Clean(PendingAt(r, p', es[1..], j)) {
        assert Clean(PendingAt(r, p, es, j + 1));
      }
    }
  }

  lemma NoOverridesTail(r: Reader, es: seq<Entry>)
    requires es != [] && AllOk(es)
    ensures |es[0].header| == 512 && AllOk(es[1..])
    ensures NoOverrides(r, es) <==> !TakesOverride(r, es[0]) && NoOverrides(r, es[1..])
  {
    hide TakesOverride, HeaderOk, BodyOk, AllZero;
    forall i | 0 < i < |es| ensures es[i] == es[1..][i - 1] {
    }
    if NoOverrides(r, es) {
      forall j | 0 <= j < |es[1..]| ensures !TakesOverride(r, es[1..][j]) {
        assert es[1..][j] == es[j + 1];
      }
    }
  }

  /** Nothing that touches the layout is ever pending exactly when no pax header of the archive gives the reader such a
      record. */
  lemma {:induction false} CleanExactly(r: Reader, p: Pending, es: seq<Entry>)
    requires AllOk(es) && Clean(p)
    ensures AllClean(r, p, es) <==> NoOverrides(r, es)
    decreases |es|
  {
    hide Clean, PendingAfter, TakesOverride, EntryOk;
    if es == [] {
      assert PendingAt(r, p, es, 0) == p;
    } else {
      AllCleanTail(r, p, es);
      NoOverridesTail(r, es);
      hide *;
      var p' := PendingAfter(r, p, es[0]);
      CleanStep(r, p, es[0]);
      if Clean(p') {
        CleanExactly(r, p', es[1..]);
      } else {
        StartsUnclean(r, p', es[1..]);
      }
    }
  }

  lemma StartsUnclean(r: Reader, p: Pending, es: seq<Entry>)
    requires AllOk(es) && !Clean(p)
    ensures !AllClean(r, p, es)
  {
    assert PendingAt(r, p, es, 0) == p;
  }

  lemma {:induction false} PendingNext(r: Reader, p: Pending, es: seq<Entry>, i: nat)
    requires i < |es| && AllOk(es)
    ensures |es[i].header| == 512 && AllOk(es[i..])
    ensures PendingAt(r, p, es, i + 1) == PendingAfter(r, PendingAt(r, p, es, i), es[i])
    decreases i
  {
    hide PendingAfter, HeaderOk, BodyOk, AllZero;
    assert EntryOk(es[i]);
    if i > 0 {
      var p' := PendingAfter(r, p, es[0]);
      PendingNext(r, p', es[1..], i - 1);
      assert es[1..][i - 1] == es[i];
    } else {
      assert PendingAt(r, p, es, 1) == PendingAt(r, PendingAfter(r, p, es[0]), es[1..], 0);
    }
  }
  // ----- archives without such a record -----

  function Toggled(r: Reader): Reader { r.(honours := !r.honours) }

  lemma {:induction false} SamePending(r: Reader, p: Pending, es: seq<Entry>, i: nat)
    requires i <= |es| && AllOk(es)
    ensures PendingAt(Toggled(r), p, es, i) == PendingAt(r, p, es, i)
    decreases i
  {
    hide PendingAfter, HeaderOk, BodyOk, AllZero;
    if i > 0 {
      SameAfter(r, p, es[0]);
      SamePending(r, PendingAfter(r, p, es[0]), es[1..], i - 1);
    }
  }

  lemma SameAfter(r: Reader, p: Pending, e: Entry)
    requires |e.header| == 512
    ensures PendingAfter(Toggled(r), p, e) == PendingAfter(r, p, e) && TakenFrom(Toggled(r), e) == TakenFrom(r, e)
  {
  }

  lemma SameKeeps(r: Reader, p: Pending, es: seq<Entry>, z: nat)
    requires es != [] && AllOk(es) && Clean(p) && Clean(PendingAfter(r, p, es[0]))
    ensures Keeps(Toggled(r), p, es, z) <==> Keeps(r, p, es, z)
  {
    SameAfter(r, p, es[0]);
    var p' := PendingAfter(r, p, es[0]);
    hide PendingAfter, Clean, EntryOk, Misread, AllZero, Rest;
    assert forall t, n :: Stops(Toggled(r), p', t, n) == Stops(r, p', t, n);
    hide Reads, Stops;
  }

  /** Where no pax header gives the reader a layout record, on every archive: honouring such records and ignoring them
      keep to the guard's headers alike. */
  lemma NoOverridesAgree(limit: nat, s: Bytes, es: seq<Entry>, z: nat, r: Reader)
    requires IsArchive(limit, s, es, z) && ReadsOctal(r) && AllOk(es) && NoOverrides(r, es)
    ensures Aligned(Toggled(r), NOTHING, es, z) <==> Aligned(r, NOTHING, es, z)
    ensures Aligned(r, NOTHING, es, z) ==> HeaderOffsets(Toggled(r), s, 0, NOTHING) == HeaderOffsets(r, s, 0, NOTHING)
  {
    NothingTouches();
    CleanExactly(r, NOTHING, es);
    forall i | 0 <= i < |es|
      ensures Keeps(Toggled(r), PendingAt(Toggled(r), NOTHING, es, i), es[i..], z)
          <==> Keeps(r, PendingAt(r, NOTHING, es, i), es[i..], z)
    {
      SamePending(r, NOTHING, es, i);
      PendingNext(r, NOTHING, es, i);
      SameKeeps(r, PendingAt(r, NOTHING, es, i), es[i..], z);
    }
    NoLayoutDisagreement(limit, s, es, z, r);
    NoLayoutDisagreement(limit, s, es, z, Toggled(r));
    hide Keeps, PendingAt, HeaderOffsets, EntryOk;
  }

  /** What suffices entry by entry: every header and every pax block read, no layout record taken, every size zero or of
      an entry that stores its body and writes its size without a NUL in front. */
  lemma PlainEntriesAlign(r: Reader, es: seq<Entry>, z: nat)
    requires AllOk(es) && NoOverrides(r, es)
    requires forall i :: 0 <= i < |es| ==>
      && r.sizes(es[i].header).Some?
      && (IsPax(Kind(es[i].header)) ==> Taken(r, r.sizes(es[i].header).value, es[i].body).Some?)
      && (DeclaredSize(es[i].header) == Some(0)
          || !(StoresNothing(es[i].header) || NulFirst(es[i].header[124..136])))
    ensures Aligned(r, NOTHING, es, z)
  {
    NothingTouches();
    CleanExactly(r, NOTHING, es);
    hide Rest, NulFirst, StoresNothing, PendingAt, TakesOverride, HeaderOk, AllZero, BodyOk, Stops;
    forall i | 0 <= i < |es| ensures Keeps(r, PendingAt(r, NOTHING, es, i), es[i..], z) {
      RoundUpBounds(DeclaredSize(es[i].header).value);
      assert es[i..][0] == es[i];
    }
  }

  /** A block at which a reader stops when no layout record is pending and it can read any pax block. */
  predicate StopsAt(r: Reader, h: Bytes) {
    AllZero(h) || r.sizes(h).None?
  }

  /** A reader that takes just the declared bytes of a pax header, by the guard's own grammar. */
  ghost predicate TakesDeclared(r: Reader) {
    forall b, size :: r.records(b, size) == Some(ParseFrom(Upto(b, size), 0))
  }

  /** The reader reads every header, and misreads no body, except that it may misread the last one's if it stops at its
      first block. */
  predicate PlainlyAligned(r: Reader, es: seq<Entry>)
    requires AllOk(es)
  {
    && (forall i :: 0 <= i < |es| ==> r.sizes(es[i].header).Some?)
    && forall i :: 0 <= i < |es| && Misread(es[i])
         ==> i == |es| - 1 && |es[i].body| >= 512 && StopsAt(r, es[i].body[..512])
  }

  lemma CleanPayload(h: Bytes, b: Bytes)
    requires |h| == 512 && HeaderOk(h) && |b| == RoundUp(DeclaredSize(h).value) && BodyOk(h, b) && IsPax(Kind(h))
    ensures DeclaredSize(h).value <= |b| && !TouchesLayout(ParseFrom(b[..DeclaredSize(h).value], 0))
  {
    var size := DeclaredSize(h).value;
    RoundUpBounds(size);
    if size > 0 {
      ParseSound(b[..size], 0);
      forall i | 0 <= i < |ParseFrom(b[..size], 0)| ensures !OverridesLayout(ParseFrom(b[..size], 0)[i].content) {
        assert RecordOk(ParseFrom(b[..size], 0)[i]);
      }
    } else {
      assert ParseFrom(b[..size], 0) == [];
    }
  }

  lemma EmptyParse(s: Bytes)
    requires s == []
    ensures ParseFrom(s, 0) == []
  {
  }

  /** The declared bytes of an accepted pax header hold no layout record. */
  lemma DeclaredIsClean(r: Reader, e: Entry)
    requires EntryOk(e) && ReadsOctal(r) && TakesDeclared(r)
    ensures !TakesOverride(r, e)
  {
    hide AllZero, HeaderOk, BodyOk, NulFirst, ReadsOctal, TakesDeclared, TouchesLayout, RoundUp, DeclaredSize, Taken;
    NothingTouches();
    if IsPax(Kind(e.header)) && r.sizes(e.header).Some? {
      var size := r.sizes(e.header).value;
      DeclaredTaken(r, size, e.body);
      SizeSeen(r, e);
      CleanPayload(e.header, e.body);
      RoundUpBounds(size);
      assert Upto(Upto(e.body, RoundUp(size)), size) == e.body[..size];
      EmptyParse(e.body[..0]);
    }
  }

  lemma ReadsPlainly(r: Reader, p: Pending, b: Bytes, tail: Bytes)
    requires |b| >= 512 && Clean(p) && TakesDeclared(r)
    ensures Reads(r, p, b + tail) <==> !StopsAt(r, b[..512])
  {
    hide AllZero, Clean, ParseFrom;
    var t := b + tail;
    assert t[..512] == b[..512];
    if r.sizes(b[..512]).Some? { DeclaredTaken(r, r.sizes(b[..512]).value, t[512..]); }
  }

  lemma DeclaredTaken(r: Reader, size: nat, after: Bytes)
    requires TakesDeclared(r)
    ensures Taken(r, size, after) == Some(ParseFrom(Upto(Upto(after, RoundUp(size)), size), 0))
  {
    hide ParseFrom;
  }

  /** One entry of an archive on which nothing touches the layout. */
  lemma KeepsPlainly(r: Reader, p: Pending, es: seq<Entry>, z: nat)
    requires es != [] && AllOk(es) && Clean(p) && Clean(PendingAfter(r, p, es[0])) && TakesDeclared(r) && z >= 1
    ensures var e := es[0];
      Keeps(r, p, es, z) <==> r.sizes(e.header).Some?
                              && (Misread(e) ==> |es| == 1 && |e.body| >= 512 && StopsAt(r, e.body[..512]))
  {
    hide Rest, Clean, PendingAfter, StopsAt, Misread, BodyOk, HeaderOk, AllZero, TakesDeclared, Taken, Reads;
    var e, tail := es[0], Rest(es[1..], z);
    RestHead(es, z);
    FrontIs(e.header, e.body, tail);
    if r.sizes(e.header).Some? { DeclaredTaken(r, r.sizes(e.header).value, e.body); }
    if Misread(e) {
      MisreadBody(e);
      ReadsPlainly(r, PendingAfter(r, p, e), e.body, tail);
    }
  }

  lemma MisreadBody(e: Entry)
    requires EntryOk(e) && Misread(e)
    ensures |e.body| >= 512
  {
    RoundUpBounds(DeclaredSize(e.header).value);
  }

  /** For a reader that takes just the declared bytes, on every archive: it finds the guard's headers exactly when it
      reads every header and misreads no body but a last one at whose first block it stops, and it does not matter
      whether it honours layout records. */
  lemma DeclaredBytesOnly(limit: nat, s: Bytes, es: seq<Entry>, z: nat, r: Reader)
    requires IsArchive(limit, s, es, z) && ReadsOctal(r) && TakesDeclared(r)
    ensures AllOk(es) && NoOverrides(r, es)
    ensures HeaderOffsets(r, s, 0, NOTHING) == EntryOffsets(es, 0) <==> PlainlyAligned(r, es)
    ensures PlainlyAligned(r, es) ==> HeaderOffsets(Toggled(r), s, 0, NOTHING) == HeaderOffsets(r, s, 0, NOTHING)
  {
    NoLayoutDisagreement(limit, s, es, z, r);
    forall i | 0 <= i < |es| ensures !TakesOverride(r, es[i]) { DeclaredIsClean(r, es[i]); }
    PlainExactly(r, es, z);
    NoOverridesAgree(limit, s, es, z, r);
  }

  lemma PlainExactly(r: Reader, es: seq<Entry>, z: nat)
    requires AllOk(es) && TakesDeclared(r) && NoOverrides(r, es) && z >= 1
    ensures Aligned(r, NOTHING, es, z) <==> PlainlyAligned(r, es)
  {
    NothingTouches();
    CleanExactly(r, NOTHING, es);
    forall i | 0 <= i < |es|
      ensures Keeps(r, PendingAt(r, NOTHING, es, i), es[i..], z)
          <==> r.sizes(es[i].header).Some?
               && (Misread(es[i]) ==> i == |es| - 1 && |es[i].body| >= 512 && StopsAt(r, es[i].body[..512]))
    {
      PendingNext(r, NOTHING, es, i);
      KeepsPlainly(r, PendingAt(r, NOTHING, es, i), es[i..], z);
    }
    hide Keeps, Misread, StopsAt, PendingAt, EntryOk;
  }
}
