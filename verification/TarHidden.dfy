/** What a body that a reader does not skip hides: blocks the guard never looks at and a reader takes for headers. */
module TarHidden {
  import opened Options
  import opened TarFormat
  import opened TarGuard
  import opened TarGrammar
  import opened TarReader
  import opened TarPax

  /** Behind ANY header the guard accepts with 512 bytes, of a kind that stores none or with a NUL before its digits,
      any block the guard lets by as its body (for kinds other than pax headers, any block at all) is accepted, and a
      reader that reads it as a header finds it there. */
  lemma AnyBlockHides(limit: nat, h: Bytes, b: Bytes, r: Reader)
    requires |h| == |b| == 512 && limit >= 1536 && ReadsOctal(r) && Reads(r, NOTHING, (h + b) + Zeros(512))
    requires !AllZero(h) && HeaderOk(h) && DeclaredSize(h) == Some(512) && BodyOk(h, b)
    requires StoresNothing(h) || NulFirst(h[124..136])
    ensures var s, found := h + b + Zeros(512), HeaderOffsets(r, h + b + Zeros(512), 0, NOTHING);
      && Accepted(limit, s) && IsArchive(limit, s, [Entry(h, b)], 1) && EntryOffsets([Entry(h, b)], 0) == [0]
      && if Reads(r, PendingAfter(r, NOTHING, Entry(h, b)), b + Zeros(512)) then [0, 512] <= found else found == [0]
  {
    hide *;
    EntryIs(h, b);
    BlockFound(limit, h, b, r, Entry(h, b), h + b + Zeros(512));
  }

  lemma EntryIs(h: Bytes, b: Bytes)
    requires |h| == |b| == 512 && !AllZero(h) && HeaderOk(h) && DeclaredSize(h) == Some(512) && BodyOk(h, b)
    ensures EntryOk(Entry(h, b))
  {
  }

  lemma BodyNotSkipped(r: Reader, e: Entry)
    requires EntryOk(e) && ReadsOctal(r) && Reads(r, NOTHING, (e.header + e.body) + Zeros(512))
    requires StoresNothing(e.header) || NulFirst(e.header[124..136])
    ensures Next(r, NOTHING, (e.header + e.body) + Zeros(512)) == (512, PendingAfter(r, NOTHING, e))
  {
    NothingTouches();
    EntryNext(r, NOTHING, e, Zeros(512));
    hide EntryOk, Reads, PendingAfter, Next;
  }

  lemma BlockFound(limit: nat, h: Bytes, b: Bytes, r: Reader, e: Entry, s: Bytes)
    requires |h| == |b| == 512 && limit >= 1536 && e == Entry(h, b) && s == h + b + Zeros(512) && EntryOk(e)
    requires ReadsOctal(r) && Reads(r, NOTHING, s) && DeclaredSize(h) == Some(512)
    requires StoresNothing(h) || NulFirst(h[124..136])
    ensures var found := HeaderOffsets(r, s, 0, NOTHING);
      && Accepted(limit, s) && IsArchive(limit, s, [e], 1) && EntryOffsets([e], 0) == [0]
      && if Reads(r, PendingAfter(r, NOTHING, e), b + Zeros(512)) then [0, 512] <= found else found == [0]
  {
    OneEntry(limit, e, s);
    BodyNotSkipped(r, e);
    assert s[0..] == s && s[512..] == b + Zeros(512);
    hide HeaderOffsets, EntryOk, Accepted, IsArchive, Reads, PendingAfter, Next, ReadsOctal, StoresNothing, NulFirst;
    hide DeclaredSize, EntryOffsets;
    HeaderStep(r, s, 0, NOTHING);
    HeaderStep(r, s, 512, PendingAfter(r, NOTHING, e));
  }

  /** The guard does not see the padding: whatever follows the declared bytes of a body, it is as good as any other. */
  lemma PaddingUnseen(h: Bytes, payload: Bytes, padding: Bytes, other: Bytes)
    requires |padding| == |other| && |h| == 512 && DeclaredSize(h) == Some(|payload|)
    ensures EntryOk(Entry(h, payload + padding)) <==> EntryOk(Entry(h, payload + other))
  {
    assert (payload + padding)[..|payload|] == payload == (payload + other)[..|payload|];
    hide PaxOk, AllZero;
  }

  lemma OneEntry(limit: nat, e: Entry, s: Bytes)
    requires EntryOk(e) && s == e.header + e.body + Zeros(512) && |s| <= limit
    ensures IsArchive(limit, s, [e], 1) && Accepted(limit, s) && EntryOffsets([e], 0) == [0]
  {
    hide EntryOk, Accepted;
    assert Serialize([e]) == e.header + e.body by {
      assert Serialize([]) == [] && e.header + e.body + [] == e.header + e.body;
    }
    assert EntryOffsets([e], 0) == [0] + EntryOffsets([], 512 + |e.body|);
    assert IsArchive(limit, s, [e], 1);
    AcceptsExactlyArchives(limit, s);
  }

  // ----- a concrete reader: it also checks the checksum -----

  function Sum(s: Bytes): nat {
    if s == [] then 0 else s[0] + Sum(s[1..])
  }

  /** The checksum field counts as spaces. */
  predicate ChecksumOk(h: Bytes)
    requires |h| == 512
  {
    ReaderNumber(h[148..156]) == Some(256 + Sum(h[..148]) + Sum(h[156..]))
  }

  function TarfileSize(h: Bytes): Option<nat> {
    if |h| == 512 && ChecksumOk(h) then ReaderNumber(h[124..136]) else None
  }

  /** It reads whole blocks behind a pax header and applies `size` records, or none. */
  function Tarfile(honours: bool): (r: Reader)
    ensures ReadsOctal(r) && TakesBlocks(r)
  {
    Reader(TarfileSize, (b, size) => TarfileRecords(b, 0), (p, t) => SizeLayout(TarfileSize, p, t), honours)
  }

  // ----- headers written out -----

  /** Digits, then NULs up to the width of the field. */
  function Field(digits: Bytes, width: nat): (f: Bytes)
    requires |digits| <= width
    ensures |f| == width
  {
    digits + Zeros(width - |digits|)
  }

  /** The bytes before the checksum field: a name and a size field, the rest NUL. */
  function Front(name: Bytes, size: Bytes): (f: Bytes)
    requires |name| <= 100 && |size| == 12
    ensures |f| == 148
  {
    name + Zeros(124 - |name|) + size + Zeros(12)
  }

  /** The bytes after it: a kind, the rest NUL. */
  function Back(kind: Byte): (b: Bytes)
    ensures |b| == 356 && b[0] == kind
  {
    [kind] + Zeros(355)
  }

  function Header(name: Bytes, size: Bytes, check: Bytes, kind: Byte): (h: Bytes)
    requires |name| <= 100 && |size| == 12 && |check| == 8
    ensures |h| == 512
  {
    Front(name, size) + check + Back(kind)
  }

  lemma FrontParts(name: Bytes, size: Bytes)
    requires |name| <= 100 && |size| == 12
    ensures Front(name, size)[124..136] == size && Front(name, size)[..100] == name + Zeros(100 - |name|)
  {
  }

  lemma Slices(a: Bytes, b: Bytes, c: Bytes)
    requires |a| == 148 && |b| == 8
    ensures var h := a + b + c;
      h[..148] == a && h[148..156] == b && h[156..] == c && h[124..136] == a[124..136] && h[..100] == a[..100]
  {
    var h := a + b + c;
    assert forall i :: 0 <= i < 148 ==> h[i] == a[i];
    assert h[124..136] == h[..148][124..136] && h[..100] == h[..148][..100];
  }

  lemma Parts(name: Bytes, size: Bytes, check: Bytes, kind: Byte)
    requires |name| <= 100 && |size| == 12 && |check| == 8
    ensures var h := Header(name, size, check, kind);
      && h[..148] == Front(name, size) && h[148..156] == check && h[156..] == Back(kind) && h[156] == kind
      && h[124..136] == size && h[..100] == name + Zeros(100 - |name|)
  {
    var h := Header(name, size, check, kind);
    FrontParts(name, size);
    Slices(Front(name, size), check, Back(kind));
    hide Front, Back, Header;
    assert h[156] == h[156..][0];
  }

  lemma {:induction false} SumConcat(a: Bytes, b: Bytes)
    ensures Sum(a + b) == Sum(a) + Sum(b)
  {
    if a == [] {
      assert a + b == b;
    } else {
      assert (a + b)[1..] == a[1..] + b;
      SumConcat(a[1..], b);
    }
  }

  lemma {:induction false} SumZeros(n: nat)
    ensures Sum(Zeros(n)) == 0
  {
    if n > 0 {
      assert Zeros(n)[1..] == Zeros(n - 1);
      SumZeros(n - 1);
    }
  }

  lemma FrontSums(name: Bytes, size: Bytes)
    requires |name| <= 100 && |size| == 12
    ensures Sum(Front(name, size)) == Sum(name) + Sum(size)
  {
    hide Sum;
    SumConcat(name + Zeros(124 - |name|) + size, Zeros(12));
    SumConcat(name + Zeros(124 - |name|), size);
    SumConcat(name, Zeros(124 - |name|));
    SumZeros(12);
    SumZeros(124 - |name|);
  }

  lemma BackSums(kind: Byte)
    ensures Sum(Back(kind)) == kind
  {
    SumConcat([kind], Zeros(355));
    SumZeros(355);
    assert Sum([kind]) == kind + Sum([]);
  }

  lemma {:induction false} UpToNulPlain(a: Bytes, n: nat, rest: Bytes)
    requires (forall i :: 0 <= i < |a| ==> a[i] != 0) && (n > 0 || rest == [])
    ensures UpToNul(a + Zeros(n) + rest) == a
  {
    if a == [] {
      assert n > 0 ==> (a + Zeros(n) + rest)[0] == 0;
    } else {
      assert (a + Zeros(n) + rest)[1..] == a[1..] + Zeros(n) + rest;
      UpToNulPlain(a[1..], n, rest);
    }
  }

  /** What guard and reader find in a field of digits and NULs, without and with a NUL in front. */
  lemma FieldSays(digits: Bytes, width: nat)
    requires 0 < |digits| <= width && IsOctal(digits)
    ensures GuardNumber(Field(digits, width)) == ReaderNumber(Field(digits, width)) == Some(OctalValue(digits))
    ensures GuardNumber([0] + Field(digits, width)) == Some(OctalValue(digits))
    ensures ReaderNumber([0] + Field(digits, width)) == Some(0)
  {
    var f := Field(digits, width);
    StripRightIs(digits, f);
    assert StripLeft(f) == f && ([0] + f)[1..] == f;
    assert StripLeft([0] + f) == f;
    UpToNulPlain(digits, width - |digits|, []);
    assert digits + Zeros(width - |digits|) + [] == f;
    assert StripLeft(digits) == digits && StripRight(digits) == digits;
  }

  /** A header whose checksum field holds the sum of the others reads as its size field says. */
  lemma HeaderReads(name: Bytes, size: Bytes, check: Bytes, kind: Byte)
    requires |name| <= 100 && |size| == 12 && |check| == 8 && check[0] != 0
    requires ReaderNumber(check) == Some(256 + Sum(name) + Sum(size) + kind)
    ensures var h := Header(name, size, check, kind);
      && !AllZero(h) && Kind(h) == kind && h[124..136] == size && h[..100] == name + Zeros(100 - |name|)
      && DeclaredSize(h) == GuardNumber(size) && TarfileSize(h) == ReaderNumber(size)
  {
    hide Header, Front, Back, Sum, ReaderNumber, GuardNumber;
    Parts(name, size, check, kind);
    FrontSums(name, size);
    BackSums(kind);
    assert Header(name, size, check, kind)[148] == check[0];
  }
}
