/** Concrete archives, checksums included, that the guard accepts and a reader reads differently. */
module TarWitness {
  import opened Options
  import opened TarFormat
  import opened TarGuard
  import opened TarGrammar
  import opened TarReader
  import opened TarPax
  import opened TarHidden

  /** A header with its size and checksum digits followed by NULs. */
  function Plain(name: Bytes, digits: Bytes, check: Bytes, kind: Byte): (h: Bytes)
    requires |name| <= 100 && |digits| <= 12 && |check| <= 8
    ensures |h| == 512
  {
    Header(name, Field(digits, 12), Field(check, 8), kind)
  }

  lemma FieldSum(digits: Bytes, width: nat)
    requires |digits| <= width
    ensures Sum(Field(digits, width)) == Sum(digits)
  {
    SumConcat(digits, Zeros(width - |digits|));
    SumZeros(width - |digits|);
  }

  lemma PlainReads(name: Bytes, digits: Bytes, check: Bytes, kind: Byte)
    requires |name| <= 100 && 0 < |digits| <= 12 && 0 < |check| <= 8 && IsOctal(digits) && IsOctal(check)
    requires OctalValue(check) == 256 + Sum(name) + Sum(digits) + kind
    ensures var h := Plain(name, digits, check, kind);
      && !AllZero(h) && Kind(h) == kind && h[..100] == name + Zeros(100 - |name|)
      && DeclaredSize(h) == TarfileSize(h) == Some(OctalValue(digits))
  {
    assert Field(check, 8)[0] == check[0];
    hide Header, Sum, OctalValue, TarfileSize, DeclaredSize, AllZero, Field, ReaderNumber, GuardNumber;
    FieldSum(digits, 12);
    FieldSays(digits, 12);
    FieldSays(check, 8);
    HeaderReads(name, Field(digits, 12), Field(check, 8), kind);
  }

  lemma Digits1(a: Byte)
    requires 48 <= a <= 55
    ensures OctalValue([a]) == a - 48
  {
    assert [a][..0] == [];
  }

  lemma Digits2(a: Byte, b: Byte)
    requires 48 <= a <= 55 && 48 <= b <= 55
    ensures OctalValue([a, b]) == (a - 48) * 8 + (b - 48)
  {
    assert [a, b][..1] == [a];
    Digits1(a);
  }

  lemma Digits3(a: Byte, b: Byte, c: Byte)
    requires 48 <= a <= 55 && 48 <= b <= 55 && 48 <= c <= 55
    ensures OctalValue([a, b, c]) == (a - 48) * 64 + (b - 48) * 8 + (c - 48)
  {
    assert [a, b, c][..2] == [a, b];
    Digits2(a, b);
  }

  lemma Digits4(a: Byte, b: Byte, c: Byte, d: Byte)
    requires 48 <= a <= 55 && 48 <= b <= 55 && 48 <= c <= 55 && 48 <= d <= 55
    ensures OctalValue([a, b, c, d]) == (a - 48) * 512 + (b - 48) * 64 + (c - 48) * 8 + (d - 48)
  {
    assert [a, b, c, d][..3] == [a, b, c];
    Digits3(a, b, c);
  }

  lemma Sum0()
    ensures Sum([]) == 0
  {
  }

  lemma Sum1(a: Byte)
    ensures Sum([a]) == a
  {
    assert [a][1..] == [];
  }

  lemma Sum2(a: Byte, b: Byte)
    ensures Sum([a, b]) == a + b
  {
    assert [a, b] == [a] + [b];
    SumConcat([a], [b]);
    Sum1(a);
    Sum1(b);
  }

  lemma Sum4(a: Byte, b: Byte, c: Byte, d: Byte)
    ensures Sum([a, b, c, d]) == a + b + c + d
  {
    assert [a, b, c, d] == [a, b] + [c, d];
    SumConcat([a, b], [c, d]);
    Sum2(a, b);
    Sum2(c, d);
  }

  // ----- the headers -----

  /** A directory that declares 512 bytes, and one that declares 2048. */
  function Directory(): (h: Bytes)
    ensures |h| == 512
  {
    Plain([], [49, 48, 48, 48], [55, 54, 54], 53)
  }

  function BigDirectory(): (h: Bytes)
    ensures |h| == 512
  {
    Plain([], [52, 48, 48, 48], [55, 55, 49], 53)
  }

  /** An old-style directory "d/" of kind NUL. */
  function OldDirectory(): (h: Bytes)
    ensures |h| == 512
  {
    Plain([100, 47], [49, 48, 48, 48], [49, 49, 50, 52], 0)
  }

  /** A file whose size field is a NUL and then 512 in octal. */
  function NulFile(): (h: Bytes)
    ensures |h| == 512
  {
    Header([], [0] + Field([49, 48, 48, 48], 11), Field([55, 54, 49], 8), 48)
  }

  /** An empty file, and a file with nothing but NULs for a size. */
  function EmptyFile(): (h: Bytes)
    ensures |h| == 512
  {
    Plain([], [48], [53, 52, 48], 48)
  }

  function BlankFile(): (h: Bytes)
    ensures |h| == 512
  {
    Header([], Zeros(12), Field([52, 54, 48], 8), 48)
  }

  /** A file "f" that declares 512 bytes. */
  function File(): (h: Bytes)
    ensures |h| == 512
  {
    Plain([102], [49, 48, 48, 48], [49, 49, 50, 55], 48)
  }

  /** A pax header of 12 bytes. */
  function Pax(): (h: Bytes)
    ensures |h| == 512
  {
    Plain([], [49, 52], [55, 51, 53], 120)
  }

  lemma DirectoryReads()
    ensures !AllZero(Directory()) && Kind(Directory()) == 53
    ensures DeclaredSize(Directory()) == TarfileSize(Directory()) == Some(512)
  {
    hide OctalValue, Sum, Plain, AllZero, TarfileSize, DeclaredSize;
    Digits4(49, 48, 48, 48);
    Sum4(49, 48, 48, 48);
    Digits3(55, 54, 54);
    Sum0();
    PlainReads([], [49, 48, 48, 48], [55, 54, 54], 53);
  }

  lemma BigDirectoryReads()
    ensures !AllZero(BigDirectory()) && Kind(BigDirectory()) == 53
    ensures DeclaredSize(BigDirectory()) == TarfileSize(BigDirectory()) == Some(2048)
  {
    hide OctalValue, Sum, Plain, AllZero, TarfileSize, DeclaredSize;
    Digits4(52, 48, 48, 48);
    Sum4(52, 48, 48, 48);
    Digits3(55, 55, 49);
    Sum0();
    PlainReads([], [52, 48, 48, 48], [55, 55, 49], 53);
  }

  lemma OldDirectoryReads()
    ensures !AllZero(OldDirectory()) && Kind(OldDirectory()) == 0 && StoresNothing(OldDirectory())
    ensures DeclaredSize(OldDirectory()) == TarfileSize(OldDirectory()) == Some(512)
  {
    hide OctalValue, Sum, Plain, AllZero, TarfileSize, DeclaredSize;
    Digits4(49, 48, 48, 48);
    Sum4(49, 48, 48, 48);
    Sum2(100, 47);
    Digits4(49, 49, 50, 52);
    PlainReads([100, 47], [49, 48, 48, 48], [49, 49, 50, 52], 0);
    UpToNulPlain([100, 47], 98, []);
    assert [100, 47] + Zeros(98) + [] == OldDirectory()[..100];
  }

  lemma NulFileReads()
    ensures !AllZero(NulFile()) && Kind(NulFile()) == 48 && NulFirst(NulFile()[124..136])
    ensures DeclaredSize(NulFile()) == Some(512) && TarfileSize(NulFile()) == Some(0)
  {
    hide OctalValue, Sum, Header, AllZero, TarfileSize, DeclaredSize, ReaderNumber, GuardNumber;
    var size, check := [0] + Field([49, 48, 48, 48], 11), Field([55, 54, 49], 8);
    assert check[0] == 55 && size[0] == 0;
    hide Field;
    Digits4(49, 48, 48, 48);
    Sum4(49, 48, 48, 48);
    SumConcat([0], Field([49, 48, 48, 48], 11));
    FieldSum([49, 48, 48, 48], 11);
    Sum1(0);
    Sum0();
    Digits3(55, 54, 49);
    FieldSays([49, 48, 48, 48], 11);
    FieldSays([55, 54, 49], 8);
    HeaderReads([], size, check, 48);
  }

  lemma EmptyFileReads()
    ensures !AllZero(EmptyFile()) && Kind(EmptyFile()) == 48 && !StoresNothing(EmptyFile())
    ensures DeclaredSize(EmptyFile()) == TarfileSize(EmptyFile()) == Some(0)
  {
    hide OctalValue, Sum, Plain, AllZero, TarfileSize, DeclaredSize;
    Digits1(48);
    Sum1(48);
    Digits3(53, 52, 48);
    Sum0();
    PlainReads([], [48], [53, 52, 48], 48);
  }

  lemma NoNulFirst(h: Bytes, size: nat)
    requires |h| == 512 && size > 0 && DeclaredSize(h) == TarfileSize(h) == Some(size)
    ensures !NulFirst(h[124..136])
  {
    hide ChecksumOk;
    NumberIs(h[124..136]);
  }

  lemma FileReads()
    ensures !AllZero(File()) && Kind(File()) == 48 && !StoresNothing(File()) && !NulFirst(File()[124..136])
    ensures DeclaredSize(File()) == TarfileSize(File()) == Some(512)
  {
    hide OctalValue, Sum, Plain, AllZero, TarfileSize, DeclaredSize;
    Digits4(49, 48, 48, 48);
    Sum4(49, 48, 48, 48);
    Sum1(102);
    Digits4(49, 49, 50, 55);
    PlainReads([102], [49, 48, 48, 48], [49, 49, 50, 55], 48);
    NoNulFirst(File(), 512);
  }

  lemma PaxReads()
    ensures !AllZero(Pax()) && Kind(Pax()) == 120 && DeclaredSize(Pax()) == TarfileSize(Pax()) == Some(12)
  {
    hide OctalValue, Sum, Plain, AllZero, TarfileSize, DeclaredSize;
    Digits2(49, 52);
    Sum2(49, 52);
    Digits3(55, 51, 53);
    Sum0();
    PlainReads([], [49, 52], [55, 51, 53], 120);
  }

  lemma BlankFileReads()
    ensures !AllZero(BlankFile()) && Kind(BlankFile()) == 48
    ensures DeclaredSize(BlankFile()).None? && TarfileSize(BlankFile()) == Some(0)
  {
    hide OctalValue, Sum, Header, AllZero, TarfileSize, DeclaredSize, ReaderNumber, GuardNumber;
    var check := Field([52, 54, 48], 8);
    assert check[0] == 52;
    hide Field;
    BlankSays();
    SumZeros(12);
    Sum0();
    Digits3(52, 54, 48);
    FieldSays([52, 54, 48], 8);
    HeaderReads([], Zeros(12), check, 48);
  }

  lemma BlankSays()
    ensures GuardNumber(Zeros(12)).None? && ReaderNumber(Zeros(12)) == Some(0)
  {
    UpToNulPlain([], 12, []);
    assert [] + Zeros(12) + [] == Zeros(12);
    StripZeros(12);
  }

  lemma {:induction false} StripZeros(n: nat)
    ensures StripLeft(Zeros(n)) == []
  {
    if n > 0 {
      assert Zeros(n)[1..] == Zeros(n - 1);
      StripZeros(n - 1);
    }
  }

  // ----- turns of a reader -----

  lemma Suffix(s: Bytes, off: nat, a: Bytes, t: Bytes)
    requires off <= |s| && s[off..] == a + t
    ensures off + |a| <= |s| && s[off + |a|..] == t
  {
    assert |s| - off == |a| + |t|;
    assert s[off..][|a|..] == s[off + |a|..];
  }

  /** A member's header. */
  lemma MemberTurn(r: Reader, p: Pending, s: Bytes, off: nat, h: Bytes, rest: Bytes, size: nat)
    requires off <= |s| && s[off..] == h + rest && |h| == 512 && !AllZero(h) && r.sizes(h) == Some(size)
    requires !IsMetadata(Kind(h)) && (Overridden(r, p, h) ==> r.layout(p, h + rest).Some?)
    ensures HeaderOffsets(r, s, off, p)
            == [off] + HeaderOffsets(r, s, off + 512 + (if Overridden(r, p, h) then r.layout(p, h + rest).value
                                                        else if StoresNothing(h) then 0 else RoundUp(size)),
                                     p.(local := []))
  {
    hide AllZero, StoresNothing, Overridden, HeaderOffsets;
    assert (h + rest)[..512] == h;
    HeaderStep(r, s, off, p);
  }

  /** A pax header with the blocks behind it. */
  lemma PaxHeaderTurn(r: Reader, p: Pending, s: Bytes, off: nat, h: Bytes, b: Bytes, rest: Bytes, size: nat,
                      rs: seq<Record>)
    requires off <= |s| && s[off..] == h + (b + rest) && |h| == 512 && !AllZero(h) && r.sizes(h) == Some(size)
    requires IsPax(Kind(h)) && |b| == RoundUp(size) && r.records(b, size) == Some(rs)
    ensures HeaderOffsets(r, s, off, p)
            == [off] + HeaderOffsets(r, s, off + 512 + |b|, Take(p, Kind(h), rs))
  {
    hide AllZero, StoresNothing, Overridden, HeaderOffsets, RoundUp, Take;
    var t := h + (b + rest);
    assert t[..512] == h && t[512..] == b + rest && Upto(b + rest, |b|) == b;
    assert IsMetadata(Kind(h));
    PaxNotOverridden(r, p, h);
    HeaderStep(r, s, off, p);
  }

  lemma PaxNotOverridden(r: Reader, p: Pending, h: Bytes)
    requires |h| == 512 && IsPax(Kind(h))
    ensures !Overridden(r, p, h)
  {
  }

  lemma ZeroTurn(r: Reader, p: Pending, s: Bytes, off: nat)
    requires off <= |s| && s[off..] == Zeros(512)
    ensures HeaderOffsets(r, s, off, p) == []
  {
    assert Zeros(512)[..512] == Zeros(512);
  }

  // ----- one hidden header behind each misread entry -----

  /** The guard takes h and b for one entry; the reader lists a header in b as well. */
  ghost predicate Hides(limit: nat, r: Reader, h: Bytes, b: Bytes) {
    && |h| == 512 && |b| == 512
    && var s := h + b + Zeros(512);
       Accepted(limit, s) && IsArchive(limit, s, [Entry(h, b)], 1) && [0, 512] <= HeaderOffsets(r, s, 0, NOTHING)
  }

  lemma MemberReads(r: Reader, h: Bytes, rest: Bytes)
    requires |h| == 512 && !AllZero(h) && r.sizes(h).Some? && !IsMetadata(Kind(h))
    ensures Reads(r, NOTHING, h + rest)
  {
    hide AllZero;
    assert (h + rest)[..512] == h;
    NothingTouches();
  }

  lemma OneHides(limit: nat, r: Reader, h: Bytes, b: Bytes)
    requires |h| == |b| == 512 && limit >= 1536 && ReadsOctal(r) && r.sizes(h).Some? && r.sizes(b).Some?
    requires !AllZero(h) && !AllZero(b) && DeclaredSize(h) == Some(512) && Kind(h) in {0, 48, 53} && Kind(b) == 48
    requires StoresNothing(h) || NulFirst(h[124..136])
    ensures Hides(limit, r, h, b)
  {
    hide AllZero, DeclaredSize, StoresNothing, NulFirst, ReadsOctal, HeaderOffsets, Reads;
    assert HeaderOk(h) && RoundUp(512) == 512;
    assert (h + b) + Zeros(512) == h + (b + Zeros(512));
    MemberReads(r, h, b + Zeros(512));
    MemberReads(r, b, Zeros(512));
    assert PendingAfter(r, NOTHING, Entry(h, b)) == NOTHING;
    AnyBlockHides(limit, h, b, r);
  }

  /** A hidden empty file is listed behind a directory, an old-style directory and a file whose size starts with a NUL;
      behind a directory, so is a header whose own size field is blank. */
  lemma HiddenHeaders(limit: nat, honours: bool)
    requires limit >= 1536
    ensures Hides(limit, Tarfile(honours), Directory(), EmptyFile())
    ensures Hides(limit, Tarfile(honours), OldDirectory(), EmptyFile())
    ensures Hides(limit, Tarfile(honours), NulFile(), EmptyFile())
    ensures Hides(limit, Tarfile(honours), Directory(), BlankFile())
  {
    hide Plain, Header, Hides, TarfileSize, DeclaredSize, AllZero;
    hide Directory, OldDirectory, NulFile, EmptyFile, BlankFile;
    var r := Tarfile(honours);
    DirectoryReads();
    OldDirectoryReads();
    NulFileReads();
    EmptyFileReads();
    BlankFileReads();
    OneHides(limit, r, Directory(), EmptyFile());
    OneHides(limit, r, OldDirectory(), EmptyFile());
    OneHides(limit, r, NulFile(), EmptyFile());
    OneHides(limit, r, Directory(), BlankFile());
  }

  // ----- records written out -----

  /** "12 size=512", "12 foo=bar2" and "10 size=0", each with its newline. */
  const SIZE512 := Record([49, 50], [115, 105, 122, 101, 61, 53, 49, 50])
  const FOO := Record([49, 50], [102, 111, 111, 61, 98, 97, 114, 50])
  const SIZE0 := Record([49, 48], [115, 105, 122, 101, 61, 48])

  lemma TwoDigits(a: Byte, b: Byte)
    requires 48 <= a <= 57 && 48 <= b <= 57
    ensures IsDigits([a, b]) && DecimalValue([a, b]) == (a - 48) * 10 + (b - 48)
  {
    assert [a, b][..1] == [a] && [a][..0] == [];
    assert DecimalValue([a]) == a - 48;
  }

  lemma RecordsAre()
    ensures SelfDelimited(SIZE512) && SelfDelimited(FOO) && SelfDelimited(SIZE0)
    ensures |Encode(SIZE512)| == |Encode(FOO)| == 12 && |Encode(SIZE0)| == 10
    ensures 61 in SIZE512.content && 61 in FOO.content && 61 in SIZE0.content
  {
    TwoDigits(49, 50);
    TwoDigits(49, 48);
    assert SIZE512.content[4] == 61 && FOO.content[3] == 61 && SIZE0.content[4] == 61;
  }

  lemma {:induction false} KeyIs(key: Bytes, value: Bytes)
    requires 61 !in key
    ensures KeyOf(key + [61] + value) == key
  {
    if key == [] {
      assert (key + [61] + value)[0] == 61;
    } else {
      assert (key + [61] + value)[1..] == key[1..] + [61] + value;
      KeyIs(key[1..], value);
    }
  }

  lemma SizeKeys()
    ensures KeyOf(SIZE512.content) == KeyOf(SIZE0.content) == SIZE_KEY
  {
    hide KeyOf;
    KeyIs(SIZE_KEY, [53, 49, 50]);
    KeyIs(SIZE_KEY, [48]);
    assert SIZE512.content == SIZE_KEY + [61] + [53, 49, 50];
    assert SIZE0.content == SIZE_KEY + [61] + [48];
  }

  lemma FooKey()
    ensures KeyOf(FOO.content) == [102, 111, 111]
  {
    hide KeyOf;
    KeyIs([102, 111, 111], [98, 97, 114, 50]);
    assert FOO.content == [102, 111, 111] + [61] + [98, 97, 114, 50];
  }

  lemma KeysAre()
    ensures KeyOf(SIZE512.content) == KeyOf(SIZE0.content) == SIZE_KEY && KeyOf(FOO.content) == [102, 111, 111]
    ensures OverridesLayout(SIZE512.content) && OverridesLayout(SIZE0.content) && !OverridesLayout(FOO.content)
  {
    hide KeyOf;
    SizeKeys();
    FooKey();
  }

  lemma ValuesAre()
    ensures ValueOf(SIZE512.content) == 512 && ValueOf(SIZE0.content) == 0
  {
    KeysAre();
    hide KeyOf;
    assert SIZE512.content[5..] == [53, 49, 50] && SIZE0.content[5..] == [48];
    assert [53, 49, 50][..2] == [53, 49] && [48][..0] == [];
    TwoDigits(53, 49);
  }

  /** A record, and then whatever the blocks go on with. */
  lemma TakenFirst(s: Bytes, pos: nat, r: Record, rest: Bytes)
    requires SelfDelimited(r) && 61 in r.content && KeyOf(r.content) != [] && pos <= |s| && s[pos..] == Encode(r) + rest
    ensures pos + |Encode(r)| <= |s| && s[pos + |Encode(r)|..] == rest
    ensures TarfileRecords(s, pos) == Prepended(r, TarfileRecords(s, pos + |Encode(r)|))
  {
    hide SelfDelimited, KeyOf, TarfileRecords, Encode;
    Suffix(s, pos, Encode(r), rest);
    assert s[pos..pos + |Encode(r)|] == s[pos..][..|Encode(r)|] == Encode(r);
    RecordTaken(s, pos, r);
  }

  lemma NulEnds(s: Bytes, pos: nat)
    requires pos < |s| && s[pos] == 0
    ensures TarfileRecords(s, pos) == Some([])
  {
  }

  function HiddenRecord(): (b: Bytes)
    ensures |b| == 512
  {
    RecordsAre();
    Encode(SIZE512) + Zeros(500)
  }

  /** "foo=bar2", and `size=0` in the padding. */
  function PaddedRecord(): (b: Bytes)
    ensures |b| == 512
  {
    RecordsAre();
    Encode(FOO) + (Encode(SIZE0) + Zeros(490))
  }

  lemma BlocksTaken()
    ensures TarfileRecords(HiddenRecord(), 0) == Some([SIZE512])
    ensures TarfileRecords(PaddedRecord(), 0) == Some([FOO, SIZE0])
  {
    RecordsAre();
    KeysAre();
    hide Encode, KeyOf, TarfileRecords, SelfDelimited;
    var a, b := HiddenRecord(), PaddedRecord();
    assert a[0..] == a && b[0..] == b;
    TakenFirst(a, 0, SIZE512, Zeros(500));
    assert a[12] == a[12..][0] == 0;
    NulEnds(a, 12);
    assert [SIZE512] + [] == [SIZE512];
    TakenFirst(b, 0, FOO, Encode(SIZE0) + Zeros(490));
    TakenFirst(b, 12, SIZE0, Zeros(490));
    assert b[22] == b[22..][0] == 0;
    NulEnds(b, 22);
    assert [SIZE0] + [] == [SIZE0] && [FOO] + [SIZE0] == [FOO, SIZE0];
  }

  // ----- an archive whose hidden headers part the two readers -----

  /** The "body" of the directory: a pax header with `size=512`, and two empty files. */
  function HiddenBody(): (b: Bytes)
    ensures |b| == 2048
  {
    Pax() + (HiddenRecord() + (EmptyFile() + EmptyFile()))
  }

  function Parting(): (s: Bytes)
    ensures |s| == 3072
  {
    BigDirectory() + HiddenBody() + Zeros(512)
  }

  /** The guard accepts the archive as one entry; the reader that honours the record and the one that ignores it find
      different headers in it. */
  lemma ReadersPart(limit: nat)
    requires limit >= 3072
    ensures Accepted(limit, Parting()) && IsArchive(limit, Parting(), [Entry(BigDirectory(), HiddenBody())], 1)
    ensures HeaderOffsets(Tarfile(true), Parting(), 0, NOTHING) == [0, 512, 1536]
    ensures HeaderOffsets(Tarfile(false), Parting(), 0, NOTHING) == [0, 512, 1536, 2048]
  {
    hide AllZero, TarfileSize, DeclaredSize, BigDirectory, HiddenBody, Accepted, HeaderOffsets;
    BigDirectoryReads();
    OneEntry(limit, Entry(BigDirectory(), HiddenBody()), Parting());
    HiddenSteps(true);
    HiddenSteps(false);
  }

  lemma HiddenSteps(honours: bool)
    ensures HeaderOffsets(Tarfile(honours), Parting(), 0, NOTHING)
            == [0, 512, 1536] + if honours then [] else [2048]
  {
    hide HeaderOffsets, AllZero, BigDirectory, Pax, EmptyFile, HiddenRecord, TarfileRecords, TarfileSize, DeclaredSize;
    hide Clean, TouchesLayout, SizeLayout, StoresNothing;
    var r, s, p := Tarfile(honours), Parting(), Pending([[SIZE512]], []);
    var files := EmptyFile() + (EmptyFile() + Zeros(512));
    assert s[0..] == BigDirectory() + (Pax() + (HiddenRecord() + files));
    BigDirectoryReads();
    DirectoriesStoreNothing(BigDirectory());
    NothingTouches();
    MemberTurn(r, NOTHING, s, 0, BigDirectory(), Pax() + (HiddenRecord() + files), 2048);
    Suffix(s, 0, BigDirectory(), Pax() + (HiddenRecord() + files));
    PaxReads();
    BlocksTaken();
    PaxHeaderTurn(r, NOTHING, s, 512, Pax(), HiddenRecord(), files, 12, [SIZE512]);
    TakeFirst([SIZE512]);
    Suffix(s, 512, Pax(), HiddenRecord() + files);
    Suffix(s, 1024, HiddenRecord(), files);
    FilesBehind(honours, s, 1536, files);
  }

  lemma TakeFirst(rs: seq<Record>)
    ensures Take(NOTHING, 120, rs) == Pending([rs], [])
  {
    assert NOTHING.global + rs == rs && NOTHING.local + [rs] == [rs];
  }

  lemma TarfileSizes(honours: bool)
    ensures Tarfile(honours).sizes == TarfileSize && Tarfile(honours).honours == honours
  {
  }

  /** What a waiting size does to an empty or full file. */
  lemma WaitingFile(honours: bool, p: Pending, h: Bytes, rest: Bytes, size: nat)
    requires |h| == 512 && TarfileSize(h) == Some(size) && !StoresNothing(h)
    ensures var waiting := WaitingSize(p.local);
      Tarfile(honours).layout(p, h + rest) == Some(RoundUp(if waiting.Some? then waiting.value else size))
  {
    hide TarfileSize, StoresNothing, WaitingSize, RoundUp;
    assert (h + rest)[..512] == h;
  }

  /** A file's header with these records waiting and others not. */
  lemma FileTurn(honours: bool, p: Pending, s: Bytes, off: nat, h: Bytes, rest: Bytes, size: nat)
    requires |h| == 512 && TarfileSize(h) == Some(size) && !StoresNothing(h) && !AllZero(h) && !IsMetadata(Kind(h))
    requires off <= |s| && s[off..] == h + rest && (WaitingSize(p.local).Some? || Clean(p))
    ensures var skipped := if honours && !Clean(p) then WaitingSize(p.local).value else size;
      HeaderOffsets(Tarfile(honours), s, off, p)
      == [off] + HeaderOffsets(Tarfile(honours), s, off + 512 + RoundUp(skipped), p.(local := []))
  {
    hide HeaderOffsets, AllZero, TarfileSize, Clean, StoresNothing, WaitingSize, Tarfile, RoundUp;
    TarfileSizes(honours);
    WaitingFile(honours, p, h, rest, size);
    MemberTurn(Tarfile(honours), p, s, off, h, rest, size);
  }

  lemma DirectoriesStoreNothing(h: Bytes)
    requires |h| == 512 && Kind(h) == 53
    ensures StoresNothing(h)
  {
  }

  lemma WaitingUnclean(rs: seq<Record>, k: nat)
    requires k < |rs| && OverridesLayout(rs[k].content)
    ensures !Clean(Pending([rs], []))
  {
    assert TouchesLayout(Pending([rs], []).local[0]);
  }

  /** Two empty files and the end, with `size=512` waiting for the first. */
  lemma FilesBehind(honours: bool, s: Bytes, off: nat, files: Bytes)
    requires off <= |s| && s[off..] == files && files == EmptyFile() + (EmptyFile() + Zeros(512))
    ensures HeaderOffsets(Tarfile(honours), s, off, Pending([[SIZE512]], []))
            == [off] + if honours then [] else [off + 512]
  {
    hide *;
    var p := Pending([[SIZE512]], []);
    EmptyFileReads();
    FilesStore(EmptyFile());
    Unclean512();
    NothingTouches();
    PayloadFits();
    NothingIs(p);
    FileTurn(honours, p, s, off, EmptyFile(), EmptyFile() + Zeros(512), 0);
    Suffix(s, off, EmptyFile(), EmptyFile() + Zeros(512));
    FileTurn(honours, NOTHING, s, off + 512, EmptyFile(), Zeros(512), 0);
    Suffix(s, off + 512, EmptyFile(), Zeros(512));
    ZeroTurn(Tarfile(honours), NOTHING, s, off + 1024);
  }

  lemma NothingIs(p: Pending)
    requires p.global == []
    ensures p.(local := []) == NOTHING && NOTHING.(local := []) == NOTHING
  {
  }

  lemma FilesStore(h: Bytes)
    requires |h| == 512 && Kind(h) == 48
    ensures !StoresNothing(h) && !IsMetadata(Kind(h))
  {
  }

  lemma Unclean512()
    ensures !Clean(Pending([[SIZE512]], [])) && WaitingSize([[SIZE512]]) == Some(512)
  {
    KeysAre();
    WaitingUnclean([SIZE512], 0);
    Waiting512();
  }

  lemma Waiting512()
    ensures WaitingSize([[SIZE512]]) == Some(512)
  {
    KeysAre();
    ValuesAre();
    hide KeyOf, ValueOf;
  }

  // ----- an archive that parts them through the padding of a pax header -----

  /** A pax header, a file of 512 bytes and nothing misread: the file's body is a header. */
  function Padded(): seq<Entry> { [Entry(Pax(), PaddedRecord()), Entry(File(), EmptyFile())] }

  lemma PaddedEntriesOk()
    ensures EntryOk(Entry(Pax(), PaddedRecord())) && EntryOk(Entry(File(), EmptyFile()))
  {
    hide AllZero, DeclaredSize, Pax, File, EmptyFile, TarfileSize, PaddedRecord, PaxOk;
    PaxReads();
    FileReads();
    FooOk();
    PayloadFits();
  }

  lemma PaddedOk()
    ensures AllOk(Padded()) && |Rest(Padded(), 1)| == 2560
    ensures Rest(Padded(), 1) == Pax() + (PaddedRecord() + (File() + (EmptyFile() + Zeros(512))))
  {
    hide EntryOk, Pax, File, EmptyFile, PaddedRecord, Rest;
    PaddedEntriesOk();
    TwoRest(Padded());
    Reassociate(Pax(), PaddedRecord(), File(), EmptyFile(), Zeros(512));
  }

  lemma TwoRest(es: seq<Entry>)
    requires |es| == 2
    ensures Rest(es, 1) == (es[0].header + es[0].body) + ((es[1].header + es[1].body) + Zeros(512))
  {
    hide Rest;
    RestHead(es, 1);
    RestHead(es[1..], 1);
    RestNone(es[1..][1..]);
  }

  lemma RestNone(es: seq<Entry>)
    requires es == []
    ensures Rest(es, 1) == Zeros(512)
  {
  }

  lemma Reassociate(a: Bytes, b: Bytes, c: Bytes, d: Bytes, e: Bytes)
    ensures (a + b) + ((c + d) + e) == a + (b + (c + (d + e)))
  {
    assert (c + d) + e == c + (d + e);
  }

  lemma PayloadFits()
    ensures RoundUp(12) == RoundUp(512) == 512 && RoundUp(0) == 0
  {
  }

  lemma FooOk()
    ensures PaxOk(PaddedRecord()[..12])
  {
    RecordsAre();
    KeysAre();
    hide Encode, KeyOf, SelfDelimited, OverridesLayout;
    var s := PaddedRecord()[..12];
    assert s == Encode(FOO);
    assert EncodeAll([FOO]) == Encode(FOO) + EncodeAll([FOO][1..]) == Encode(FOO) + [] == s;
    assert s[0..] == s;
    ParseComplete(s, 0, [FOO]);
  }

  /** The guard accepts the archive, and no entry of it is misread. The reader that ignores layout records finds the
      guard's headers; the one that honours them takes `size=0` from the padding and finds the header hidden in the
      file. */
  lemma PaddingParts(limit: nat)
    requires limit >= 2560
    ensures var es, s := Padded(), Rest(Padded(), 1);
      && Accepted(limit, s) && IsArchive(limit, s, es, 1) && EntryOffsets(es, 0) == [0, 1024]
      && !Misread(es[0]) && !Misread(es[1])
      && HeaderOffsets(Tarfile(false), s, 0, NOTHING) == [0, 1024]
      && HeaderOffsets(Tarfile(true), s, 0, NOTHING) == [0, 1024, 1536]
  {
    hide *;
    PaddedOk();
    PaddedArchive(limit);
    ArchiveAccepted(limit, Rest(Padded(), 1), Padded());
    PaddedOffsets();
    PaddedSteps(true);
    PaddedSteps(false);
    assert [0, 1024] + [] == [0, 1024] && [0, 1024] + [1536] == [0, 1024, 1536];
  }

  lemma ArchiveAccepted(limit: nat, s: Bytes, es: seq<Entry>)
    requires IsArchive(limit, s, es, 1)
    ensures Accepted(limit, s)
  {
    hide Accepted, IsArchive;
    AcceptsExactlyArchives(limit, s);
  }

  lemma PaddedArchive(limit: nat)
    requires limit >= 2560
    ensures IsArchive(limit, Rest(Padded(), 1), Padded(), 1)
  {
    hide Rest, EntryOk, DeclaredSize, AllZero, TarfileSize, Pax, File, EmptyFile, PaddedRecord, IsArchive;
    PaddedOk();
    PaxReads();
    FileReads();
    TwoEntries(limit, Padded());
  }

  lemma PaddedOffsets()
    ensures EntryOffsets(Padded(), 0) == [0, 1024] && !Misread(Padded()[0]) && !Misread(Padded()[1])
  {
    hide EntryOffsets, NulFirst, StoresNothing, AllZero, TarfileSize, DeclaredSize;
    hide Pax, File, EmptyFile, PaddedRecord;
    FileReads();
    PaxSizeField();
    TwoOffsets(Padded());
  }

  lemma TwoOffsets(es: seq<Entry>)
    requires |es| == 2 && |es[0].body| == 512
    ensures EntryOffsets(es, 0) == [0, 1024]
  {
    EntryStep(es, 0);
    EntryStep(es[1..], 1024);
  }

  lemma PaxSizeField()
    ensures !NulFirst(Pax()[124..136]) && !StoresNothing(Pax())
  {
    hide AllZero, TarfileSize, DeclaredSize, Pax, NulFirst;
    PaxReads();
    NoNulFirst(Pax(), 12);
  }

  lemma TwoEntries(limit: nat, es: seq<Entry>)
    requires |es| == 2 && AllOk(es) && !IsRootEntry(es[0]) && !IsRootEntry(es[1]) && |Rest(es, 1)| <= limit
    ensures IsArchive(limit, Rest(es, 1), es, 1)
  {
    hide EntryOk, IsRootEntry, Serialize;
  }

  lemma PaddedSteps(honours: bool)
    ensures HeaderOffsets(Tarfile(honours), Rest(Padded(), 1), 0, NOTHING) == [0, 1024] + if honours then [1536] else []
  {
    PaddedOk();
    hide Rest, HeaderOffsets, AllZero, Pax, File, EmptyFile, PaddedRecord, TarfileRecords, TarfileSize, DeclaredSize;
    hide Clean, StoresNothing, WaitingSize;
    var r, s, p := Tarfile(honours), Rest(Padded(), 1), Pending([[FOO, SIZE0]], []);
    var hidden := EmptyFile() + Zeros(512);
    assert s[0..] == s;
    PaxReads();
    BlocksTaken();
    PaxHeaderTurn(r, NOTHING, s, 0, Pax(), PaddedRecord(), File() + hidden, 12, [FOO, SIZE0]);
    TakeFirst([FOO, SIZE0]);
    Suffix(s, 0, Pax(), PaddedRecord() + (File() + hidden));
    Suffix(s, 512, PaddedRecord(), File() + hidden);
    FileBehind(honours, s, 1024, hidden);
  }

  /** The file, its hidden header and the end, with `size=0` waiting. */
  lemma FileBehind(honours: bool, s: Bytes, off: nat, hidden: Bytes)
    requires off <= |s| && s[off..] == File() + hidden && hidden == EmptyFile() + Zeros(512)
    ensures HeaderOffsets(Tarfile(honours), s, off, Pending([[FOO, SIZE0]], []))
            == [off] + if honours then [off + 512] else []
  {
    hide *;
    var p := Pending([[FOO, SIZE0]], []);
    EmptyFileReads();
    FileReads();
    FilesStore(EmptyFile());
    FilesStore(File());
    Unclean0();
    NothingTouches();
    PayloadFits();
    NothingIs(p);
    FileTurn(honours, p, s, off, File(), hidden, 512);
    Suffix(s, off, File(), hidden);
    FileTurn(honours, NOTHING, s, off + 512, EmptyFile(), Zeros(512), 0);
    Suffix(s, off + 512, EmptyFile(), Zeros(512));
    ZeroTurn(Tarfile(honours), NOTHING, s, off + 1024);
  }

  lemma Unclean0()
    ensures !Clean(Pending([[FOO, SIZE0]], [])) && WaitingSize([[FOO, SIZE0]]) == Some(0)
  {
    KeysAre();
    WaitingUnclean([FOO, SIZE0], 1);
    Waiting0();
  }

  lemma Waiting0()
    ensures WaitingSize([[FOO, SIZE0]]) == Some(0)
  {
    KeysAre();
    ValuesAre();
    hide KeyOf, ValueOf;
  }
}
