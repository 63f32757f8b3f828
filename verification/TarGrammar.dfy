/** The block grammar the guard accepts, said without its fields. */
module TarGrammar {
  import opened Options
  import opened TarFormat
  import opened TarGuard

  /** A header with its body, padding included. Neither the checksum nor the padding is constrained. */
  datatype Entry = Entry(header: Bytes, body: Bytes)

  predicate EntryOk(e: Entry) {
    && |e.header| == 512 && !AllZero(e.header) && HeaderOk(e.header)
    && |e.body| == RoundUp(DeclaredSize(e.header).value)
    && BodyOk(e.header, e.body)
  }

  predicate BodyOk(h: Bytes, b: Bytes)
    requires |h| == 512 && HeaderOk(h) && |b| == RoundUp(DeclaredSize(h).value)
  {
    RoundUpBounds(DeclaredSize(h).value);
    IsPax(Kind(h)) && DeclaredSize(h).value > 0 ==> PaxOk(b[..DeclaredSize(h).value])
  }

  predicate IsRootEntry(e: Entry) { |e.header| == 512 && IsRoot(e.header) }

  function Serialize(es: seq<Entry>): Bytes {
    if es == [] then [] else es[0].header + es[0].body + Serialize(es[1..])
  }

  function Zeros(n: nat): Bytes { seq(n, _ => 0) }

  /** Entries that may follow `count` earlier ones. */
  ghost predicate EntriesOk(count: nat, rootSeen: bool, es: seq<Entry>) {
    && count + |es| <= HEADER_LIMIT
    && (forall i :: 0 <= i < |es| ==> EntryOk(es[i]))
    && (forall i :: 0 <= i < |es| && IsRootEntry(es[i]) ==> !rootSeen)
    && (forall i, j :: 0 <= i < j < |es| ==> !(IsRootEntry(es[i]) && IsRootEntry(es[j])))
  }

  ghost predicate IsArchive(limit: nat, s: Bytes, es: seq<Entry>, z: nat) {
    z >= 1 && s == Serialize(es) + Zeros(512 * z) && |s| <= limit && EntriesOk(0, false, es)
  }

  ghost predicate Accepted(limit: nat, s: Bytes) {
    PushAll(limit, INITIAL, s).Some? && Finished(PushAll(limit, INITIAL, s).value)
  }

  /** Between two blocks. */
  predicate At(g: Guard) { g.header == [] && g.body == 0 && g.metadata.None? && g.metadataLeft == 0 }

  function After(g: Guard, e: Entry): Guard {
    g.(total := g.total + |e.header| + |e.body|, count := g.count + 1, rootSeen := g.rootSeen || IsRootEntry(e))
  }

  lemma PushBlock(limit: nat, g: Guard, h: Bytes)
    requires At(g) && |h| == 512 && g.total + 512 <= limit
    ensures PushAll(limit, g, h) == ReadHeader(g.(total := g.total + 512), h)
  {
    PushHeader(limit, g, h);
    assert g.header + h == h;
  }

  lemma CountedBody(limit: nat, g: Guard, b: Bytes)
    requires Sound(g) && g.body == |b| && g.total + |b| <= limit
    ensures PushAll(limit, g, b) == EndBody(TakeBody(g, b))
  {
    if b != [] { PushBody(limit, g, b); } else { assert g.metadata.None?; }
  }

  lemma EntryResult(g: Guard, h: Bytes, b: Bytes)
    requires At(g) && !g.ended && g.count < HEADER_LIMIT && |h| == 512 && !(IsRoot(h) && g.rootSeen)
    requires !AllZero(h) && HeaderOk(h) && |b| == RoundUp(DeclaredSize(h).value)
    ensures var o := ReadHeader(g.(total := g.total + 512), h);
      && o.Some? && o.value.total == g.total + 512 && o.value.body == |b| && Sound(o.value)
      && EndBody(TakeBody(o.value, b)) == if BodyOk(h, b) then Some(After(g, Entry(h, b))) else None
  {
    hide AllZero, IsRoot, PaxOk;
    var size := DeclaredSize(h).value;
    RoundUpBounds(size);
    assert [] + b[..size] == b[..size];
  }

  /** One entry, from one block boundary to the next. */
  lemma PushEntry(limit: nat, g: Guard, h: Bytes, b: Bytes)
    requires At(g) && |h| == 512 && !AllZero(h) && HeaderOk(h) && |b| == RoundUp(DeclaredSize(h).value)
    requires g.total + 512 + |b| <= limit
    ensures PushAll(limit, g, h + b) ==
      if g.ended || g.count >= HEADER_LIMIT || (IsRoot(h) && g.rootSeen) || !BodyOk(h, b) then None
      else Some(After(g, Entry(h, b)))
  {
    hide PushAll, AllZero, IsRoot, HeaderOk, BodyOk, EndBody, TakeBody;
    PushConcat(limit, g, h, b);
    PushBlock(limit, g, h);
    if !g.ended && g.count < HEADER_LIMIT && !(IsRoot(h) && g.rootSeen) {
      EntryResult(g, h, b);
      CountedBody(limit, ReadHeader(g.(total := g.total + 512), h).value, b);
    }
  }

  lemma ZerosSplit(z: nat)
    requires z > 0
    ensures Zeros(512 * z)[..512] == Zeros(512) && Zeros(512 * z)[512..] == Zeros(512 * (z - 1))
    ensures Zeros(512 * z) == Zeros(512) + Zeros(512 * (z - 1))
  {
  }

  lemma {:induction false} PushZeros(limit: nat, g: Guard, z: nat)
    requires At(g) && z >= 1 && g.total + 512 * z <= limit
    ensures PushAll(limit, g, Zeros(512 * z)) == Some(g.(total := g.total + 512 * z, ended := true))
    decreases z
  {
    hide PushAll;
    ZerosSplit(z);
    PushConcat(limit, g, Zeros(512), Zeros(512 * (z - 1)));
    PushBlock(limit, g, Zeros(512));
    var g' := g.(total := g.total + 512, ended := true);
    if z == 1 {
      assert Zeros(512 * (z - 1)) == [];
      PushNothing(limit, g');
    } else {
      PushZeros(limit, g', z - 1);
    }
  }

  lemma EntriesTail(g: Guard, es: seq<Entry>)
    requires es != [] && EntriesOk(g.count, g.rootSeen, es)
    ensures EntryOk(es[0]) && g.count < HEADER_LIMIT && !(IsRootEntry(es[0]) && g.rootSeen)
    ensures EntriesOk(After(g, es[0]).count, After(g, es[0]).rootSeen, es[1..])
  {
    assert es == [es[0]] + es[1..];
  }

  lemma EntriesHead(g: Guard, e: Entry, es: seq<Entry>)
    requires EntryOk(e) && g.count < HEADER_LIMIT && !(IsRootEntry(e) && g.rootSeen)
    requires EntriesOk(After(g, e).count, After(g, e).rootSeen, es)
    ensures EntriesOk(g.count, g.rootSeen, [e] + es)
  {
  }

  /** Every archive in the grammar is accepted. */
  lemma {:induction false} GrammarAccepted(limit: nat, g: Guard, es: seq<Entry>, z: nat)
    requires At(g) && !g.ended && z >= 1 && EntriesOk(g.count, g.rootSeen, es)
    requires g.total + |Serialize(es)| + 512 * z <= limit
    ensures PushAll(limit, g, Serialize(es) + Zeros(512 * z)).Some?
    ensures Finished(PushAll(limit, g, Serialize(es) + Zeros(512 * z)).value)
    decreases |es|
  {
    var tail := Zeros(512 * z);
    if es == [] {
      assert Serialize(es) + tail == tail;
      PushZeros(limit, g, z);
    } else {
      var e := es[0];
      EntriesTail(g, es);
      assert Serialize(es) + tail == (e.header + e.body) + (Serialize(es[1..]) + tail);
      PushConcat(limit, g, e.header + e.body, Serialize(es[1..]) + tail);
      PushEntry(limit, g, e.header, e.body);
      GrammarAccepted(limit, After(g, e), es[1..], z);
    }
  }

  /** After an end block only zero blocks are left. */
  lemma {:induction false} ParseZeros(limit: nat, g: Guard, s: Bytes) returns (z: nat)
    requires At(g) && g.ended && g.total + |s| <= limit
    requires PushAll(limit, g, s).Some? && Finished(PushAll(limit, g, s).value)
    ensures s == Zeros(512 * z)
    decreases |s|
  {
    if s == [] { return 0; }
    var h := FirstBlock(limit, g, s);
    assert h == Zeros(512);
    var rest := ParseZeros(limit, g.(total := g.total + 512), s[512..]);
    z := rest + 1;
    ZerosSplit(z);
    assert s == h + s[512..];
  }

  /** A stream that ends at a boundary and is not empty has a whole first block. */
  lemma FirstBlock(limit: nat, g: Guard, s: Bytes) returns (h: Bytes)
    requires At(g) && s != [] && g.total + |s| <= limit
    requires PushAll(limit, g, s).Some? && Finished(PushAll(limit, g, s).value)
    ensures |s| >= 512 && h == s[..512] && s == h + s[512..]
    ensures ReadHeader(g.(total := g.total + 512), h).Some?
    ensures PushAll(limit, g, s) == PushAll(limit, ReadHeader(g.(total := g.total + 512), h).value, s[512..])
    ensures AllZero(h) || !g.ended
  {
    hide PushAll;
    if |s| < 512 { PushHeader(limit, g, s); }
    h := s[..512];
    assert s == h + s[512..];
    PushConcat(limit, g, h, s[512..]);
    PushBlock(limit, g, h);
  }

  /** Every accepted stream is in the grammar. */
  lemma {:induction false} AcceptedParses(limit: nat, g: Guard, s: Bytes) returns (es: seq<Entry>, z: nat)
    requires At(g) && !g.ended && g.total + |s| <= limit && g.count <= HEADER_LIMIT
    requires PushAll(limit, g, s).Some? && Finished(PushAll(limit, g, s).value)
    ensures z >= 1 && s == Serialize(es) + Zeros(512 * z) && EntriesOk(g.count, g.rootSeen, es)
    decreases |s|
  {
    hide PushAll, PaxOk, HeaderOk, IsRoot;
    if s == [] { PushNothing(limit, g); }
    var h := FirstBlock(limit, g, s);
    if AllZero(h) {
      var rest := ParseZeros(limit, g.(total := g.total + 512, ended := true), s[512..]);
      es, z := [], rest + 1;
      ZerosSplit(z);
      assert h == Zeros(512) && s == Serialize([]) + Zeros(512 * z);
    } else {
      var n := WholeBody(limit, g, s);
      var b := s[512..512 + n];
      var e, tail := Entry(h, b), s[512 + n..];
      assert s == (h + b) + tail;
      PushConcat(limit, g, h + b, tail);
      PushEntry(limit, g, h, b);
      var more;
      more, z := AcceptedParses(limit, After(g, e), tail);
      EntriesHead(g, e, more);
      es := [e] + more;
      assert es[1..] == more;
      assert s == Serialize(es) + Zeros(512 * z);
    }
  }

  /** The whole body of the first entry is there. */
  lemma WholeBody(limit: nat, g: Guard, s: Bytes) returns (n: nat)
    requires At(g) && !g.ended && g.total + |s| <= limit && |s| >= 512 && !AllZero(s[..512])
    requires PushAll(limit, g, s).Some? && Finished(PushAll(limit, g, s).value)
    ensures HeaderOk(s[..512]) && n == RoundUp(DeclaredSize(s[..512]).value) && 512 + n <= |s|
  {
    hide PushAll;
    var h := FirstBlock(limit, g, s);
    n := RoundUp(DeclaredSize(h).value);
    RoundUpBounds(DeclaredSize(h).value);
    var g1, rest := ReadHeader(g.(total := g.total + 512), h).value, s[512..];
    if |rest| < n {
      if rest == [] { PushNothing(limit, g1); } else { PushBody(limit, g1, rest); }
      assert false;
    }
  }

  /** `guard` followed by `finish` accepts exactly the grammar, whatever the cuts. */
  lemma AcceptsExactlyArchives(limit: nat, s: Bytes)
    ensures Accepted(limit, s) <==> exists es, z :: IsArchive(limit, s, es, z)
  {
    if Accepted(limit, s) {
      if s == [] { PushNothing(limit, INITIAL); }
      var es, z := AcceptedParses(limit, INITIAL, s);
      assert IsArchive(limit, s, es, z);
    }
    if exists es, z :: IsArchive(limit, s, es, z) {
      var es, z :| IsArchive(limit, s, es, z);
      GrammarAccepted(limit, INITIAL, es, z);
    }
  }
}
