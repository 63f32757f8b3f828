/** The incremental tar guard: what one byte does to its fields, and what any run of bytes does. */
module TarGuard {
  import opened Options
  import opened TarFormat

  datatype Guard = Guard(total: nat, header: Bytes, body: nat, count: nat, ended: bool, rootSeen: bool,
                         metadata: Option<Bytes>, metadataLeft: nat)

  const INITIAL := Guard(0, [], 0, 0, false, false, None, 0)

  /** A complete 512-byte block. */
  function ReadHeader(g: Guard, h: Bytes): Option<Guard>
    requires |h| == 512
  {
    if AllZero(h) then Some(g.(header := [], ended := true))
    else if g.ended || g.count >= HEADER_LIMIT || (IsRoot(h) && g.rootSeen) || !HeaderOk(h) then None
    else
      var size := DeclaredSize(h).value;
      var pax := IsPax(Kind(h)) && size > 0;
      Some(g.(header := [], count := g.count + 1, rootSeen := g.rootSeen || IsRoot(h), body := RoundUp(size),
              metadata := if pax then Some([]) else g.metadata,
              metadataLeft := if pax then size else g.metadataLeft))
  }

  /** Body bytes reach the metadata only up to the declared size; the rest is padding. */
  function TakeBody(g: Guard, data: Bytes): Guard
    requires |data| <= g.body
  {
    var taken := if g.metadata.None? then 0 else if g.metadataLeft <= |data| then g.metadataLeft else |data|;
    g.(total := g.total + |data|, body := g.body - |data|, metadataLeft := g.metadataLeft - taken,
       metadata := if g.metadata.None? then None else Some(g.metadata.value + data[..taken]))
  }

  /** At the end of a body the collected metadata must be a harmless pax payload. */
  function EndBody(g: Guard): Option<Guard> {
    if g.body > 0 || g.metadata.None? then Some(g)
    else if PaxOk(g.metadata.value) then Some(g.(metadata := None)) else None
  }

  function PushByte(limit: nat, g: Guard, b: Byte): Option<Guard>
    requires |g.header| < 512
  {
    if g.total >= limit then None
    else if g.body > 0 then EndBody(TakeBody(g, [b]))
    else if |g.header| < 511 then Some(g.(total := g.total + 1, header := g.header + [b]))
    else ReadHeader(g.(total := g.total + 1), g.header + [b])
  }

  predicate Sound(g: Guard) { |g.header| < 512 && (g.metadata.Some? ==> g.body > 0) }

  lemma PushSound(limit: nat, g: Guard, b: Byte)
    requires Sound(g) && PushByte(limit, g, b).Some?
    ensures Sound(PushByte(limit, g, b).value) && PushByte(limit, g, b).value.total == g.total + 1 <= limit
  {
    if |g.header| == 511 && HeaderOk(g.header + [b]) { RoundUpBounds(DeclaredSize(g.header + [b]).value); }
  }

  /** The guard after `data`, byte by byte; `None` is a refusal. */
  function PushAll(limit: nat, g: Guard, data: Bytes): (r: Option<Guard>)
    requires Sound(g)
    ensures r.Some? ==> Sound(r.value) && r.value.total == g.total + |data| && (data != [] ==> r.value.total <= limit)
    decreases |data|
  {
    if data == [] then Some(g)
    else if PushByte(limit, g, data[0]).None? then None
    else
      PushSound(limit, g, data[0]);
      PushAll(limit, PushByte(limit, g, data[0]).value, data[1..])
  }

  function PushMore(limit: nat, o: Option<Guard>, data: Bytes): Option<Guard>
    requires o.Some? ==> Sound(o.value)
  {
    if o.None? then None else PushAll(limit, o.value, data)
  }

  /** Where a stream is cut does not matter. */
  lemma {:induction false} PushConcat(limit: nat, g: Guard, a: Bytes, b: Bytes)
    requires Sound(g)
    ensures PushAll(limit, g, a + b) == PushMore(limit, PushAll(limit, g, a), b)
    decreases |a|
  {
    hide PushByte;
    if a == [] {
      assert a + b == b;
    } else {
      assert (a + b)[0] == a[0] && (a + b)[1..] == a[1..] + b;
      if PushByte(limit, g, a[0]).Some? {
        PushSound(limit, g, a[0]);
        PushConcat(limit, PushByte(limit, g, a[0]).value, a[1..], b);
      }
    }
  }

  function Concat(chunks: seq<Bytes>): Bytes { if chunks == [] then [] else chunks[0] + Concat(chunks[1..]) }

  /** `guard` called once per chunk. */
  function PushChunks(limit: nat, g: Guard, chunks: seq<Bytes>): Option<Guard>
    requires Sound(g)
    decreases |chunks|
  {
    if chunks == [] then Some(g)
    else if PushAll(limit, g, chunks[0]).None? then None
    else PushChunks(limit, PushAll(limit, g, chunks[0]).value, chunks[1..])
  }

  /** Verdict and end state depend on the bytes alone, never on how they were cut. */
  lemma {:induction false} ChunkingIsIrrelevant(limit: nat, g: Guard, chunks: seq<Bytes>)
    requires Sound(g)
    ensures PushChunks(limit, g, chunks) == PushAll(limit, g, Concat(chunks))
    decreases |chunks|
  {
    if chunks != [] {
      PushConcat(limit, g, chunks[0], Concat(chunks[1..]));
      var o := PushAll(limit, g, chunks[0]);
      if o.Some? { ChunkingIsIrrelevant(limit, o.value, chunks[1..]); }
    }
  }

  // ----- runs of bytes inside one body or one header -----

  lemma TakeMore(g: Guard, a: Bytes, b: Bytes)
    requires |a| + |b| <= g.body
    ensures TakeBody(TakeBody(g, a), b) == TakeBody(g, a + b)
  {
    if g.metadata.Some? {
      var k, k' := TakeBody(g, a), TakeBody(g, a + b);
      assert TakeBody(k, b).metadata.value == k'.metadata.value;
    }
  }

  /** Body bytes taken at once are the same bytes taken one by one. */
  lemma {:induction false} PushBody(limit: nat, g: Guard, data: Bytes)
    requires Sound(g) && 0 < |data| <= g.body && g.total + |data| <= limit
    ensures PushAll(limit, g, data) == EndBody(TakeBody(g, data))
    decreases |data|
  {
    if |data| == 1 {
      assert data == [data[0]] && data[1..] == [];
    } else {
      var g' := TakeBody(g, [data[0]]);
      assert PushByte(limit, g, data[0]) == Some(g');
      PushBody(limit, g', data[1..]);
      TakeMore(g, [data[0]], data[1..]);
      assert [data[0]] + data[1..] == data;
    }
  }

  /** So are header bytes. */
  lemma {:induction false} PushHeader(limit: nat, g: Guard, data: Bytes)
    requires Sound(g) && g.body == 0 && 0 < |data| && |g.header| + |data| <= 512 && g.total + |data| <= limit
    ensures PushAll(limit, g, data) ==
      if |g.header| + |data| < 512 then Some(g.(total := g.total + |data|, header := g.header + data))
      else ReadHeader(g.(total := g.total + |data|), g.header + data)
    decreases |data|
  {
    hide ReadHeader;
    if |data| == 1 {
      assert data == [data[0]] && data[1..] == [];
    } else {
      var g' := g.(total := g.total + 1, header := g.header + [data[0]]);
      assert PushByte(limit, g, data[0]) == Some(g');
      PushHeader(limit, g', data[1..]);
      assert g.header + [data[0]] + data[1..] == g.header + data;
      if |g.header| + |data| == 512 {
        ReadHeaderDropsHeader(g'.(total := g'.total + |data[1..]|), g.(total := g.total + |data|), g.header + data);
      }
    }
  }

  lemma ReadHeaderDropsHeader(g: Guard, g': Guard, h: Bytes)
    requires |h| == 512 && g.(header := []) == g'.(header := [])
    ensures ReadHeader(g, h) == ReadHeader(g', h)
  {
  }

  /** One more piece of a chunk; a refused piece refuses the whole chunk. */
  lemma NextStep(limit: nat, g: Guard, data: Bytes, i: nat, j: nat)
    requires Sound(g) && i <= j <= |data|
    ensures PushAll(limit, g, data[..j]) == PushMore(limit, PushAll(limit, g, data[..i]), data[i..j])
    ensures PushAll(limit, g, data[..j]).None? ==> PushAll(limit, g, data).None?
  {
    hide PushAll;
    assert data[..j] == data[..i] + data[i..j] && data == data[..j] + data[j..];
    PushConcat(limit, g, data[..i], data[i..j]);
    PushConcat(limit, g, data[..j], data[j..]);
  }

  lemma PushNothing(limit: nat, g: Guard)
    requires Sound(g)
    ensures PushAll(limit, g, []) == Some(g)
  {
  }

  lemma PushOverLimit(limit: nat, g: Guard, data: Bytes)
    requires Sound(g) && g.total <= limit < g.total + |data|
    ensures PushAll(limit, g, data).None?
  {
  }

  /** Body and header are both complete and an end-of-archive block was seen. */
  predicate Finished(g: Guard) { g.header == [] && g.body == 0 && g.ended }
}
