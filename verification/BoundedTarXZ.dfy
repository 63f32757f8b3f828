/** `BoundedTarXZ` of scripts/navigation-linux-vendor-manifest.py: the object whose fields `guard`, `read`
    and `finish` update. */
module BoundedTar {
  import opened Options
  import opened TarFormat
  import opened TarGrammar
  import opened TarBytes
  import opened TarGuard

  /** What the XZ decoder does next: some decoded bytes (perhaps none), or a cut-off input. */
  datatype DecoderEvent = Output(data: Bytes) | Truncated

  /** Everything the decoder still has to say. */
  function Remaining(events: seq<DecoderEvent>): Option<Bytes> {
    if events == [] then Some([])
    else if events[0].Truncated? || Remaining(events[1..]).None? then None
    else Some(events[0].data + Remaining(events[1..]).value)
  }

  function OutputSize(events: seq<DecoderEvent>): nat {
    if events == [] then 0 else (if events[0].Output? then |events[0].data| else 0) + OutputSize(events[1..])
  }

  class BoundedTarXZ {
    const limit: nat
    /** Bytes are left in the compressed member after the XZ stream ended. */
    const trailing: bool
    var events: seq<DecoderEvent>
    var total: nat
    var buffer: Bytes
    var header: Bytes
    var body: nat
    var count: nat
    var ended: bool
    var rootSeen: bool
    var metadata: Option<Bytes>
    var metadataLeft: nat
    ghost var guarded: Bytes
    ghost var delivered: Bytes

    ghost function State(): Guard
      reads this
    {
      Guard(total, header, body, count, ended, rootSeen, metadata, metadataLeft)
    }

    /** Every byte handed out or waiting in the buffer has passed the guard, in order. */
    ghost predicate Valid()
      reads this
    {
      && Sound(State()) && total <= limit
      && PushAll(limit, INITIAL, guarded) == Some(State())
      && delivered + buffer == guarded
    }

    constructor (limit: nat, events: seq<DecoderEvent>, trailing: bool)
      ensures Valid() && State() == INITIAL && guarded == [] && delivered == [] && buffer == []
      ensures this.limit == limit && this.events == events && this.trailing == trailing
    {
      this.limit, this.events, this.trailing := limit, events, trailing;
      total, buffer, header, body, count := 0, [], [], 0, 0;
      ended, rootSeen, metadata, metadataLeft := false, false, None, 0;
      guarded, delivered := [], [];
    }

    /** The header branch of `guard`, for one complete block. */
    method ReadBlock(h: Bytes, ghost g: Guard) returns (ok: bool)
      requires |h| == 512 && Sound(g) && g.body == 0 && State() == g.(header := [], total := total)
      modifies this`body, this`count, this`ended, this`rootSeen, this`metadata, this`metadataLeft
      ensures ok <==> ReadHeader(g, h).Some?
      ensures ok ==> State() == ReadHeader(g, h).value.(total := total)
    {
      if AllZero(h) { ended := true; return true; }
      if ended { return false; }
      count := count + 1;
      if count > HEADER_LIMIT { return false; }
      if IsRoot(h) {
        if rootSeen { return false; }
        rootSeen := true;
      }
      var field := StripRight(StripLeft(h[124..136]));
      if field == [] || !IsOctal(field) { return false; }
      var size := OctalValue(field);
      if !IsSupported(Kind(h)) || size > if IsMetadata(Kind(h)) then METADATA_LIMIT else PACKAGE_MAX_FILE_SIZE {
        return false;
      }
      body := RoundUp(size);
      if IsPax(Kind(h)) && size > 0 { metadata, metadataLeft := Some([]), size; }
      return true;
    }

    /** The body branch of `guard`, for as many bytes as this chunk holds. */
    method ReadBody(piece: Bytes, ghost g: Guard) returns (ok: bool)
      requires Sound(g) && 0 < |piece| <= g.body && State() == g.(total := total)
      modifies this`body, this`metadata, this`metadataLeft
      ensures ok <==> EndBody(TakeBody(g, piece)).Some?
      ensures ok ==> State() == EndBody(TakeBody(g, piece)).value.(total := total)
    {
      hide PaxOk, IsPaxPayload;
      if metadata.Some? {
        var taken := if metadataLeft < |piece| then metadataLeft else |piece|;
        metadata := Some(metadata.value + piece[..taken]);
        metadataLeft := metadataLeft - taken;
      }
      body := body - |piece|;
      if body == 0 && metadata.Some? {
        var valid := ValidatePax(metadata.value);
        if !valid { return false; }
        metadata := None;
      }
      return true;
    }

    /** `guard`: accepts or refuses `data` exactly as feeding it byte by byte would. */
    method GuardData(data: Bytes) returns (ok: bool)
      requires Sound(State()) && total <= limit
      modifies this`total, this`header, this`body, this`count, this`ended, this`rootSeen, this`metadata,
          this`metadataLeft
      ensures ok <==> PushAll(limit, old(State()), data).Some?
      ensures ok ==> Some(State()) == PushAll(limit, old(State()), data) && total <= limit
    {
      hide ReadHeader, EndBody, TakeBody, PushAll;
      ghost var start := State();
      total := total + |data|;
      if total > limit {
        PushOverLimit(limit, start, data);
        return false;
      }
      var cursor := 0;
      ghost var done: Guard := start;
      PushNothing(limit, start);
      while cursor < |data|
        invariant cursor <= |data| && Sound(done)
        invariant PushAll(limit, start, data[..cursor]) == Some(done)
        invariant State() == done.(total := total)
        invariant total == start.total + |data| <= limit && done.total == start.total + cursor
        decreases |data| - cursor
      {
        var left := if body > 0 then body else 512 - |header|;
        var step := if left < |data| - cursor then left else |data| - cursor;
        var piece := data[cursor..cursor + step];
        NextStep(limit, start, data, cursor, cursor + step);
        cursor := cursor + step;
        if body > 0 {
          PushBody(limit, done, piece);
          ok := ReadBody(piece, done);
          if !ok { return false; }
          done := EndBody(TakeBody(done, piece)).value;
          continue;
        }
        PushHeader(limit, done, piece);
        header := header + piece;
        done := done.(total := done.total + step);
        if |header| != 512 {
          done := done.(header := header);
          continue;
        }
        var block := header;
        header := [];
        ok := ReadBlock(block, done);
        if !ok { return false; }
        done := ReadHeader(done, block).value;
      }
      assert data[..cursor] == data;
      ok := true;
    }

    /** The rest of the member decodes completely and the guard accepts all of it. */
    ghost predicate StreamOk()
      reads this
      requires Sound(State())
    {
      Remaining(events).Some? && !trailing && PushAll(limit, State(), Remaining(events).value).Some?
    }

    /** One turn of `read`'s loop: decode, guard, then buffer. */
    method Refill() returns (ok: bool)
      requires Valid() && events != []
      modifies this
      ensures ok ==> Valid() && events == old(events[1..]) && delivered == old(delivered)
      ensures ok ==> StreamOk() == old(StreamOk()) && Remaining(events).Some? == old(Remaining(events)).Some?
      ensures ok && Remaining(events).Some?
          ==> guarded + Remaining(events).value == old(guarded + Remaining(events).value)
      ensures ok ==> |buffer| + OutputSize(events) == old(|buffer| + OutputSize(events))
      ensures old(StreamOk()) ==> ok
    {
      hide PushAll;
      if events[0].Truncated? { return false; }
      var decoded := events[0].data;
      ghost var rest := Remaining(events[1..]);
      if rest.Some? { PushConcat(limit, State(), decoded, rest.value); }
      PushConcat(limit, INITIAL, guarded, decoded);
      ok := GuardData(decoded);
      if !ok { return false; }
      events := events[1..];
      buffer := buffer + decoded;
      guarded := guarded + decoded;
    }

    /** `read`. Everything returned was guarded first; only the end of the stream makes it short. */
    method Read(size: int) returns (ok: bool, result: Bytes)
      requires Valid()
      modifies this
      ensures ok ==> Valid() && 0 <= size <= 0x10_0000 && delivered == old(delivered) + result
      ensures ok ==> |result| <= size && (|result| < size ==> events == [] && buffer == [])
      ensures ok ==> StreamOk() == old(StreamOk()) && (events == [] ==> !trailing)
      ensures ok ==> Remaining(events).Some? == old(Remaining(events)).Some?
      ensures ok && Remaining(events).Some?
          ==> guarded + Remaining(events).value == old(guarded + Remaining(events).value)
      ensures ok ==> |buffer| + OutputSize(events) + |result| == old(|buffer| + OutputSize(events))
      ensures 0 <= size <= 0x10_0000 && old(StreamOk()) ==> ok
    {
      hide PushAll, OutputSize;
      if !(0 <= size <= 0x10_0000) { return false, []; }
      while |buffer| < size && events != []
        invariant Valid() && delivered == old(delivered) && StreamOk() == old(StreamOk())
        invariant Remaining(events).Some? == old(Remaining(events)).Some?
        invariant Remaining(events).Some?
            ==> guarded + Remaining(events).value == old(guarded + Remaining(events).value)
        invariant |buffer| + OutputSize(events) == old(|buffer| + OutputSize(events))
        decreases |events|
      {
        ok := Refill();
        if !ok { return false, []; }
      }
      if events == [] && trailing { return false, []; }
      var n := if size < |buffer| then size else |buffer|;
      result := buffer[..n];
      buffer := buffer[n..];
      delivered := delivered + result;
      ok := true;
    }

    /** `finish`: drains the stream; accepts exactly when all of it is complete and guarded. */
    method Finish() returns (ok: bool)
      requires Valid()
      modifies this
      ensures ok <==> old(StreamOk()) && Finished(PushAll(limit, old(State()), old(Remaining(events)).value).value)
      ensures ok ==> Valid() && delivered == guarded == old(guarded + Remaining(events).value)
      ensures ok <==> old(Remaining(events)).Some? && !trailing
                      && exists es, z :: ArchiveInBytes(limit, old(guarded) + old(Remaining(events)).value, es, z)
    {
      hide PushAll, OutputSize, ArchiveInBytes;
      ghost var start, rest := State(), Remaining(events);
      if rest.Some? {
        PushConcat(limit, INITIAL, guarded, rest.value);
        AcceptsExactlyBytes(limit, guarded + rest.value);
      }
      var result: Bytes;
      ok, result := Read(65536);
      if !ok { return; }
      while result != []
        invariant Valid() && StreamOk() == old(StreamOk()) && (events == [] ==> !trailing)
        invariant Remaining(events).Some? == rest.Some?
        invariant rest.Some? ==> guarded + Remaining(events).value == old(guarded) + rest.value
        invariant result == [] ==> events == [] && buffer == []
        decreases |buffer| + OutputSize(events) + |result|
      {
        ok, result := Read(65536);
        if !ok { return; }
      }
      assert guarded + [] == guarded;
      PushNothing(limit, State());
      ok := header == [] && body == 0 && ended;
    }
  }
}
