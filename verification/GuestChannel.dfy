/** The monitor connection: lines cut from a stream of chunks, and requests answered by id.

    Source: scripts/navigation-linux-handoff-guest-probe.py, the nested functions `receive` and `request`. */
module GuestChannel {
  import opened Options

  const LINE_BYTES: nat := 16384
  const CHUNK_BYTES: nat := 4096
  const MESSAGES: nat := 128
  const REPLIES: nat := 8

  /** What `recv` gives: a chunk, or no data in time. No further arrival means the peer closed the connection. */
  datatype Arrival = Chunk(bytes: string) | Timeout

  /** A parsed line. `dict` is false for JSON that is no object; the other fields are then unused. */
  datatype Item = Item(dict: bool, event: bool, id: Option<string>, error: bool, answer: Option<string>)

  datatype Received =
    | Message(item: Item) | Closed | TailIncomplete | FrameBudget | FrameOrTimeBudget | SessionDeadline | TimedOut
    | NotJson | MessageBudget

  datatype Reply =
    | Returned(answer: string) | Missing | Unaddressed | Budget | DeadlineBeforeSend | Failed(why: Received)

  // ----- lines of a stream -----

  predicate NoNewline(s: string) {
    forall k :: 0 <= k < |s| ==> s[k] != '\n'
  }

  function Bytes(arrivals: seq<Arrival>): string {
    if arrivals == [] then ""
    else (if arrivals[0].Chunk? then arrivals[0].bytes else "") + Bytes(arrivals[1..])
  }

  /** The lines with their newlines. */
  function Joined(lines: seq<string>): string {
    if lines == [] then "" else Joined(lines[..|lines| - 1]) + lines[|lines| - 1] + "\n"
  }

  /** What comes before the first newline: everything when there is none. */
  function FirstLine(s: string): (line: string)
    ensures NoNewline(line) && |line| <= |s| && line == s[..|line|]
    ensures |line| < |s| ==> s[|line|] == '\n'
  {
    if s == "" || s[0] == '\n' then "" else [s[0]] + FirstLine(s[1..])
  }

  lemma {:induction false} FirstLineIs(line: string, s: string)
    requires NoNewline(line) && |line| <= |s| && line == s[..|line|] && (|line| < |s| ==> s[|line|] == '\n')
    ensures FirstLine(s) == line
  {
    if line != "" {
      FirstLineIs(line[1..], s[1..]);
    }
  }

  /** `lines` are the first lines of the stream, each ended by a newline, and `rest` is what follows them. */
  predicate Splits(lines: seq<string>, rest: string, stream: string) {
    (forall k :: 0 <= k < |lines| ==> NoNewline(lines[k])) && Joined(lines) + rest == stream
  }

  lemma {:induction false} JoinedHead(lines: seq<string>)
    requires lines != []
    ensures Joined(lines) == lines[0] + "\n" + Joined(lines[1..])
  {
    if |lines| > 1 {
      var last := lines[|lines| - 1];
      JoinedHead(lines[..|lines| - 1]);
      assert lines[1..][..|lines| - 2] == lines[..|lines| - 1][1..];
      assert lines[1..][|lines| - 2] == last;
    } else {
      assert lines[..0] == [] && Joined(lines[..0]) == "" && Joined(lines[1..]) == "";
    }
  }

  lemma HeadLine(lines: seq<string>, rest: string, stream: string)
    requires Splits(lines, rest, stream) && lines != []
    ensures FirstLine(stream) == lines[0] && |lines[0]| < |stream|
    ensures Splits(lines[1..], rest, stream[|lines[0]| + 1..])
  {
    JoinedHead(lines);
    hide Joined, FirstLine;
    var head, tail := lines[0] + "\n", Joined(lines[1..]);
    Associative(head, tail, rest);
    CutLine(lines[0], tail + rest, stream);
  }

  lemma CutLine(line: string, tail: string, stream: string)
    requires NoNewline(line) && stream == line + "\n" + tail
    ensures FirstLine(stream) == line && |line| < |stream| && stream[|line| + 1..] == tail
  {
    FirstLineIs(line, stream);
  }

  /** Two ways of cutting whole lines off one stream agree as far as both go: the lines depend on the bytes alone,
      not on the chunks they came in. */
  lemma {:induction false} SameLines(a: seq<string>, restA: string, b: seq<string>, restB: string, stream: string)
    requires Splits(a, restA, stream) && Splits(b, restB, stream) && |a| <= |b|
    ensures a == b[..|a|]
  {
    if a != [] {
      HeadLine(a, restA, stream);
      HeadLine(b, restB, stream);
      hide Splits;
      SameLines(a[1..], restA, b[1..], restB, stream[|a[0]| + 1..]);
      assert a == [a[0]] + a[1..] && b == [b[0]] + b[1..];
    }
  }

  // ----- the connection -----

  /** `recv(4096)` gives at least one byte and at most 4096. */
  predicate Delivered(arrivals: seq<Arrival>) {
    forall k :: 0 <= k < |arrivals| ==> arrivals[k].Chunk? ==> 0 < |arrivals[k].bytes| <= 4096
  }

  /** A buffer holds no more than one chunk beyond its first line, and an unfinished line fits the budget. */
  predicate Tame(buffer: string) {
    |buffer| - |FirstLine(buffer)| <= CHUNK_BYTES && (NoNewline(buffer) ==> |buffer| <= LINE_BYTES)
  }

  lemma TameGrows(buffer: string, chunk: string)
    requires Tame(buffer) && NoNewline(buffer) && |chunk| <= CHUNK_BYTES
    ensures Tame(buffer + chunk) || (NoNewline(buffer + chunk) && |buffer + chunk| > LINE_BYTES)
  {
    FirstLineIs(buffer + FirstLine(chunk), buffer + chunk);
  }

  lemma BytesStep(buffer: string, arrivals: seq<Arrival>)
    requires arrivals != []
    ensures arrivals[0].Chunk? ==> (buffer + arrivals[0].bytes) + Bytes(arrivals[1..]) == buffer + Bytes(arrivals)
    ensures arrivals[0].Timeout? ==> buffer + Bytes(arrivals[1..]) == buffer + Bytes(arrivals)
  {
    var later := Bytes(arrivals[1..]);
    assert arrivals[0].Timeout? ==> Bytes(arrivals) == "" + later;
    assert arrivals[0].Chunk? ==> Bytes(arrivals) == arrivals[0].bytes + later;
    hide Bytes;
    assert "" + later == later;
    if arrivals[0].Chunk? {
      Associative(buffer, arrivals[0].bytes, later);
    }
  }

  lemma Associative(a: string, b: string, c: string)
    ensures a + b + c == a + (b + c)
  {
  }

  lemma NothingAhead(buffer: string, arrivals: seq<Arrival>)
    requires arrivals == [] && NoNewline(buffer) && Tame(buffer)
    ensures buffer + Bytes(arrivals) == buffer && |buffer| <= LINE_BYTES
  {
  }

  lemma LongLine(buffer: string, rest: string)
    requires NoNewline(buffer)
    ensures |FirstLine(buffer + rest)| >= |buffer|
  {
    FirstLineIs(buffer + FirstLine(rest), buffer + rest);
  }

  /** Splitting at the first newline of the buffer moves one whole line of the stream over. */
  lemma CutBuffer(lines: seq<string>, buffer: string, rest: string, stream: string)
    requires Tame(buffer) && !NoNewline(buffer) && Splits(lines, buffer + rest, stream)
    ensures var line := FirstLine(buffer);
      && |line| < |buffer| && FirstLine(buffer + rest) == line
      && Tame(buffer[|line| + 1..]) && Splits(lines + [line], buffer[|line| + 1..] + rest, stream)
  {
    var line := FirstLine(buffer);
    FirstLineIs(line, buffer + rest);
    var tail := buffer[|line| + 1..];
    assert |tail| < CHUNK_BYTES;
    assert buffer + rest == line + "\n" + (tail + rest);
    assert (lines + [line])[..|lines|] == lines;
    Associative(Joined(lines), line + "\n", tail + rest);
    assert Joined(lines) + (line + "\n") == Joined(lines) + line + "\n";
  }

  // ----- what a result says about the bytes ahead -----

  /** The first line ahead has its newline and fits the budget. */
  predicate Whole(ahead: string) {
    |FirstLine(ahead)| < |ahead| && |FirstLine(ahead)| <= 16384
  }

  function AfterLine(ahead: string): string
    requires Whole(ahead)
  {
    ahead[|FirstLine(ahead)| + 1..]
  }

  /** The peer falls silent before the line is whole. */
  predicate Waits(buffer: string, arrivals: seq<Arrival>)
    decreases |arrivals|
  {
    NoNewline(buffer) && arrivals != []
    && (arrivals[0].Timeout? || Waits(buffer + arrivals[0].bytes, arrivals[1..]))
  }

  lemma DeliveredStep(arrivals: seq<Arrival>)
    requires Delivered(arrivals) && arrivals != []
    ensures Delivered(arrivals[1..]) && (arrivals[0].Chunk? ==> 0 < |arrivals[0].bytes| <= CHUNK_BYTES)
  {
  }

  lemma WaitsStep(buffer: string, arrivals: seq<Arrival>)
    requires NoNewline(buffer) && arrivals != []
    ensures Waits(buffer, arrivals)
            == (arrivals[0].Timeout? || Waits(buffer + arrivals[0].bytes, arrivals[1..]))
  {
  }

  lemma NeverWaits(buffer: string, arrivals: seq<Arrival>)
    requires !NoNewline(buffer)
    ensures !Waits(buffer, arrivals)
  {
  }

  /** What each failure says: `held` messages are there already, `tardy` when a look at the clock found the deadline
      passed, `silent` when a timeout counts and one came. */
  predicate Refuses(parse: string -> Option<Item>, why: Received, ahead: string, held: nat, tardy: bool, silent: bool) {
    match why
    case Closed => ahead == ""
    case TailIncomplete => ahead != "" && NoNewline(ahead) && |ahead| <= 16384
    case FrameBudget => |FirstLine(ahead)| > 16384
    case FrameOrTimeBudget => |FirstLine(ahead)| > 16384 || tardy
    case SessionDeadline => tardy
    case TimedOut => silent
    case NotJson => Whole(ahead) && parse(FirstLine(ahead)) == None
    case MessageBudget =>
      Whole(ahead) && parse(FirstLine(ahead)).Some? && (held == 128 || !parse(FirstLine(ahead)).value.dict)
    case Message(_) => false
  }

  lemma AnyHeld(parse: string -> Option<Item>, why: Received, ahead: string, held: nat, tardy: bool, silent: bool)
    requires why in {Closed, TailIncomplete, FrameBudget, SessionDeadline, TimedOut}
    requires Refuses(parse, why, ahead, 0, tardy, silent)
    ensures Refuses(parse, why, ahead, held, tardy, silent)
  {
    hide FirstLine;
  }

  /** The reasons that a line cut off the stream gives. */
  lemma LineReason(parse: string -> Option<Item>, why: Received, ahead: string, held: nat, tardy: bool, silent: bool)
    requires |FirstLine(ahead)| < |ahead|
    requires
      || (why == FrameOrTimeBudget && (|FirstLine(ahead)| > 16384 || tardy))
      || (why == NotJson && |FirstLine(ahead)| <= 16384 && parse(FirstLine(ahead)) == None)
      || (why == MessageBudget && |FirstLine(ahead)| <= 16384 && parse(FirstLine(ahead)).Some?
          && (held == 128 || !parse(FirstLine(ahead)).value.dict))
    ensures Refuses(parse, why, ahead, held, tardy, silent)
  {
    hide FirstLine;
  }

  /** The first lines ahead are these messages, and `rest` is what follows them. */
  predicate Reads(parse: string -> Option<Item>, ahead: string, items: seq<Item>, rest: string)
    decreases |items|
  {
    if items == [] then rest == ahead
    else Whole(ahead) && parse(FirstLine(ahead)) == Some(items[0]) && items[0].dict
         && Reads(parse, AfterLine(ahead), items[1..], rest)
  }

  lemma {:induction false} ReadsMore(parse: string -> Option<Item>, ahead: string, items: seq<Item>, rest: string,
                                     item: Item)
    requires Reads(parse, ahead, items, rest)
    requires Whole(rest) && parse(FirstLine(rest)) == Some(item) && item.dict
    ensures Reads(parse, ahead, items + [item], AfterLine(rest))
    decreases |items|
  {
    if items == [] {
      assert ([] + [item])[1..] == [];
    } else {
      assert (items + [item])[1..] == items[1..] + [item];
      hide FirstLine, Whole;
      ReadsMore(parse, AfterLine(ahead), items[1..], rest, item);
    }
  }

  /** How a request ends, by what follows the events it skipped. */
  predicate Ends(parse: string -> Option<Item>, r: Reply, skipped: nat, last: Item, rest: string, ident: string,
                 held: nat, tardy: bool)
  {
    match r
    case Returned(answer) =>
      && skipped < 8 && Whole(rest) && parse(FirstLine(rest)) == Some(last) && last.dict
      && !last.event && last.id == Some(ident) && !last.error && last.answer == Some(answer)
    case Unaddressed =>
      && skipped < 8 && Whole(rest) && parse(FirstLine(rest)) == Some(last) && last.dict
      && !last.event && (last.id != Some(ident) || last.error || last.answer == None)
    case Missing => skipped < 8 && rest == ""
    case Budget => skipped == 8
    case DeadlineBeforeSend => false
    case Failed(why) =>
      skipped < 8 && why != Closed && Refuses(parse, why, rest, held + skipped, tardy, false)
  }

  /** An answer to the request: no event, no error, its own id. */
  predicate Answers(item: Item, ident: string) {
    !item.event && item.id == Some(ident) && !item.error && item.answer.Some?
  }

  /** At most seven events and then the answer stand ahead, within the message budget. */
  ghost predicate Expected(parse: string -> Option<Item>, ahead: string, events: seq<Item>, answer: Item, after: string,
                           ident: string, held: nat)
  {
    && Reads(parse, ahead, events + [answer], after) && (forall k :: 0 <= k < |events| ==> events[k].event)
    && |events| < 8 && held + |events| < 128 && Answers(answer, ident)
  }

  /** Skipping no more and no fewer messages than the events ahead, a request that is not late ends with the answer that
      stands behind them. */
  lemma {:induction false} AnswerForced(parse: string -> Option<Item>, ahead: string, skipped: seq<Item>, rest: string,
                                        r: Reply, last: Item, ident: string, held: nat, n: nat, events: seq<Item>,
                                        answer: Item, after: string)
    requires Reads(parse, ahead, skipped, rest) && (forall k :: 0 <= k < |skipped| ==> skipped[k].event)
    requires Ends(parse, r, n + |skipped|, last, rest, ident, held, false)
    requires Reads(parse, ahead, events + [answer], after) && (forall k :: 0 <= k < |events| ==> events[k].event)
    requires n + |events| < 8 && held + n + |events| < 128 && Answers(answer, ident)
    ensures r == Returned(answer.answer.value) && skipped == events && last == answer
    decreases |skipped|
  {
    hide FirstLine;
    if skipped == [] {
      assert parse(FirstLine(rest)) == Some((events + [answer])[0]);
    } else if events != [] {
      assert (events + [answer])[1..] == events[1..] + [answer];
      AnswerForced(parse, AfterLine(ahead), skipped[1..], rest, r, last, ident, held, n + 1, events[1..], answer,
                   after);
    }
  }

  class Channel {
    const parse: string -> Option<Item>
    const late: nat -> bool       // whether the session deadline has passed at the c-th look at the clock
    var incoming: seq<Arrival>
    var buffer: string
    var messages: seq<Item>
    var looks: nat
    ghost var lines: seq<string>  // the lines whose messages were delivered
    ghost const stream: string    // every byte the peer ever sends

    /** What is still ahead of the reader: the buffer and the bytes to come. */
    ghost function Ahead(): string
      reads this
    {
      buffer + Bytes(incoming)
    }

    ghost predicate Consistent()
      reads this
    {
      && Splits(lines, Ahead(), stream) && Delivered(incoming)
      && |messages| == |lines| <= MESSAGES
      && forall k :: 0 <= k < |lines|
          ==> |lines[k]| <= LINE_BYTES && parse(lines[k]) == Some(messages[k]) && messages[k].dict
    }

    /** Between two calls. */
    ghost predicate Valid()
      reads this
    {
      Consistent() && Tame(buffer)
    }

    constructor (parse: string -> Option<Item>, late: nat -> bool, incoming: seq<Arrival>)
      requires Delivered(incoming)
      ensures Valid() && stream == Bytes(incoming) && messages == [] && this.incoming == incoming
    {
      this.parse, this.late, this.incoming := parse, late, incoming;
      buffer, messages, looks, lines, stream := "", [], 0, [], Bytes(incoming);
    }

    /** One of the looks from lo up to hi found the deadline passed. */
    ghost predicate LateBetween(lo: nat, hi: nat) {
      exists c :: lo <= c < hi && late(c)
    }

    /** One look at the clock. */
    method Late() returns (r: bool)
      modifies this`looks
      ensures r == late(old(looks)) && looks == old(looks) + 1
    {
      r := late(looks);
      looks := looks + 1;
    }

    /** The receiving loop: read until the buffer holds a whole line. */
    method Fill(retry: bool) returns (failure: Option<Received>)
      requires Valid()
      modifies this`looks, this`incoming, this`buffer
      ensures Consistent() && Ahead() == old(Ahead()) && old(looks) <= looks
      ensures failure == None ==> Tame(buffer) && !NoNewline(buffer) && (!retry ==> !Waits(old(buffer), old(incoming)))
      ensures failure != Some(SessionDeadline) ==> !LateBetween(old(looks), looks)
      ensures failure == None ==> looks - old(looks) == |old(incoming)| - |incoming|
      ensures failure.Some? ==>
        && failure.value in {Closed, TailIncomplete, FrameBudget, SessionDeadline, TimedOut}
        && Refuses(parse, failure.value, Ahead(), 0, LateBetween(old(looks), looks),
                   !retry && Waits(old(buffer), old(incoming)))
    {
      hide Splits, Bytes, Tame, FirstLine, Waits, Whole, Delivered;
      while '\n' !in buffer
        invariant Consistent() && Ahead() == old(Ahead()) && Tame(buffer) && old(looks) <= looks
        invariant !retry ==> Waits(buffer, incoming) == Waits(old(buffer), old(incoming))
        invariant !LateBetween(old(looks), looks) && looks - old(looks) == |old(incoming)| - |incoming|
        decreases |incoming|
      {
        var late := Late();
        if late {
          return Some(SessionDeadline);
        }
        if incoming == [] {
          NothingAhead(buffer, incoming);
          return if buffer != "" then Some(TailIncomplete) else Some(Closed);
        }
        var arrival := incoming[0];
        BytesStep(buffer, incoming);
        WaitsStep(buffer, incoming);
        DeliveredStep(incoming);
        incoming := incoming[1..];
        if arrival.Timeout? {
          if !retry {
            return Some(TimedOut);
          }
        } else {
          TameGrows(buffer, arrival.bytes);
          buffer := buffer + arrival.bytes;
          if |buffer| > LINE_BYTES && '\n' !in buffer {
            LongLine(buffer, Bytes(incoming));
            return Some(FrameBudget);
          }
        }
      }
      NeverWaits(buffer, incoming);
      return None;
    }

    /** One message: the next line of the stream, whatever chunks it came in. Every failure says why in terms of the
        bytes ahead and of this call's looks at the clock, and a message is delivered only when none of them holds. */
    method Receive(retry: bool) returns (r: Received)
      requires Valid()
      modifies this
      ensures old(looks) <= looks && (r !in {SessionDeadline, FrameOrTimeBudget} ==> !LateBetween(old(looks), looks))
      ensures r in {Closed, TailIncomplete, FrameBudget, SessionDeadline, TimedOut} ==> Ahead() == old(Ahead())
      ensures r.Message? ==> looks - old(looks) == |old(incoming)| - |incoming| + 1
      ensures r.Message? ==>
        && Valid() && messages == old(messages) + [r.item] && lines == old(lines) + [FirstLine(old(Ahead()))]
        && |old(messages)| < 128 && Reads(parse, old(Ahead()), [r.item], Ahead())
        && (!retry ==> !Waits(old(buffer), old(incoming)))
      ensures !r.Message? ==>
        && messages == old(messages)
        && Refuses(parse, r, old(Ahead()), |old(messages)|, LateBetween(old(looks), looks),
                   !retry && Waits(old(buffer), old(incoming)))
    {
      hide Splits, Bytes, Tame, Waits, Refuses, FirstLine, Reads, Delivered;
      ghost var ahead, held, silent := Ahead(), |messages|, !retry && Waits(buffer, incoming);
      var failure := Fill(retry);
      if failure.Some? {
        AnyHeld(parse, failure.value, ahead, held, LateBetween(old(looks), looks), silent);
        return failure.value;
      }
      var line := FirstLine(buffer);
      CutBuffer(lines, buffer, Bytes(incoming), stream);
      BufferLine(buffer, Bytes(incoming), ahead);
      buffer := buffer[|line| + 1..];
      if |line| > LINE_BYTES {
        LineReason(parse, FrameOrTimeBudget, ahead, held, LateBetween(old(looks), looks), silent);
        return FrameOrTimeBudget;
      }
      var late := Late();
      if late {
        LineReason(parse, FrameOrTimeBudget, ahead, held, LateBetween(old(looks), looks), silent);
        return FrameOrTimeBudget;
      }
      var item := parse(line);
      if item == None {
        LineReason(parse, NotJson, ahead, held, LateBetween(old(looks), looks), silent);
        return NotJson;
      }
      if !item.value.dict || |messages| >= MESSAGES {
        LineReason(parse, MessageBudget, ahead, held, LateBetween(old(looks), looks), silent);
        return MessageBudget;
      }
      messages := messages + [item.value];
      lines := lines + [line];
      OneRead(parse, ahead, item.value, Ahead());
      return Message(item.value);
    }

    /** The loop that waits for the answer: each result says how the bytes ahead go on behind the events skipped. */
    method Await(ident: string) returns (r: Reply, ghost skipped: seq<Item>, ghost last: Item, ghost rest: string)
      requires Valid()
      modifies this
      ensures old(looks) <= looks && forall k :: 0 <= k < |skipped| ==> skipped[k].event
      ensures Reads(parse, old(Ahead()), skipped, rest)
      ensures Ends(parse, r, |skipped|, last, rest, ident, |old(messages)|, LateBetween(old(looks), looks))
      ensures r.Returned? || r == Unaddressed || r == Budget ==>
        !LateBetween(old(looks), looks)
        && looks - old(looks) == |old(incoming)| - |incoming| + |skipped| + if r == Budget then 0 else 1
      ensures messages == old(messages) + skipped + if r.Returned? || r == Unaddressed then [last] else []
      ensures r.Returned? || r == Unaddressed || r == Budget ==> Valid()
    {
      hide Splits, Bytes, Tame, FirstLine, Delivered, Waits;
      ghost var ahead := Ahead();
      skipped, last, rest := [], Item(false, false, None, false, None), ahead;
      for n := 0 to REPLIES
        invariant Valid() && |skipped| == n && rest == Ahead() && old(looks) <= looks
        invariant Reads(parse, ahead, skipped, rest)
        invariant forall k :: 0 <= k < |skipped| ==> skipped[k].event
        invariant messages == old(messages) + skipped
        invariant !LateBetween(old(looks), looks) && looks - old(looks) == |old(incoming)| - |incoming| + |skipped|
      {
        hide Reads, Whole;
        var received := Receive(true);
        if received == Closed {
          return Missing, skipped, last, rest;
        }
        if !received.Message? {
          return Failed(received), skipped, last, rest;
        }
        var item := received.item;
        OneReadIs(parse, rest, item, Ahead());
        last := item;
        if item.event {
          ReadsMore(parse, ahead, skipped, rest, item);
          skipped, rest := skipped + [item], Ahead();
        } else if item.id != Some(ident) || item.error || item.answer == None {
          return Unaddressed, skipped, last, rest;
        } else {
          return Returned(item.answer.value), skipped, last, rest;
        }
      }
      r := Budget;
    }

    /** The answer with the request's own id behind at most seven events, and otherwise the reason why not. Where such
        an answer stands ahead and no look at the clock is late, it is returned. */
    method Request(ident: string) returns (r: Reply, ghost skipped: seq<Item>, ghost last: Item, ghost rest: string)
      requires Valid()
      modifies this
      ensures r == DeadlineBeforeSend <==> late(old(looks))
      ensures forall k :: 0 <= k < |skipped| ==> skipped[k].event
      ensures !late(old(looks)) ==>
        && Reads(parse, old(Ahead()), skipped, rest)
        && Ends(parse, r, |skipped|, last, rest, ident, |old(messages)|, LateBetween(old(looks), looks))
      ensures messages == old(messages) + skipped + if r.Returned? || r == Unaddressed then [last] else []
      ensures r.Returned? || r == Unaddressed || r == Budget ==> Valid() && !LateBetween(old(looks), looks)
      ensures forall events, answer, after ::
        Expected(parse, old(Ahead()), events, answer, after, ident, |old(messages)|)
        && (forall c :: c >= old(looks) ==> !late(c))
        ==> r == Returned(answer.answer.value) && skipped == events && last == answer
    {
      hide Splits, Bytes, Tame, FirstLine, Delivered, Reads, Refuses;
      ghost var ahead, held := Ahead(), |messages|;
      r, skipped, last, rest := DeadlineBeforeSend, [], Item(false, false, None, false, None), ahead;
      var late := Late();
      if late {
        return;
      }
      r, skipped, last, rest := Await(ident);
      forall events, answer, after | Expected(parse, ahead, events, answer, after, ident, held)
                                     && forall c :: c >= old(looks) ==> !this.late(c)
        ensures r == Returned(answer.answer.value) && skipped == events && last == answer
      {
        AnswerForced(parse, ahead, skipped, rest, r, last, ident, held, 0, events, answer, after);
      }
    }
  }

  lemma OneReadIs(parse: string -> Option<Item>, ahead: string, item: Item, rest: string)
    requires Reads(parse, ahead, [item], rest)
    ensures Whole(ahead) && parse(FirstLine(ahead)) == Some(item) && item.dict && rest == AfterLine(ahead)
  {
    hide FirstLine;
    assert [item][1..] == [];
  }

  lemma BufferLine(buffer: string, later: string, ahead: string)
    requires ahead == buffer + later && |FirstLine(buffer)| < |buffer|
    requires FirstLine(buffer + later) == FirstLine(buffer)
    ensures |FirstLine(ahead)| < |ahead| && ahead[|FirstLine(ahead)| + 1..] == buffer[|FirstLine(buffer)| + 1..] + later
  {
  }

  lemma OneRead(parse: string -> Option<Item>, ahead: string, item: Item, rest: string)
    requires Whole(ahead) && parse(FirstLine(ahead)) == Some(item) && item.dict && rest == AfterLine(ahead)
    ensures Reads(parse, ahead, [item], rest)
  {
    hide FirstLine;
    assert [item][1..] == [];
  }
}
