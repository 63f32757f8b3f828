/** The stdout drain thread of class `Owned` in scripts/opencode-platform-clock-prequalification.py and the
    consumer of its queue, one atomic step at a time, in every interleaving. */
module OwnedDrain {
  type Bytes = seq<nat>

  const FRAME_BYTES: nat := 16384
  const QUEUE_LINES: nat := 16
  const NEWLINE: nat := 10

  /** What a thread is started with: the bytes it may keep, and whether it cuts lines, as it does on the stdout of
      an interactive child only. */
  datatype Pipe = Pipe(cap: nat, splits: bool)

  /** Where the drain thread stands. `Holding` has read a block, `Putting` has cut a line off `pending`,
      `Failing` is about to run the exception handler. */
  datatype Phase =
    | Reading | Holding(block: Bytes) | Splitting | Putting(line: Bytes) | Failing(lost: Bytes) | Ended(eof: bool)

  /** `output` is all the child's output read so far and `emitted` every line ever queued; the program keeps
      neither. */
  datatype State = State(phase: Phase, output: Bytes, buffer: Bytes, pending: Bytes, queue: seq<Bytes>,
                         emitted: seq<Bytes>, taken: seq<Bytes>, overflow: bool, pipeError: bool)

  const START := State(Reading, [], [], [], [], [], [], false, false)

  datatype Step =
    | Read(block: Bytes)   // `os.read` returned a block, empty at end of file
    | Break                // `os.read` raised
    | Decide               // keep the block or drop it
    | Cut                  // cut the next line off, or go back to reading
    | Put                  // `put_nowait`
    | Fail                 // the exception handler
    | Take                 // the consumer's `get`

  function IndexOfNewline(s: Bytes): (i: nat)
    ensures i <= |s| && (i < |s| ==> s[i] == 10) && forall j :: 0 <= j < i ==> s[j] != 10
  {
    if s == [] || s[0] == NEWLINE then 0 else 1 + IndexOfNewline(s[1..])
  }

  function Drained(pipe: Pipe, s: State, step: Step): State {
    match (s.phase, step)
    case (Reading, Read(block)) =>
      if block == [] then s.(phase := Ended(true), pipeError := s.pipeError || s.pending != [])
      else if |block| <= 512 then s.(phase := Holding(block), output := s.output + block)
      else s
    case (Reading, Break) => s.(phase := Failing([]))
    case (Holding(block), Decide) =>
      if |s.buffer| + |block| > pipe.cap then s.(phase := Reading, overflow := true)
      else
        var pending := s.pending + block;
        if !pipe.splits then s.(buffer := s.buffer + block, phase := Reading)
        else
          s.(buffer := s.buffer + block, pending := pending,
             phase := if |pending| > FRAME_BYTES then Failing([]) else Splitting)
    case (Splitting, Cut) =>
      var at := IndexOfNewline(s.pending);
      if at == |s.pending| then s.(phase := Reading)
      else s.(phase := Putting(s.pending[..at + 1]), pending := s.pending[at + 1..])
    case (Putting(line), Put) =>
      if |s.queue| >= QUEUE_LINES then s.(phase := Failing(line))
      else s.(phase := Splitting, queue := s.queue + [line], emitted := s.emitted + [line])
    case (Failing(_), Fail) => s.(phase := Ended(false), pipeError := true)
    case _ => s
  }

  function Apply(pipe: Pipe, s: State, step: Step): State {
    if step == Take then
      if s.queue == [] then s else s.(queue := s.queue[1..], taken := s.taken + [s.queue[0]])
    else Drained(pipe, s, step)
  }

  function After(pipe: Pipe, run: seq<Step>, i: nat): State
    requires i <= |run|
  {
    if i == 0 then START else Apply(pipe, After(pipe, run, i - 1), run[i - 1])
  }

  // ----- the lines of an output, on their own -----

  function Concat(lines: seq<Bytes>): Bytes { if lines == [] then [] else lines[0] + Concat(lines[1..]) }

  /** The newline-terminated lines of a byte stream; a last line without newline is not one. */
  function Lines(s: Bytes): seq<Bytes>
    decreases |s|
  {
    var at := IndexOfNewline(s);
    if at == |s| then [] else [s[..at + 1]] + Lines(s[at + 1..])
  }

  ghost predicate IsLine(line: Bytes) {
    line != [] && line[|line| - 1] == 10 && forall i :: 0 <= i < |line| - 1 ==> line[i] != 10
  }

  lemma {:induction false} ConcatAppend(lines: seq<Bytes>, line: Bytes)
    ensures Concat(lines + [line]) == Concat(lines) + line
  {
    if lines == [] {
      assert Concat([line]) == line + Concat([]);
    } else {
      assert (lines + [line])[1..] == lines[1..] + [line];
      ConcatAppend(lines[1..], line);
    }
  }

  lemma LinesFront(line: Bytes, rest: Bytes)
    requires IsLine(line)
    ensures Lines(line + rest) == [line] + Lines(rest)
  {
    var s := line + rest;
    assert forall i :: 0 <= i < |line| ==> s[i] == line[i];
    assert IndexOfNewline(s) == |line| - 1;
    assert s[..|line|] == line && s[|line|..] == rest;
  }

  /** Whole lines in front of anything are its first lines. */
  lemma {:induction false} LinesOfConcat(lines: seq<Bytes>, rest: Bytes)
    requires forall i :: 0 <= i < |lines| ==> IsLine(lines[i])
    ensures |Lines(Concat(lines) + rest)| >= |lines| && Lines(Concat(lines) + rest)[..|lines|] == lines
  {
    if lines != [] {
      var line, tail := lines[0], Concat(lines[1..]) + rest;
      assert Concat(lines) + rest == line + tail;
      LinesFront(line, tail);
      hide Lines, IsLine;
      LinesOfConcat(lines[1..], rest);
      assert ([line] + Lines(tail))[..|lines|] == [line] + Lines(tail)[..|lines| - 1];
    }
  }

  // ----- what holds in every reachable state -----

  /** Bytes the thread holds outside `pending`. */
  function Held(p: Phase): Bytes {
    match p
    case Putting(line) => line
    case Failing(lost) => lost
    case _ => []
  }

  function Unstored(p: Phase): Bytes { if p.Holding? then p.block else [] }

  /** Until a block is dropped nothing is missing anywhere; after a failure nothing more is queued. */
  ghost predicate Inv(pipe: Pipe, s: State) {
    && s.taken + s.queue == s.emitted
    && (!pipe.splits ==> s.emitted == [] && s.pending == [] && !s.phase.Splitting? && !s.phase.Putting?)
    && (s.pipeError ==> s.phase.Ended?)
    && (forall i :: 0 <= i < |s.emitted| ==> IsLine(s.emitted[i]))
    && (s.phase.Putting? ==> IsLine(s.phase.line))
    && (s.phase.Ended? && !s.phase.eof ==> s.pipeError)
    && (s.phase.Ended? && !s.pipeError ==> s.pending == [])
    && (!s.overflow ==> s.output == s.buffer + Unstored(s.phase))
    && (!s.overflow ==> Concat(s.emitted) <= s.buffer)
    && (pipe.splits && !s.overflow && !(s.phase.Ended? && !s.phase.eof)
        ==> s.buffer == Concat(s.emitted) + Held(s.phase) + s.pending)
  }

  lemma PutKeeps(pipe: Pipe, s: State)
    requires Inv(pipe, s) && s.phase.Putting?
    ensures Inv(pipe, Drained(pipe, s, Put))
  {
    hide IsLine, Concat;
    var line := s.phase.line;
    ConcatAppend(s.emitted, line);
    assert s.taken + (s.queue + [line]) == s.emitted + [line];
  }

  lemma CutKeeps(pipe: Pipe, s: State)
    requires Inv(pipe, s) && s.phase.Splitting?
    ensures Inv(pipe, Drained(pipe, s, Cut))
  {
    hide Concat, IsLine, IndexOfNewline;
    CutLine(s.pending);
  }

  lemma CutLine(pending: Bytes)
    ensures var at := IndexOfNewline(pending);
      at < |pending| ==> IsLine(pending[..at + 1]) && pending == pending[..at + 1] + pending[at + 1..]
  {
  }

  lemma DecideKeeps(pipe: Pipe, s: State)
    requires Inv(pipe, s) && s.phase.Holding?
    ensures Inv(pipe, Drained(pipe, s, Decide))
  {
    hide IsLine, Concat;
    var block := s.phase.block;
    if !s.overflow && pipe.splits {
      assert s.buffer + block == Concat(s.emitted) + [] + (s.pending + block);
      assert Concat(s.emitted) <= s.buffer + block;
    }
  }

  lemma ReadKeeps(pipe: Pipe, s: State, block: Bytes)
    requires Inv(pipe, s) && s.phase.Reading?
    ensures Inv(pipe, Drained(pipe, s, Read(block)))
  {
    hide IsLine, Concat;
  }

  lemma FailKeeps(pipe: Pipe, s: State)
    requires Inv(pipe, s) && s.phase.Failing?
    ensures Inv(pipe, Drained(pipe, s, Fail))
  {
    hide IsLine, Concat;
  }

  lemma BreakKeeps(pipe: Pipe, s: State)
    requires Inv(pipe, s) && s.phase.Reading?
    ensures Inv(pipe, Drained(pipe, s, Break))
  {
    hide IsLine, Concat;
  }

  lemma DrainKeeps(pipe: Pipe, s: State, step: Step)
    requires Inv(pipe, s)
    ensures Inv(pipe, Drained(pipe, s, step))
  {
    hide Inv;
    match (s.phase, step)
    case (Reading, Read(block)) => ReadKeeps(pipe, s, block);
    case (Putting(line), Put) => PutKeeps(pipe, s);
    case (Splitting, Cut) => CutKeeps(pipe, s);
    case (Holding(block), Decide) => DecideKeeps(pipe, s);
    case (Failing(_), Fail) => FailKeeps(pipe, s);
    case (Reading, Break) => BreakKeeps(pipe, s);
    case _ =>
  }

  lemma ApplyKeeps(pipe: Pipe, s: State, step: Step)
    requires Inv(pipe, s)
    ensures Inv(pipe, Apply(pipe, s, step))
  {
    if step == Take {
      if s.queue != [] { assert s.taken + [s.queue[0]] + s.queue[1..] == s.emitted; }
    } else {
      DrainKeeps(pipe, s, step);
    }
  }

  lemma {:induction false} Reachable(pipe: Pipe, run: seq<Step>, i: nat)
    requires i <= |run|
    ensures Inv(pipe, After(pipe, run, i))
  {
    hide Apply;
    if i == 0 { StartHolds(pipe); } else {
      Reachable(pipe, run, i - 1);
      ApplyKeeps(pipe, After(pipe, run, i - 1), run[i - 1]);
    }
  }

  lemma StartHolds(pipe: Pipe)
    ensures Inv(pipe, START)
  {
  }

  /** A frame that passes `message`'s second check is the next line of the child's real output, with no
      byte missing before it: whenever `overflow` is unset, the k-th frame taken is the k-th line. */
  lemma TakenFramesAreLines(pipe: Pipe, run: seq<Step>, i: nat)
    requires i <= |run| && !After(pipe, run, i).overflow
    ensures var s := After(pipe, run, i);
      |s.taken| <= |Lines(s.output)| && (forall k :: 0 <= k < |s.taken| ==> s.taken[k] == Lines(s.output)[k])
  {
    hide Lines, After, Concat, IsLine;
    var s := After(pipe, run, i);
    Reachable(pipe, run, i);
    assert s.buffer == Concat(s.emitted) + s.buffer[|Concat(s.emitted)|..];
    var rest := s.buffer[|Concat(s.emitted)|..] + Unstored(s.phase);
    assert s.output == Concat(s.emitted) + rest;
    LinesOfConcat(s.emitted, rest);
    forall k | 0 <= k < |s.taken| ensures s.taken[k] == Lines(s.output)[k] {
      assert s.taken[k] == s.emitted[k] == Lines(s.output)[..|s.emitted|][k];
    }
  }

  /** The step that drops a block sets `overflow`, and nothing unsets it. */
  lemma {:induction false} DropIsFlagged(pipe: Pipe, run: seq<Step>, k: nat, i: nat)
    requires k < i <= |run|
    requires var s := After(pipe, run, k); s.phase.Holding? && run[k] == Decide
                                           && Apply(pipe, s, Decide).buffer == s.buffer
    ensures After(pipe, run, i).overflow
    decreases i
  {
    hide Apply;
    var s := After(pipe, run, i - 1);
    if i > k + 1 {
      DropIsFlagged(pipe, run, k, i - 1);
      FlagStays(pipe, s, run[i - 1]);
    } else {
      HeldBlocksAreNotEmpty(pipe, run, k);
      DropFlags(pipe, s);
    }
  }

  lemma DropFlags(pipe: Pipe, s: State)
    requires s.phase.Holding? && s.phase.block != [] && Apply(pipe, s, Decide).buffer == s.buffer
    ensures Apply(pipe, s, Decide).overflow
  {
    assert |s.buffer + s.phase.block| > |s.buffer|;
  }

  lemma FlagStays(pipe: Pipe, s: State, step: Step)
    ensures s.overflow ==> Apply(pipe, s, step).overflow
  {
  }

  lemma {:induction false} HeldBlocksAreNotEmpty(pipe: Pipe, run: seq<Step>, i: nat)
    requires i <= |run|
    ensures After(pipe, run, i).phase.Holding? ==> After(pipe, run, i).phase.block != []
  {
    if i > 0 { HeldBlocksAreNotEmpty(pipe, run, i - 1); }
  }

  /** A block that does not fit in what the thread may keep. */
  predicate Drops(pipe: Pipe, s: State, step: Step) {
    s.phase.Holding? && step == Decide && |s.buffer| + |s.phase.block| > pipe.cap
  }

  lemma DropStep(pipe: Pipe, s: State, step: Step)
    requires |s.buffer| <= pipe.cap
    ensures var t := Apply(pipe, s, step);
      |t.buffer| <= pipe.cap && (t.overflow <==> s.overflow || Drops(pipe, s, step))
  {
  }

  /** The buffer never outgrows its cap, and `overflow` is set exactly when a block that did not fit was dropped. */
  lemma {:induction false} OverflowExactly(pipe: Pipe, run: seq<Step>, i: nat)
    requires i <= |run|
    ensures |After(pipe, run, i).buffer| <= pipe.cap
    ensures After(pipe, run, i).overflow <==> exists j :: 0 <= j < i && Drops(pipe, After(pipe, run, j), run[j])
  {
    hide Apply, Drops;
    if i > 0 {
      OverflowExactly(pipe, run, i - 1);
      DropStep(pipe, After(pipe, run, i - 1), run[i - 1]);
    }
  }

  /** Between blocks the thread has cut every line off: nothing of `pending` is one. */
  ghost predicate AllCut(pipe: Pipe, s: State) {
    (s.phase.Reading? || s.phase.Holding? || s.phase == Ended(true)) ==> 10 !in s.pending
  }

  lemma CutStep(pipe: Pipe, s: State, step: Step)
    requires AllCut(pipe, s) && Inv(pipe, s)
    ensures AllCut(pipe, Apply(pipe, s, step))
  {
    hide Concat, IsLine;
  }

  lemma {:induction false} CutAlways(pipe: Pipe, run: seq<Step>, i: nat)
    requires i <= |run|
    ensures AllCut(pipe, After(pipe, run, i))
  {
    hide Apply, AllCut;
    if i > 0 {
      CutAlways(pipe, run, i - 1);
      Reachable(pipe, run, i - 1);
      hide Inv;
      CutStep(pipe, After(pipe, run, i - 1), run[i - 1]);
    } else {
      NothingCut(pipe);
    }
  }

  lemma NothingCut(pipe: Pipe)
    ensures AllCut(pipe, START)
  {
  }

  lemma {:induction false} LinesAreAll(lines: seq<Bytes>, rest: Bytes)
    requires (forall i :: 0 <= i < |lines| ==> IsLine(lines[i])) && 10 !in rest
    ensures Lines(Concat(lines) + rest) == lines
  {
    if lines == [] {
      assert Concat(lines) + rest == rest;
    } else {
      var line, tail := lines[0], Concat(lines[1..]) + rest;
      assert Concat(lines) + rest == line + tail;
      LinesFront(line, tail);
      hide Lines, IsLine;
      LinesAreAll(lines[1..], rest);
    }
  }

  /** A thread of an interactive child's stdout that waits for a block, or ended at end of file, has queued every line
      of the output, unless a block was dropped. */
  lemma EveryLineQueued(pipe: Pipe, run: seq<Step>, i: nat)
    requires i <= |run| && pipe.splits && !After(pipe, run, i).overflow
    requires After(pipe, run, i).phase.Reading? || After(pipe, run, i).phase == Ended(true)
    ensures After(pipe, run, i).emitted == Lines(After(pipe, run, i).output)
  {
    hide After, Lines, IsLine, Concat;
    var s := After(pipe, run, i);
    Reachable(pipe, run, i);
    CutAlways(pipe, run, i);
    assert s.output == Concat(s.emitted) + s.pending;
    LinesAreAll(s.emitted, s.pending);
  }

  /** While neither flag is set: emitted lines and pending bytes are the buffer, and the buffer is every
      byte read and stored. */
  lemma NothingMissing(pipe: Pipe, run: seq<Step>, i: nat)
    requires i <= |run| && !After(pipe, run, i).overflow && !After(pipe, run, i).pipeError
    ensures var s := After(pipe, run, i);
      && s.output == s.buffer + Unstored(s.phase)
      && (pipe.splits ==> s.buffer == Concat(s.emitted) + Held(s.phase) + s.pending)
  {
    Reachable(pipe, run, i);
  }

  // ----- how a thread ends -----

  /** The step that raises in the thread: the read itself, a pending line that grows too long, or a full queue. */
  predicate Raises(pipe: Pipe, s: State, step: Step) {
    match (s.phase, step)
    case (Reading, Break) => true
    case (Holding(block), Decide) =>
      pipe.splits && |s.buffer| + |block| <= pipe.cap && |s.pending| + |block| > 16384
    case (Putting(_), Put) => |s.queue| >= 16
    case _ => false
  }

  /** The exception was raised: its handler is about to run or has run. */
  predicate Raised(s: State) { s.phase.Failing? || s.phase == Ended(false) }

  lemma RaisesStep(pipe: Pipe, s: State, step: Step)
    ensures Raised(Apply(pipe, s, step)) <==> Raised(s) || Raises(pipe, s, step)
  {
  }

  lemma {:induction false} RaisedExactly(pipe: Pipe, run: seq<Step>, i: nat)
    requires i <= |run|
    ensures Raised(After(pipe, run, i)) <==> exists j :: 0 <= j < i && Raises(pipe, After(pipe, run, j), run[j])
  {
    hide Apply, Raises, Raised;
    if i == 0 {
      NotRaised();
    } else {
      RaisedExactly(pipe, run, i - 1);
      RaisesStep(pipe, After(pipe, run, i - 1), run[i - 1]);
    }
  }

  lemma NotRaised()
    ensures !Raised(START)
  {
  }

  /** An ended thread saw end of file exactly when no step of it raised. */
  lemma EndIsEofExactly(pipe: Pipe, run: seq<Step>, i: nat)
    requires i <= |run| && After(pipe, run, i).phase.Ended?
    ensures After(pipe, run, i).phase.eof <==> forall j :: 0 <= j < i ==> !Raises(pipe, After(pipe, run, j), run[j])
  {
    RaisedExactly(pipe, run, i);
  }

  /** What the flag says of an ended thread: it is unset exactly on end of file with no partial line left. */
  lemma CleanEndIsEof(pipe: Pipe, run: seq<Step>, i: nat)
    requires i <= |run| && After(pipe, run, i).phase.Ended?
    ensures !After(pipe, run, i).pipeError <==> After(pipe, run, i).phase.eof && After(pipe, run, i).pending == []
  {
    FlagFollows(pipe, run, i);
  }

  lemma {:induction false} FlagFollows(pipe: Pipe, run: seq<Step>, i: nat)
    requires i <= |run|
    ensures var s := After(pipe, run, i);
      s.pipeError <==> s.phase.Ended? && (!s.phase.eof || s.pending != [])
  {
    if i > 0 {
      FlagFollows(pipe, run, i - 1);
      FlagStep(pipe, After(pipe, run, i - 1), run[i - 1]);
    }
  }

  lemma FlagStep(pipe: Pipe, s: State, step: Step)
    requires s.pipeError <==> s.phase.Ended? && (!s.phase.eof || s.pending != [])
    ensures var t := Apply(pipe, s, step); t.pipeError <==> t.phase.Ended? && (!t.phase.eof || t.pending != [])
  {
  }

  function Newlines(n: nat): Bytes { seq(n, _ => NEWLINE) }

  /** One block of seventeen empty lines while nobody takes a frame: sixteen are queued, the seventeenth
      finds the queue full. */
  const FLOOD: seq<Step> :=
    seq(37, i => if i == 0 then Read(Newlines(17)) else if i == 1 then Decide else if i == 36 then Fail
                 else if i % 2 == 0 then Cut else Put)

  lemma FloodStart(pipe: Pipe)
    requires pipe.splits && pipe.cap >= 17
    ensures var s := Apply(pipe, Apply(pipe, START, Read(Newlines(17))), Decide);
      s.phase == Splitting && s.pending == Newlines(17) && s.queue == []
  {
    assert [] + Newlines(17) == Newlines(17);
  }

  lemma FloodTurn(pipe: Pipe, s: State, n: nat)
    requires s.phase == Splitting && s.pending == Newlines(n) && n > 0
    ensures var s' := Apply(pipe, s, Cut);
      && s'.phase.Putting? && s'.pending == Newlines(n - 1) && s'.queue == s.queue
      && (|s.queue| < QUEUE_LINES ==> var s'' := Apply(pipe, s', Put);
            s''.phase == Splitting && s''.pending == Newlines(n - 1) && |s''.queue| == |s.queue| + 1)
      && (|s.queue| >= QUEUE_LINES ==> Apply(pipe, s', Put).phase.Failing?)
  {
  }

  lemma {:induction false} FloodAt(pipe: Pipe, k: nat)
    requires k <= 16 && pipe.splits && pipe.cap >= 17
    ensures var s := After(pipe, FLOOD, 2 + 2 * k);
      s.phase == Splitting && s.pending == Newlines(17 - k) && |s.queue| == k
  {
    hide Apply, Newlines;
    if k == 0 {
      FloodStart(pipe);
      assert After(pipe, FLOOD, 1) == Apply(pipe, START, FLOOD[0]);
      assert After(pipe, FLOOD, 2) == Apply(pipe, After(pipe, FLOOD, 1), FLOOD[1]);
    } else {
      var i := 2 * k;
      FloodAt(pipe, k - 1);
      var s := After(pipe, FLOOD, i);
      FloodTurn(pipe, s, 18 - k);
      assert FLOOD[i] == Cut && After(pipe, FLOOD, i + 1) == Apply(pipe, s, Cut);
      assert FLOOD[i + 1] == Put && After(pipe, FLOOD, i + 2) == Apply(pipe, After(pipe, FLOOD, i + 1), Put);
    }
  }

  /** The thread can also end without end of file: the pipe was never drained, and `pipeError` is the
      only trace of it. */
  lemma EndWithoutEof(pipe: Pipe)
    requires pipe.splits && pipe.cap >= 17
    ensures After(pipe, FLOOD, |FLOOD|).phase == Ended(false)
  {
    FloodAt(pipe, 16);
    var s := After(pipe, FLOOD, 34);
    FloodTurn(pipe, s, 1);
    assert FLOOD[34] == Cut && After(pipe, FLOOD, 35) == Apply(pipe, s, Cut);
    assert FLOOD[35] == Put && After(pipe, FLOOD, 36) == Apply(pipe, After(pipe, FLOOD, 35), Put);
    assert FLOOD[36] == Fail;
  }
}
