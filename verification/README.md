# Verified models of the qualification code

This project models the stateful decision procedures, stream parsers and ownership protocols of the notification
repository's qualification scripts and of its display plugin, and proves what they promise over every input, every run
and every interleaving. `dafny verify dfyconfig.toml` checks all of it.

Six families, each in a few files:

- `ServerSurface*` - the fold over compositor records that selects one surface. `ServerSurface` is the decoder, one map
  of resources and roles per connection; `ServerSurfaceTrace` and `ServerSurfaceSelection` say what every map entry means
  about the whole trace, and prove that a trace is accepted, and selects what it selects, exactly when a declarative
  statement about the trace holds; `ServerSurfaceSwap` reorders independent records; `ServerSurfaceMethod` is the
  program's own loop over flat dictionaries.
- `Tar*`, `BoundedTarXZ` - the incremental tar guard. `TarGuard` is one byte at a time; `TarGrammar` is the block grammar
  (ustar and pax extended headers of the `pax` utility, IEEE Std 1003.1) without any of the guard's fields, and
  `TarBytes` the same read off the bytes; `TarReader` is any reader of Python's kind, with its own size and directory
  rules, that honours pax overrides or ignores them; `TarPax` is what it takes from the blocks behind a pax header;
  `TarHidden` and `TarWitness` show what it finds in bodies that it does not skip; `BoundedTarXZ` is the class with its
  buffers.
- `Display*` - the reference-counted question registry of the plugin: its transitions, every interleaving of them, which
  messages are new turns and which questions are shown on every run, and the class over shared snapshot objects.
- `Owned*` - a drain thread feeding a queue that another thread consumes, the ownership counters of child processes, and
  the two together.
- `NativeCaptures`, `NativeWindows`, `Base64`, `GuestFrame`, `GuestChannel`, `SparseCopy` - de-duplication of captured
  event logs, execution windows, a hash-checked frame in console noise, a line protocol over chunks, a file copy that
  keeps holes.
- `Release*`, `Runtime*`, `CiScope`, `Texts` - admission decisions: the census of check runs, archive validation before
  staging, git's raw change records.

What the program cannot determine by itself is a parameter and is quantified over: chunks, short reads and writes,
deadlines, exits, answers of GitHub, and SHA-256, JSON and XZ as functions. Where the source loops over a dictionary the
model takes any order. In the surface decoder `Config.isToken` stands for "the SHA-256 of the decoded token is the
expected one".

## Findings

Five promises do not hold of the code as it stands. The models keep the code; for each there is a concrete input and the
exact condition.

1. A drain thread may end without end of file. Its exact condition: it saw end of file if and only if no step of it
   raised, and the steps that raise are a failing read, a pending line above the frame limit and a full queue
   (`OwnedDrain.EndIsEofExactly`; `OwnedDrain.EndWithoutEof` is a run, seventeen unread lines). So `close` can free a slot
   although a pipe was never read to its end (`OwnedPipes.FreedWithoutEof`; a natural close raises only afterwards), which
   the docstring "actual wait and both pipe EOFs retain ownership" rules out. `OwnedPipes.PromiseExactly` says on which
   runs that promise holds, with the threads of every child interleaved with starts and closes.
2. `starts == closes + live` fails when a child is waited for but cannot be closed yet and its pid is given to the next
   child, whose `start` replaces the entry (`OwnedProcesses.ReusedPidUnbalances`). It holds exactly on runs where no
   start lands on a live pid (`OwnedProcesses.StartsBalance`).
3. A child can leave `live` unproved, and the helper count can be off (`OwnedProcesses.HelperLost`,
   `OwnedProcesses.StaleCloseLoses`). All along a run every child is accounted for exactly when no step starts on the pid
   of an unproved child or closes through another child's handle (`OwnedProcesses.AccountedExactly`), and the helpers
   balance exactly when no step starts on the pid of a live helper or closes through a handle of the other kind
   (`OwnedProcesses.HelpersBalance`).
4. The tar guard skips a body of the declared size after every header, and of a pax header it reads the declared bytes.
   Python's `tarfile`, which reads behind the guard, differs in three ways. It skips no body after a link, a device, a
   pipe or a directory, and takes kind NUL with a name that ends in `/` for a directory. Where the guard strips NULs from
   both sides of a size field, it stops at the first, so that a NUL before the digits makes the size zero. And it reads
   the blocks behind a pax header whole, and goes on taking records from the padding, which the guard never looks at
   (`TarHidden.PaddingUnseen`). Then the next header is looked for inside a body: any 512 bytes pass as one unseen
   (`TarHidden.AnyBlockHides`). `TarWitness.HiddenHeaders` has a hidden file, checksums included, behind a directory,
   behind an old-style directory and behind a size that starts with a NUL, and a hidden file whose own size field is
   blank; in `TarWitness.PaddingParts` no entry is misread, and `size=0` in the padding of a pax header uncovers a header
   in the body of an ordinary file; `TarWitness.ReadersPart` hides the override as well. The condition, for every reader
   that reads sizes this way, whatever it takes from pax blocks and makes of layout records: it goes on where the guard
   does exactly when a pending layout record that it honours says so, or else the declared size is zero or the header is
   none of those and has no NUL before its digits (`TarReader.NextExactly`); and it finds the guard's headers in a whole
   archive exactly when it gets past every header and that holds of every entry, save a last one after which it stops
   (`TarReader.NoLayoutDisagreement`). No layout record is ever pending exactly when no pax header gives one
   (`TarReader.CleanExactly`), for a reader like `tarfile` exactly when no padding carries one
   (`TarPax.NoOverridesExactly`), and never for a reader that takes the declared bytes only
   (`TarReader.DeclaredBytesOnly`); then honouring such records or not makes no difference (`TarReader.NoOverridesAgree`).
5. The release census does not look back under a latest row that is itself excused: `ReleaseMasked.FailureMasked` is an
   admitted census with an older failure and no proof for it. `ReleaseCensus.DueExactly` says which rows are looked at.

## Model

| member | source | states |
|---|---|---|
| ServerSurfaceSelection.SelectExactly | scripts/navigation-linux-server-surface-observation.py:20-127 | a surface is selected if and only if the trace has one activation with the token, by the expected peer, whose three incarnations were created before it and never destroyed, and which is the only live role of that peer at the end |
| ServerSurfaceSelection.RunFaithful | scripts/navigation-linux-server-surface-observation.py:44-112 | a prefix is refused exactly when one of its records is inadmissible after those before it; otherwise every connection, resource, role and activation entry is the trace fact it stands for |
| ServerSurfaceSelection.StepExact | scripts/navigation-linux-server-surface-observation.py:45-112 | one record is accepted exactly when the trace so far admits it, said without the dictionaries |
| ServerSurfaceRecords.SoundExactly | scripts/navigation-linux-server-surface-observation.py:45-49 | the checks on a record pass exactly when it is no fault, has its fields, and every integer in it is between 1 and 2^64 - 1 |
| ServerSurfaceRecords.TokenExactly | scripts/navigation-linux-server-surface-observation.py:103-105 | a token text is taken exactly when it is one to 4096 bytes in lower-case hex |
| ServerSurfaceSelection.LiveUnique | scripts/navigation-linux-server-surface-observation.py:70-74 | at every point of an accepted trace an object id has at most one live incarnation |
| ServerSurfaceSelection.LiveRoleSound | scripts/navigation-linux-server-surface-observation.py:33-38 | a role the program calls live has all three incarnations live in the trace and an open connection |
| ServerSurfaceSelection.LiveRoleComplete | scripts/navigation-linux-server-surface-observation.py:33-38 | and every role live in the trace is in the dictionary under its own key |
| ServerSurfaceTrace.ConnStep | scripts/navigation-linux-server-surface-observation.py:62-102 | one record of a connection keeps its resources and roles faithful to the trace and their toplevel generations distinct |
| ServerSurfaceSwap.SwapAdjacent | scripts/navigation-linux-server-surface-observation.py:44-127 | swapping two adjacent records of different connections keeps the verdict and the selected objects, with generations renamed by the swap |
| ServerSurfaceSwap.StepsCommute | scripts/navigation-linux-server-surface-observation.py:54-112 | two independent records commute as state changes, in both verdicts |
| ServerSurfaceMethod.SelectedServerSurface | scripts/navigation-linux-server-surface-observation.py:25-127 | the loop over flat dictionaries computes that selection, and returns one exactly when the trace statement holds |
| ServerSurfaceMethod.ReadRequest | scripts/navigation-linux-server-surface-observation.py:60-112 | one record's dictionary updates are the connection's step |
| ServerSurfaceMethod.Conclude | scripts/navigation-linux-server-surface-observation.py:114-127 | the concluding comprehension over all roles is the selection of the final state |
| TarFormat.PaxGrammar | scripts/navigation-linux-vendor-manifest.py:115-128 | a payload is accepted if and only if it is a concatenation of self-length-prefixed key=value records none of which overrides the layout |
| TarBytes.PayloadExactly | scripts/navigation-linux-vendor-manifest.py:115-128 | in bytes: a payload is accepted if and only if it is records, each as long as its decimal length says and ended by a newline, each with a `=` and none of which has `size` or something that begins with `GNU.sparse` before the first one |
| TarBytes.ValidatePax | scripts/navigation-linux-vendor-manifest.py:115-128 | the cursor loop decides exactly that |
| TarBytes.LayoutRefused | scripts/navigation-linux-vendor-manifest.py:77-128 | anywhere in an archive, a pax header whose payload is harmless records followed by one that has no `=`, or has `size` or something that begins with `GNU.sparse` before the first, gets the stream refused, whatever follows |
| TarGuard.ChunkingIsIrrelevant | scripts/navigation-linux-vendor-manifest.py:71-113 | any split of a stream gives the verdict and the end state of the whole |
| TarGuard.PushConcat | scripts/navigation-linux-vendor-manifest.py:71-113 | guarding two pieces in turn is guarding their concatenation |
| TarGrammar.AcceptsExactlyArchives | scripts/navigation-linux-vendor-manifest.py:71-147 | acceptance followed by the final test holds if and only if the stream is headers with bodies rounded up to 512, then one or more zero blocks, within the count, size, root and total limits |
| TarBytes.AcceptsExactlyBytes | scripts/navigation-linux-vendor-manifest.py:71-147 | the same with every field read in bytes: octal sizes between blanks, kinds, limits of 65536 and 543408877, root directory names, harmless payloads, at most 20000 headers |
| TarGrammar.GrammarAccepted | scripts/navigation-linux-vendor-manifest.py:88-113 | entries that fit the remaining budget are accepted from any state between two blocks |
| TarGrammar.AcceptedParses | scripts/navigation-linux-vendor-manifest.py:75-113 | an accepted rest of a stream parses into entries and zero blocks |
| TarReader.NextExactly | scripts/navigation-linux-vendor-manifest.py:76-113 | from any pending state, when a reader gets past the header of an entry, and that it then expects the next one where the guard does if and only if a pending layout record, honoured, gives the length of the body, or none is and the declared size is zero or the header is no directory (old-style ones included), link, device or pipe and has no NUL before the digits of its size |
| TarReader.NoLayoutDisagreement | scripts/navigation-linux-vendor-manifest.py:76-128 | in an archive of the grammar, any such reader finds the guard's header offsets if and only if the archive is aligned for it: entry by entry with what is pending there, it gets past the header and skips just the body, save a last entry after which it stops |
| TarReader.CleanExactly | scripts/navigation-linux-vendor-manifest.py:76-128 | nothing that touches the layout is ever pending if and only if no pax header of the archive gives the reader such a record |
| TarReader.NoOverridesAgree | scripts/navigation-linux-vendor-manifest.py:76-128 | where none does, an archive is aligned for a reader that honours layout records if and only if it is for one that ignores them, and then they find the same headers |
| TarReader.DeclaredBytesOnly | scripts/navigation-linux-vendor-manifest.py:76-128 | for a reader that takes the declared bytes by the guard's own grammar, on every archive: none does, and it finds the guard's headers if and only if it reads every header and misreads no body, save a last one at whose first block it stops |
| TarReader.PlainEntriesAlign | scripts/navigation-linux-vendor-manifest.py:76-113 | archives in which everything is read, no pax header gives a layout record, and every entry declares size zero, or stores its body and writes its size without a NUL in front, are aligned |
| TarPax.PaddingExactly | scripts/navigation-linux-vendor-manifest.py:77-128 | a reader that takes whole blocks takes a layout record from an accepted pax header if and only if its size has no NUL in front and the run of records that continues past the declared size, behind records that all have a key, holds one; it gives up on the header exactly when that run does |
| TarPax.NoOverridesExactly | scripts/navigation-linux-vendor-manifest.py:77-128 | so for a whole archive: it is given no layout record if and only if no padding carries one |
| TarHidden.AnyBlockHides | scripts/navigation-linux-vendor-manifest.py:105-113 | behind any header that stores no body, or has a NUL before its digits, and declares 512 bytes, the guard accepts a block it does not read as headers, and a reader lists that block as the next header unless it stops there |
| TarHidden.PaddingUnseen | scripts/navigation-linux-vendor-manifest.py:77-85 | an entry is in the grammar whatever bytes pad its declared body |
| TarWitness.HiddenHeaders | scripts/navigation-linux-vendor-manifest.py:82-113 | with checksums in place: a hidden file listed behind a directory, behind a NUL-kind name ending in a slash, and behind a size field starting with a NUL, and a hidden file with a blank size field |
| TarWitness.PaddingParts | scripts/navigation-linux-vendor-manifest.py:77-85 | an accepted archive without a misread entry in which `size=0` in the padding of a pax header makes a reader that honours it list a header inside a file, and one that ignores it does not |
| TarWitness.ReadersPart | scripts/navigation-linux-vendor-manifest.py:71-147 | one accepted archive in which a hidden pax header parts a reader that honours overrides from one that ignores them |
| BoundedTar.BoundedTarXZ.GuardData | scripts/navigation-linux-vendor-manifest.py:71-113 | the nine fields after a block are the guard pushed over its bytes; refused exactly when that refuses |
| BoundedTar.BoundedTarXZ.Read | scripts/navigation-linux-vendor-manifest.py:130-142 | returned bytes were guarded first (delivered + buffer = guarded), a short result means the end, and a sound stream is never refused |
| BoundedTar.BoundedTarXZ.Finish | scripts/navigation-linux-vendor-manifest.py:144-147 | succeeds if and only if everything decoded, before and after, is an archive, said in bytes, with nothing trailing; then all of it was delivered |
| DisplayText.CleanKeepsWords | opencode-plugin/display.ts:25-30 | text within the byte limit and without barred characters keeps its words in order, one space apart; any other text becomes empty |
| DisplayText.CharactersExactly | opencode-plugin/display.ts:27-29 | which characters are barred and which are white space, one by one |
| DisplayText.IDExactly | opencode-plugin/display.ts:22-23 | an id is valid exactly when its UTF-8 encoding has 1 to 256 bytes and it holds no control character |
| DisplayText.CleanIsIdempotent | opencode-plugin/display.ts:25-30 | cleaning cleaned text changes nothing |
| DisplayRuns.Reachable | opencode-plugin/display.ts:32-100 | in every interleaving: a snapshot is active exactly when the registry maps its key to it, observer counts are the unreleased captures, the collections hold at most 512, the lookup counter is the unsettled lookups and never above its maximum |
| DisplayTurns.TurnExactly | opencode-plugin/display.ts:43-54 | along every run, a captured user message deactivates and unregisters its session's questions, and no other's, exactly when it starts a turn by the full history of turns, from which nothing is ever dropped; otherwise it changes nothing |
| DisplayTurns.NewMessageClears | opencode-plugin/display.ts:43-48 | a message with valid ids that no earlier step captured starts a turn: after it no snapshot of its session is active or registered |
| DisplayTurns.RecentMessageIgnored | opencode-plugin/display.ts:45-52 | a message that started a turn changes nothing when it is captured again before 512 different others were |
| DisplayTurns.LatestMessageIgnored | opencode-plugin/display.ts:45-50 | nor does the latest message of its session, whatever other sessions did, as long as there were at most 512 |
| DisplayShown.ShownExactly | opencode-plugin/display.ts:40-113 | a resumed enrichment shows a text if and only if it was begun for a question captured before with that text, under its session and request, and no step since its capture answered or rejected it, started a turn of its session, or released its last capture |
| DisplayShown.ActiveExactly | opencode-plugin/display.ts:43-84 | a snapshot is active exactly as long as no such step has come since its creation |
| DisplayShown.CreatesExactly | opencode-plugin/display.ts:59-77 | a captured question makes a snapshot exactly when its ids are valid, no active snapshot has them and fewer than 512 requests are registered; it then has the question's ids and text |
| DisplayShown.QuestionTextExactly | opencode-plugin/display.ts:69-74 | a question has a text exactly when it has one to eight parts, each a string that cleans to something, and they fit in 2048 bytes joined by ` · `, which is then the text |
| DisplayRuns.RunAges | opencode-plugin/display.ts:40-84 | along every run snapshots keep key and text, and an inactive one never becomes active again |
| DisplayRuns.DuplicatesShare | opencode-plugin/display.ts:60-67 | while a snapshot is active every further capture of its request shares it, and its first text |
| DisplayContexts.DisplayContext.Capture | opencode-plugin/display.ts:40-78 | the object's maps and shared snapshots change as the modelled transition |
| DisplayContexts.DisplayContext.Release | opencode-plugin/display.ts:79-84 | likewise for a release |
| DisplayContexts.DisplayContext.Begin | opencode-plugin/display.ts:85-105 | the stretch before the await looks the snapshot up and takes a slot only below the maximum |
| DisplayContexts.DisplayContext.Settle | opencode-plugin/display.ts:90-92 | a settled lookup gives its slot back and changes nothing else |
| DisplayContexts.DisplayContext.Finish | opencode-plugin/display.ts:105-106 | the stretch after the await shows the question only of a still active snapshot |
| OwnedDrain.TakenFramesAreLines | scripts/opencode-platform-clock-prequalification.py:203-249 | in every interleaving, while overflow is unset, the k-th frame taken is the k-th newline-terminated line of the child's real output |
| OwnedDrain.EveryLineQueued | scripts/opencode-platform-clock-prequalification.py:207-222 | a thread that waits for a block, or ended at end of file, has queued every line of the output while overflow is unset |
| OwnedDrain.NothingMissing | scripts/opencode-platform-clock-prequalification.py:205-224 | while neither flag is set, emitted lines and pending bytes are the buffer and the buffer is the bytes read |
| OwnedDrain.DropIsFlagged | scripts/opencode-platform-clock-prequalification.py:210-213 | dropping a block sets overflow for good |
| OwnedDrain.OverflowExactly | scripts/opencode-platform-clock-prequalification.py:208-214 | the buffer never outgrows its cap, and overflow is set if and only if a block that did not fit was dropped |
| OwnedDrain.EndIsEofExactly | scripts/opencode-platform-clock-prequalification.py:205-224 | an ended thread saw end of file if and only if no step of it raised: no failing read, no over-long pending line, no full queue |
| OwnedDrain.CleanEndIsEof | scripts/opencode-platform-clock-prequalification.py:207-224 | for an ended thread pipeError is unset if and only if it saw end of file and left no partial line |
| OwnedDrain.EndWithoutEof | scripts/opencode-platform-clock-prequalification.py:218-224 | a run in which the thread ends without end of file |
| OwnedProcesses.EveryRunBalanced | scripts/opencode-platform-clock-prequalification.py:190-202 | on every run: at most four children and one helper, the high-water mark is the running maximum, and starts exceed closes plus live children by the starts that landed on a live pid |
| OwnedProcesses.StartsBalance | scripts/opencode-platform-clock-prequalification.py:199-202 | starts equal closes plus live children exactly on runs where no start landed on a live pid |
| OwnedProcesses.ReusedPidUnbalances | scripts/opencode-platform-clock-prequalification.py:267-277 | a run of three steps on which they differ |
| OwnedProcesses.HelpersBalance | scripts/opencode-platform-clock-prequalification.py:202-278 | helper starts are helper closes plus live helpers all along a run exactly when no step moves a helper |
| OwnedProcesses.ProvenExactly | scripts/opencode-platform-clock-prequalification.py:267-275 | a child counts as waited for, and as drained, exactly when a close of it got past the wait, and past both joins |
| OwnedProcesses.LosesExactly | scripts/opencode-platform-clock-prequalification.py:267-278 | on every run, a step makes a child leave the live set without a wait and both drains if and only if it starts on that child's pid or closes through another child's handle |
| OwnedProcesses.AccountedExactly | scripts/opencode-platform-clock-prequalification.py:190-278 | all along a run every child started is live, or was waited for and drained, if and only if no step is one of those |
| OwnedProcesses.HelperLost | scripts/opencode-platform-clock-prequalification.py:199-277 | a run with own handles on which a helper is lost and the helper count is off |
| OwnedProcesses.StaleCloseLoses | scripts/opencode-platform-clock-prequalification.py:276 | a run with own handles on which a close removes another child's entry |
| OwnedProcesses.OrderlyRunsAccounted | scripts/opencode-platform-clock-prequalification.py:190-278 | on runs that never start on a live pid nor close a stale handle every child is accounted for and both balances hold |
| OwnedPipes.PromiseExactly | scripts/opencode-platform-clock-prequalification.py:182-278 | with both drain threads of every child interleaved: all along a run every child is live, or was waited for with both pipes at end of file, if and only if no step starts on the pid of a child that is not closed so, closes a child one of whose threads raised, or removes such a child's entry by another handle |
| OwnedPipes.JoinedAtEof | scripts/opencode-platform-clock-prequalification.py:271-272 | a child whose threads were joined has both pipes at end of file if and only if neither thread raised |
| OwnedPipes.FreedWithoutEof | scripts/opencode-platform-clock-prequalification.py:267-277 | a run on which a close succeeds and frees the slot though stdout was never read to its end |
| OwnedProcesses.Owned.Start | scripts/opencode-platform-clock-prequalification.py:190-202 | refused exactly with four live children, or for a helper beside a live one; otherwise the child is registered and every counter moves |
| OwnedProcesses.Owned.Close | scripts/opencode-platform-clock-prequalification.py:267-283 | only a complete close counts and frees its entry; an unclean natural close counts and still fails |
| OwnedProcesses.Owned.Cleanup | scripts/opencode-platform-clock-prequalification.py:324-334 | tries every child; exactly those not closed stay live, and both balances are kept |
| NativeCaptures.LongestPrefix | scripts/opencode-native-e2e.py:1097-1113 | for any interleaving of prefixes of one list with distinct ids, the result is the longest prefix in original order and nothing is refused |
| NativeCaptures.RefusedExactlyOnConflict | scripts/opencode-native-e2e.py:1105-1109 | well-formed events are refused exactly when two share an id with different contents |
| NativeCaptures.Idempotent | scripts/opencode-native-e2e.py:1097-1113 | running it on its own result changes nothing and refuses nothing |
| NativeCaptures.FirstsDistinct | scripts/opencode-native-e2e.py:1110-1112 | the result bears each id of the capture exactly once |
| NativeCaptures.TerminalV2Events | scripts/opencode-native-e2e.py:1097-1113 | the loop returns the first bearers of each id, or the fault of the first faulty event |
| NativeCaptures.FaultExactly | scripts/opencode-native-e2e.py:1101-1109 | which fault an event has: no id or an empty one, else no JSON text, else an earlier event with its id and other contents |
| NativeWindows.PositionExactly | scripts/opencode-native-e2e.py:527-536 | an event has a position in a session exactly when its id, aggregate, session, sequence, version and time are well formed and the session's, and the position is its sequence number |
| NativeWindows.SearchExact | scripts/opencode-native-e2e.py:539-557 | the search returns the window whose end stands last in the log, and nothing exactly when there is none; windows are said in the events' own fields and sequence numbers |
| NativeWindows.ExecutionWindowExact | scripts/opencode-native-e2e.py:539-557 | of a name: its window ends in a failure for `error` and in a success for every other name |
| NativeWindows.TurnExact | scripts/opencode-native-e2e.py:543-556 | one end yields exactly the window it closes: its nearest earlier start, in time order, with no start or terminal event between, and of several starts with one number the first in the log |
| NativeWindows.WindowsDisjoint | scripts/opencode-native-e2e.py:539-557 | two windows of a session meet at most in an end point or span the same numbers; with distinct numbers, windows of different ends do not even touch |
| NativeWindows.FinalStepsExact | scripts/opencode-native-e2e.py:560-570 | the result is the highest-sequence step strictly inside the window, the first of its number, when it is of the kind asked for, and nothing otherwise |
| Base64.RoundTrip | scripts/navigation-linux-handoff-guest-probe.py:43 | decoding an encoded payload gives it back (section 4 of RFC 4648) |
| Base64.DecodeExactly | scripts/navigation-linux-handoff-guest-probe.py:43 | a text decodes to these bytes if and only if it is groups of four digits of the RFC's table that are those bytes as 24-bit numbers, the last group possibly cut short by `=` |
| GuestFrame.PayloadRecovered | scripts/navigation-linux-handoff-guest-probe.py:32-46 | every payload whose frame fits is recovered from any marker-free noise around it |
| GuestFrame.FrameDecodes | scripts/navigation-linux-handoff-guest-probe.py:32-46 | any decodable frame in marker-free noise within the bounds is decoded |
| GuestFrame.OnlyFramesDecode | scripts/navigation-linux-handoff-guest-probe.py:35-46 | and whatever is decoded is one such frame whose claimed digest is the payload's |
| GuestFrame.MarkerExactly | scripts/navigation-linux-handoff-guest-probe.py:34 | which marker belongs to which use |
| GuestFrame.OccursExactly | scripts/navigation-linux-handoff-guest-probe.py:35-37 | a text occurs at a place exactly when the console text is that much, then the text, then the rest |
| GuestFrame.OnlyOccurrence | scripts/navigation-linux-handoff-guest-probe.py:34-37 | the marker stands nowhere else: not across the border of the noise, not overlapping itself, not inside the fields |
| GuestFrame.CountOne | scripts/navigation-linux-handoff-guest-probe.py:35 | the count of non-overlapping occurrences is one exactly when one position holds the marker |
| GuestChannel.SameLines | scripts/navigation-linux-handoff-guest-probe.py:195-226 | two ways of cutting whole lines off one byte stream agree, so the lines do not depend on the chunks |
| GuestChannel.Channel.Receive | scripts/navigation-linux-handoff-guest-probe.py:195-226 | yields the next line of the stream, keeps yielded lines with newlines + buffer + what is to come = the stream, refuses a line for size exactly above 16384 bytes and for time only when a look at the clock in this call was late, returns None only when nothing is left over, admits 128 messages, and refuses with a reason that holds of the bytes ahead |
| GuestChannel.Channel.Fill | scripts/navigation-linux-handoff-guest-probe.py:197-216 | the receiving loop ends with a whole line buffered, or with what each failure says about the bytes ahead |
| GuestChannel.Channel.Request | scripts/navigation-linux-handoff-guest-probe.py:228-243 | returns the answer with its own id and no error where that stands ahead behind at most seven events, within the budgets and with no look at the clock late; every other result says what follows the skipped events instead, and a failure is a reason a receive gave there, never a timeout or a close |
| SparseCopy.CopyLoop | scripts/navigation-linux-test-storage.py:72-85 | under any short reads and partial writes the destination is the source's first bytes, the write position follows the read offset, and no byte is written a block or more away from data |
| SparseCopy.WriteAll | scripts/navigation-linux-test-storage.py:80-83 | a block is written whole at the position, however few bytes each write takes |
| SparseCopy.DigestFd | scripts/navigation-linux-test-storage.py:11-19 | the digest is that of the whole file, and the file has exactly the size asked for |
| SparseCopy.Copy | scripts/navigation-linux-test-storage.py:60-92 | succeeds only with the destination equal to the announced source; on an unchanging source the digests after the loop never refuse |
| ReleaseEvidence.ForeignExactly | scripts/basic-release-checks.py:191-203 | a row is ignored if and only if it comes from the workflow app and its suite has one run, a pull request from another repository |
| ReleaseEvidence.RetryGoesUp | scripts/basic-release-checks.py:312-363 | a retry stays in its workflow, repository and commit, goes strictly up in (run id, attempt), and is a push to main wherever the workflow has one |
| ReleaseEvidence.MayRetryExactly | scripts/basic-release-checks.py:320-347 | a run may retry another exactly when, in their own fields, both are completed runs of one workflow at this commit of this repository, the earlier a push or a pull request, the later of no lower id, a success, and a push to main, or authentic where the workflow has no push to main |
| ReleaseEvidence.RetryExactly | scripts/basic-release-checks.py:312-363 | a success retires an older failure if and only if each of their suites has one run, the later run is such a retry, and within one run its jobs, each the only one of its id, show the failure in an earlier attempt |
| ReleaseEvidence.ConditionalExactly | scripts/basic-release-checks.py:250-309 | a skipped row retires an older one if and only if that is a cancelled job that never ran a step, in a cancelled pull request run below the selected one, and the skipped row of the same check is a job of the selected run that never ran either |
| ReleaseEvidence.SameHistory | scripts/basic-release-checks.py:206-225 | two rows share a history exactly when they are of one app and name and come from no workflow app, from one suite, or from runs of one workflow at this commit |
| ReleaseEvidence.OfWorkflowExactly | scripts/basic-release-checks.py:206-225 | which suites belong to a workflow at this commit, by the fields of their one run |
| ReleaseEvidence.UnexecutedExactly | scripts/basic-release-checks.py:250-280 | which cancelled job that never ran a step stands below the selected run |
| ReleaseCensus.RetiredExactly | scripts/basic-release-checks.py:443-459 | what admission demands of an older blocking row, in those terms |
| ReleaseCensus.Verify | scripts/basic-release-checks.py:424-474 | the census is admitted if and only if every good latest row accounts for its older blocking rows and every other latest row is excused; then each row that owed a proof has exactly one, computed for it, and no other row has any; every proof is of a blocking row and a later good one of its history, a retry that goes up or a job that never ran |
| ReleaseCensus.AdmittedExactly | scripts/basic-release-checks.py:439-474 | the program's test of the rows is that statement, with histories, retries and excuses said in the fields of rows, runs and jobs |
| ReleaseCensus.OwesExactly | scripts/basic-release-checks.py:439-447 | which row owes a proof to which |
| ReleaseCensus.EligibleExactly | scripts/basic-release-checks.py:425-432 | the rows looked at are those of the census but the operator's own suite and pull requests from other repositories |
| ReleaseCensus.ExcuseExactly | scripts/basic-release-checks.py:461-474 | which latest row is excused: a closed review, or an unexpanded placeholder of a job that never ran, superseded by the selected run |
| ReleaseCensus.CensusSplits | scripts/basic-release-checks.py:425-432 | operator, foreign and eligible rows add up to the census: none is lost |
| ReleaseCensus.DueExactly | scripts/basic-release-checks.py:439-447 | the rows looked back at are the blocking rows under a key whose latest row is good, and no others |
| ReleaseMasked.FailureMasked | scripts/basic-release-checks.py:472-474 | an admitted census with an older failure whose history ends in an excused placeholder, and no proof for it |
| ReleaseCensus.Split | scripts/basic-release-checks.py:424-437 | the first loop's lists, and the row of highest id under every key |
| ReleaseCensus.Retire | scripts/basic-release-checks.py:443-459 | the inner loop adds one proof for each older blocking row of the key, or refuses exactly when one has none |
| ReleaseCensus.Examine | scripts/basic-release-checks.py:439-474 | the loop over the latest rows clears every key or names the failure |
| Texts.JoinSplit | scripts/navigation-linux-handoff-runtime-stage.py:51-53 | joining what split gives restores the text, so names and paths correspond one to one |
| Texts.SplitJoin | scripts/ci_macos_scope.py:60 | splitting joined parts gives the parts |
| Texts.PartsExactly | scripts/navigation-linux-handoff-runtime-stage.py:33 | the parts of a text are what lies between two separators or a separator and an end |
| Texts.PrefixExactly | scripts/navigation-linux-handoff-runtime-stage.py:51-53 | joining some first parts, but not all, gives what stands before one of the separators |
| RuntimeStage.Entries | scripts/navigation-linux-handoff-runtime-stage.py:26-49 | the members are admitted under their own names exactly when all are well formed, distinct and within the bounds |
| RuntimeArchive.AdmissibleExactly | scripts/navigation-linux-handoff-runtime-stage.py:27-48 | the members are in order exactly when there are at most 4096 with at most 64 MiB in all, no two under one name, each a directory of size 0 or a complete file of at most 16 MiB under a name with no backslash and no empty, `.` or `..` component, and only a directory as the root |
| RuntimeArchive.ListsExactly | scripts/navigation-linux-handoff-runtime-stage.py:31-49 | and the entries are their bytes and modes under their names, a leading `./` taken off |
| RuntimeArchive.ValidatedTree | scripts/navigation-linux-handoff-runtime-stage.py:19-60 | gives exactly the entries of an archive that is within the bound and the pinned one, whose members are in order, in which no name begins with a file's name and a slash, and whose executable is there, marked and authentic |
| RuntimeTree.Stage | scripts/navigation-linux-handoff-runtime-stage.py:77-90 | an accepted archive is staged into a new root without a collision, in any order of its entries |
| RuntimeTree.StagedExactly | scripts/navigation-linux-handoff-runtime-stage.py:80-90 | the tree then holds every listed file with its bytes, every listed directory, and no file that is not listed |
| RuntimeTree.WayIsClear | scripts/navigation-linux-handoff-runtime-stage.py:83-88 | before each entry nothing stands in its way |
| RuntimeTree.Tree.MkdirParents | scripts/navigation-linux-handoff-runtime-stage.py:83 | makes exactly the missing directories down to a path, and fails exactly when a file stands among them |
| RuntimePaths.PlainResolves | scripts/navigation-linux-handoff-runtime-stage.py:33 | a canonical name leads exactly where its parts say |
| CiScope.RawChanges | scripts/ci_macos_scope.py:56-91 | a text is read as a change list if and only if it is the encoding of that non-empty list of sound changes |
| CiScope.ValidExactly | scripts/ci_macos_scope.py:66-89 | a change is sound exactly when it adds, deletes or modifies one regular file, or renames one with a score of 0 to 100, with the modes and object ids that go with it, under relative paths with no empty, `.` or `..` component |
| CiScope.TextExact | scripts/ci_macos_scope.py:58-60 | the last-NUL test, the split and the parser invert the encoding |
| CiScope.ParseExact | scripts/ci_macos_scope.py:65-91 | a record list parses to the changes it encodes and to nothing else |
| CiScope.ParseOneExact | scripts/ci_macos_scope.py:67-89 | the front records parse to a change exactly when it is valid and stands there, modes and object ids kept |
| CiScope.Classify | scripts/ci_macos_scope.py:94-103 | docs exactly for a pull request whose record only modifies the three documents, windows-only exactly for a draft whose record names only the five files of the Windows build, full otherwise |
| CiScope.GatePassesExactly | scripts/ci_macos_scope.py:106-117 | for each contract one evidence passes, everything needed successful and nothing else, and only in mode full |
| CiScope.SkippedNeverPasses | scripts/ci_macos_scope.py:94-117 | a change classified as anything but full never passes the gate, whatever the jobs report |

## Left out

- `members`, `Slice` and `generate` of the vendor manifest: single cursor loops over ar records and a lexical containment test.
- SHA-256, JSON text, XZ decoding, the decoder's memory limit: functions, or a decoder that yields any finite list of chunks.
- Python's limit on converting very long digit strings, which refuses a pax length of more than 4300 digits with another error.
- TarReader.NoLayoutDisagreement: where a reader takes a block for no header, and when it gives up on a pax header or a pending layout, are parameters; reading on after such a block (`ignore_zeros`) is not modelled. Offsets are compared, not errors: `tarfile` raises when no member follows a pax header.
- TarWitness.PaddingParts: the reader of the witnesses applies plain decimal `size` records and lets `GNU.sparse` ones be; in the theorems what a reader makes of either is a parameter.
- BoundedTar.BoundedTarXZ.GuardData: verdicts and end states are compared, not error texts; the header checksum is not checked by the code and not required by the grammar.
- `selectedRecordsSHA256` of the selected surface, a hash over the peer's records.
- Session titles, fact kinds and the remaining fields of the display record; clocks, which only decide when a lookup is given up.
- `send`, `admit_helper`, `verify_helper` and `command` of `Owned`, the JSON and kind checks of a frame in `message`, and the held helper image.
- OwnedDrain.TakenFramesAreLines: exactness of the frames taken, not chunk-independent acceptance, since the pending limit depends on block boundaries; `overflow` and `pipeError`, which the two threads of a child share, are one pair per thread here.
- NativeCaptures.LongestPrefix: events are their id and canonical JSON text; two records that print alike count as one event.
- GuestFrame.OnlyFramesDecode: base64 is the strict decoder of Python 3.11 and later, which does not check the unused bits of the last group.
- The evidence files that the monitor client writes while it reads, and the text it sends.
- SparseCopy.Copy: the source does not change meanwhile; ownership, mode, device and identity checks of both files are facts about the host.
- ReleaseCensus.Verify: answers of GitHub are functions, one per cache, so a run that changes between the two caches' own fetches is not modelled; neither are `select_run`, receipts and the re-reading of the census at the end.
- In the release census a null or missing text is the empty string, so the error a null workflow path would raise is a refusal here.
- RuntimeTree.Stage: names that the file system itself refuses, a component with a NUL or above its length limit, which validation lets through and staging then fails on; permission bits of directories, the second archive's own root, and the hashes returned.
- `pr_identity`: its result, the draft flag or nothing, is a parameter of `CiScope.Classify`; so is the UTF-8 decoding of the records.
- Process spawning, signals, sockets, containers, virtual machines, window systems, schema validators and report assembly.
