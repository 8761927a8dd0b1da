# torrent2http, modelled in Dafny

torrent2http serves byte ranges of a file that libtorrent is still downloading. This project
models the part of it that decides which bytes are handed out and which pieces are fetched,
and proves what that part promises.

* `Numbers.dfy` - Go's truncating division, exact ceilings, quotient lemmas.
* `Bitfield.dfy` - the packed bit array, as a sequence of booleans.
* `Layout.dfy` - files in the torrent and the ways the program turns a file into a piece range.
* `Swarm.dfy` - what other threads may do to the disk, the held pieces, the priorities and the
  open file; the byte-by-byte gated reader and its safety theorem.
* `Handle.dfy` - the shared handle and disk, with a schedule of everybody else's steps.
* `TorrentFile.dfy`, `Seek.dfy` - the open file: cached bitfield, wait, chunked read, seek.
* `Schedule.dfy`, `Session.dfy` - the priority schedules, file choice, the request handler.
* `Progress.dfy`, `Buffering.dfy` - buffer progress and when the reported buffer can be full.
* `IdleShutdown.dfy` - the connection counter as a protocol over a bounded channel.
* `Cleanup.dfy` - what is deleted on exit, and the pruning of empty directories.
* `Event.dfy` - the event latch, and what it keeps over any series of calls.
* `Runs.dfy` - concrete runs of an open file in which an expectation fails.

## How concurrency is modelled

An open file shares a `Handle` with everybody else. The handle carries a finite, arbitrary
schedule of turns; each turn is any number of steps by others (write a byte of a piece that is
not held, gain a piece whose bytes check out, change a priority, close or shut the file) together with
that moment's chances (whether 500 ms have passed, whether the torrent state is invalid, what the
padding bits of a status bitfield hold, how an underlying read goes). Reads,
waits, seeks and closes yield before each look at or change of the world (a poll looks at the
priority and the closed flag in one moment), and an underlying read yields before every single
byte; the scheduling functions of `Session.dfy` do not yield. A
contract that holds for every schedule holds for every interleaving. Once the schedule is used up
the others rest and time passes: every further look finds more than 500 ms gone. A wait that is
still polling then, with the file open and its piece wanted and missing, would go on for ever; the
model ends it with `Pending`. The idle counter and its handlers are a state machine over single steps, with a theorem over
every sequence of steps.

What is assumed of libtorrent and the system: a held piece stays held and is not rewritten; a
piece is taken only when its bytes are right; priorities and progress of pieces that do not exist
are 0 and ignored; an underlying read that reports an error transfers nothing; `os.Remove` removes
a directory only when it is empty.

## What the code really does where one might expect otherwise

* The end piece of the schedulers is the quotient of an exclusive end. A file that ends on a piece
  boundary gets one piece too many (`OvershootIsOnePiece`). When such a file also ends the
  torrent, that piece does not exist but its progress is tracked, so the reported buffer never
  reaches 1 (`BufferFillsUnlessFileEndsTorrent`, an if-and-only-if over every run).
* `getPieces` asks for byte 1 of the file instead of byte 0, and so starts one piece late when
  the file begins on the last byte of a piece (`RangesDisagreeOnlyAtBoundaries`).
* After a seek, pieces before the target have priority 0. A later seek back to a piece that is held
  does not lay priorities again, so a read from there can give up although the file is open
  (`SeekForthAndBack` is such a run). A read of wanted pieces gives up only because the file was
  closed, under every schedule that leaves priorities alone. While the others rest, the file is
  open and the read's first look is right - it refreshes the cache, or the cache shows just the
  held pieces - a read gives up exactly when the first missing piece of its range has priority 0
  (`Read`), and a range request exactly when moreover its target piece was held (`SeekThenRead`);
  no other look needs 500 ms before it.
* A wait looks only at the cache and the priority, so with a stale cache it can give up on a piece
  that is held (`HeldButGivenUp` is such a run). While the others rest it
  gives up exactly when the file is closed or the piece has priority 0, and the piece is missing or
  the cache was filled without it and neither of the two looks before the tick refreshes it
  (`WaitForPiece`). Whatever the cache, while the others rest a read of an open file gives up only
  at a piece of priority 0 that is missing or was not shown by the cache (`Read`).
* Scheduling or selecting one file while another is being read: the reader of the other file gives
  up exactly when its first missing piece is not in the plan, respectively was not wanted before
  and is not selected (`ScheduleThenRead`, `SelectThenRead`, under the same conditions).
* `Seek` relative to the end seeks the file on disk, whose length may be short of the file's size.
  It reaches the file's size plus the offset exactly when the file on disk has its full length, so
  always once the last piece is held (`Seek`); `SeekFromShortEnd` is a run that ends elsewhere.
* A handler that panics never sends its -1. Once its +1 has been read the idle shutdown is off for
  good (`CrashedRequestDisablesIdleShutdown`); before that it can still happen
  (`CrashBeforeReading`). Exactly: the idle branch can still fire in some continuation if and only
  if it is firing, or nobody has panicked, or the counter comes by 0 in what is still unread
  (`IdleCanFireIff`).
  The timer of the model may expire while messages wait. In Go a waiting message wins the `select`
  unless the timer, at least 1 s long (torrent2http.go:851), has also expired by the time the
  goroutine gets to run; `CrashBeforeReading` and the last of the three cases rest on such a stall.
* The idle branch can fire while a request is being served whose +1 is still in the channel
  (`IdleCanFireWhileServing`); nobody is being served exactly when the unread messages add up to 0
  (`FiringIsIdleIff`).
* The walk up in `removeFiles` ends exactly when the removed file's directory is at or below the
  download root (`WalkEndsIffBelowRoot`).
* The repository's README.md (line 35) gives the default of `-buffer` as 0.05; config.go:104 makes it
  `startBufferPercent`, which is 0.005. The model leaves the fraction free.

## Model

| member | source | states |
|---|---|---|
| Swarms.GatedBytesAreTrue | torrentfs.go:187-234 | safety over every run: whatever is written, gained, prioritised or closed in between, bytes handed out under the piece gate are the true bytes of the file, and none lies past its end |
| Swarms.UngatedReadsAreTrueIffHeld | torrentfs.go:200-211 | what the gate is for: a reader without it hands out the true bytes of a range in every run exactly when all pieces of the range are held to begin with |
| Swarms.PlayKeepsConsistency | torrentfs.go:155-162 | over any steps of others held pieces stay held and true and the disk never shrinks, which is why a stale cache is safe |
| Swarms.GatedStretchesJoin | torrentfs.go:197-231 | two consecutive gated reads are one gated read delivering the concatenation: the chunks compose |
| TorrentFiles.TorrentFile.UpdatePieces | torrentfs.go:118-141 | refreshed when never filled or 500 ms old and the torrent state valid, refused when the state is then invalid, else left alone; a fresh cache agrees with the held set on every piece and is long enough for all of them |
| TorrentFiles.TorrentFile.HasPiece | torrentfs.go:155-162 | true exactly when the update was not refused and the cache, then refreshed or left alone, shows the piece; a true answer from the possibly stale cache means the piece is held now |
| TorrentFiles.TorrentFile.WaitForPiece | torrentfs.go:164-185 | for every schedule: returns success only with the piece held; gives up only on a closed file or priority 0; goes on for ever only at rest with the file open and the piece wanted and missing; on the way no two refreshing turns in a row pass with the piece held, nor, after the first look, two turns with the file closed or the priority 0; a wait bound to fail does not outlast one tick; while the others rest it gives up exactly when it is bound to fail and the piece is missing or is held but overlooked by both looks before the tick; deadlines i - 100 * piece for the piece and the two behind it, unless the first look finds it |
| TorrentFiles.TorrentFile.NextChunk | torrentfs.go:195-207 | the chunk starts in the piece at hand, never crosses into the next, and is cut only at the piece boundary |
| TorrentFiles.TorrentFile.ReadPieces | torrentfs.go:193-231 | the chunked loop is a run of the byte-by-byte gated reader and fills the buffer with exactly what that run delivers; it terminates on every schedule |
| TorrentFiles.TorrentFile.Read | torrentfs.go:187-234 | in every interleaving data[..n] are the true bytes at the old position, the rest of the buffer is untouched, the position advances by n; end of file only at the true end; success means a full buffer unless an underlying read returned nothing; a read of wanted pieces gives up only because the file was closed; it goes on for ever only when the others rest with the file open and the piece at hand wanted and missing; while the others rest and its first look is right it hands out what lies before the first missing piece, and gives up exactly when that piece has priority 0; whatever the cache it then gives up only at a piece of priority 0 that is missing or was not shown |
| TorrentFiles.TorrentFile.LayPriorities | torrentfs.go:245-271 | in numbers: 7 on the target piece and half a percent of the file behind it but not on the file's last piece, 1 on the rest of the file from the target on, 0 elsewhere; exactly the pieces at 7 got deadline 0 |
| TorrentFiles.TorrentFile.Seek | torrentfs.go:236-287 | new position for all three origins, refused for a negative target or a shut file; from the end it is the file's size plus the offset exactly when the file on disk has its full length, as it has once the last piece is held; priorities are laid exactly when the target piece is missing from a right cache; they are 7, 1 and 0 as computed from offset, size and piece length, and until somebody changes them a wait for an earlier piece is bound to fail |
| TorrentFiles.TorrentFile.SeekThenRead | torrentfs.go:239-272 | a range request inside the file returns true bytes and never sees an early end of file; if it laid priorities or the range was wanted before, it gives up only because the file was closed; while the others rest, the file is open and its first look is right it gives up exactly when its target piece was held and the first missing piece had priority 0 |
| Runs.SeekForthAndBack | torrentfs.go:243-272 | a run with three pieces in which a seek back to a held piece is followed by a read that gives up though the file is open; only the first look refreshes the cache |
| Runs.HeldButGivenUp | torrentfs.go:164-185 | a run in which a wait gives up on a held piece of priority 0 of an open file, whose arrival its looks within 500 ms do not see |
| Runs.SeekFromShortEnd | torrentfs.go:236-287 | a run in which a seek to the end of a file with nothing on disk ends at position 0 |
| TorrentFiles.TorrentFile.Close | torrentfs.go:289-300 | marks the file, then shuts the file underneath, whose error it returns; a second close changes nothing and returns none |
| Seeking.SeekVector | torrentfs.go:258-270 | length and every entry of the vector, and the pieces given a deadline, in closed form, for all integer inputs the caller can produce |
| Seeking.SeekPlanOnNumbers | torrentfs.go:241-271 | what a seek plans for any piece, computed from offset, size and piece length alone: 7 on q = piece and on q - piece < 0.005 * (last - first), below the last piece; 1 up to the last piece; else 0 |
| Seeking.PlanVector | torrentfs.go:248-271 | from range and target to the vector: every entry is the plan's, there is one for each piece at least, and the hurried pieces are exactly those planned at 7 |
| Seeking.InFileVectorFits | torrentfs.go:258-270 | for a seek into the file the vector has exactly numPieces entries; in general exactly when neither target nor last piece lies behind them all |
| Seeking.SeekCoversTheRest | torrentfs.go:241-271 | after a seek into the file wanted are exactly the pieces from the target's to the file's last, so a byte is wanted exactly when it is not before the target piece |
| Seeking.SeekHurriesTheTarget | torrentfs.go:251-264 | the urgent stretch is min(max(1, ceil(0.5%)), pieces before the last) long from the target, which is urgent exactly when it is not the file's last piece |
| Layouts.RangesDisagreeOnlyAtBoundaries | torrent2http.go:1273-1278 | for non-empty files, both range computations against the pieces really occupied: each is off by one exactly at its boundary case |
| Bitfields.SetBit | bitfield.go:31-41 | exactly one logical bit changes, out-of-range writes do nothing |
| Bitfields.GetBit | bitfield.go:44-50 | reads the logical bit, false when out of range |
| Bitfields.String | bitfield.go:53-64 | one character per bit, '1' or '0', and reading the digits back gives the bytes |
| Bitfields.WithBitSetsOneBit | bitfield.go:31-41 | setting a bit of the bytes is setting one boolean; neighbours in the byte stay |
| Bitfields.BitfieldRefinesBooleans | bitfield.go:31-50 | over any series of writes the bytes refine a sequence of booleans |
| Bitfields.LastWriteStands | bitfield.go:31-50 | after any series of writes a bit is what the last write to it made it, or what it was |
| Bitfields.NegativeIndicesAlias | bitfield.go:31-41 | for indices -7..-1, which Go's truncation maps into the first byte, the boolean view fails exactly when the aliased bit changes |
| Bitfields.StringIsInvertible | bitfield.go:53-64 | the string determines the bytes |
| Schedules.HeadTailVector | torrent2http.go:1379-1400 | length and every entry of the vector, and the set of hurried pieces, in closed form, head and tail overlapping or not |
| Schedules.PlanOnNumbers | torrent2http.go:1358-1400 | the priority of any piece computed from offset, size, piece length and buffer alone: exactly 7 on the head of buffer times the span and on the tail of 10 MiB, exactly 1 on the rest of the file, exactly 0 elsewhere |
| Schedules.HeadIsUrgent | torrent2http.go:1360-1363 | every byte up to buffer times the size from the start lies in a piece of priority 7, for every alignment and every buffer value |
| Schedules.TailIsUrgent | torrent2http.go:1364-1365 | each of the last min(size, 10 MiB) bytes lies in a piece of priority 7 |
| Schedules.WholeFileIsWanted | torrent2http.go:1379-1396 | for every buffer value each byte of the scheduled file lies in a piece with positive priority |
| Schedules.OvershootIsOnePiece | torrent2http.go:1360-1400 | wanted pieces are those the file occupies plus one exactly when it ends on a boundary; the vector has numPieces entries, or one more exactly when the file also ends the torrent |
| Schedules.SelectionsInTurn | torrent2http.go:556-574 | over any sequence of small-file selections: last range at 7, other wanted pieces at 1, wanted set the initial one with all ranges |
| Schedules.SelectionRepeats | torrent2http.go:556-574 | repeating a selection changes nothing |
| Sessions.Session.PrioritizePieces | torrent2http.go:1354-1401 | pieces at 7, keys of the progress map and pieces given deadline 0 are one set; all progress starts at 0; libtorrent's priorities are the vector, which is computed from the file's offset and size, the piece length and the buffer: the middle of the file stays at 1, untracked and without deadline |
| Sessions.Session.SelectSmallFile | torrent2http.go:556-574 | pieces offset / length through (offset + size) / length at 7 with deadline 0, other wanted pieces at 1 with deadline 1000, the rest untouched |
| Sessions.Session.ScheduleThenRead | torrent2http.go:1354-1401 | after scheduling one file, a read anywhere inside any file returns true bytes; in the scheduled file, while nobody else changes priorities, it gives up only because the file was closed; in any file, undisturbed, exactly when its first missing piece is not in the plan |
| Sessions.Session.SelectThenRead | torrent2http.go:556-574 | the same for the selection of a small file: undisturbed, a read of any file gives up exactly when its first missing piece was not wanted before and is not selected |
| Sessions.Session.PrioHandler | torrent2http.go:531-578 | every branch: nothing asked, all files started, big file scheduled with its tracked pieces and deadlines, small file selected with its deadlines |
| Sessions.Session.ChooseFile | torrent2http.go:1225-1255 | the configured file if it is a candidate, else the first of the biggest, -1 exactly when no file has bytes |
| Sessions.Session.OnMetadataReceived | torrent2http.go:1318-1352 | the chosen index is the one the choice promises; file priorities 4 for all, 0 for all, or 7 for the chosen and 0 for the others; priorities, deadlines and tracked pieces of the schedule, unless all or none were asked for |
| Sessions.Session.PiecesProgress | torrent2http.go:1420-1441 | the in-place refresh, keys in any order, is the function whose runs are studied |
| Sessions.Session.BufferProgress | torrent2http.go:408-421 | after a refresh the report times the number of tracked pieces is the sum of their values; 0 when checking or nothing is tracked |
| Progress.ValueAfterOneLook | torrent2http.go:1424-1440 | a tracked value after a look: 1 exactly when it was 1 or the piece is held or has an entry with all its blocks; else times the blocks of its last entry it is the finished ones; else what it was |
| Progress.ProgressOverRuns | torrent2http.go:1420-1441 | over any run of refreshes the keys stay, values stay in [0,1], and a value is 1 exactly when it was 1 or the piece was at some look held or had all blocks |
| Progress.AverageIsOneWhenAllAre | torrent2http.go:411-418 | the average is in [0,1] and is 1 exactly when every tracked value is |
| Progress.TotalWithout | torrent2http.go:415-417 | the sum does not depend on the order of the keys |
| Buffering.BufferFillsUnlessFileEndsTorrent | torrent2http.go:1378-1396 | over every run the report reaches 1 exactly when every tracked piece completed and the file does not end the torrent on a piece boundary |
| IdleShutdown.RunKeepsInvariant | torrent2http.go:780-802 | every run of any number of handlers keeps the protocol's invariant |
| IdleShutdown.ConnectionsAreConserved | torrent2http.go:780-802 | counter plus unread messages equals requests that sent +1 and not -1; the counter equals the requests open in what was read; when the idle branch fires each of those is answered |
| IdleShutdown.CounterNeverNegative | torrent2http.go:788-802 | after every consumed prefix the count is not negative, and is 0 exactly when all heard-of requests are answered |
| IdleShutdown.IdleCanFireIff | torrent2http.go:780-802 | the idle branch can fire in some continuation of a run if and only if it is firing, or no handler has panicked, or the counter comes by 0 in what is still unread |
| IdleShutdown.CrashedRequestDisablesIdleShutdown | torrent2http.go:781-785 | after a handler panics with its +1 read, the counter stays positive and the idle branch never fires, in every continuation |
| IdleShutdown.CrashAfterReading | torrent2http.go:781-799 | such a state is reachable |
| IdleShutdown.CrashBeforeReading | torrent2http.go:781-797 | a run in which the idle branch fires after a panic, the +1 still unread |
| IdleShutdown.FiringIsIdleIff | torrent2http.go:791-797 | in every run, while the idle branch fires nobody is being served exactly when the unread messages add up to 0 |
| IdleShutdown.IdleCanFireWhileServing | torrent2http.go:791-797 | a run in which the idle branch fires during a request |
| IdleShutdown.HandlersOnTheChannel | torrent2http.go:780-786 | in every run: a request that starts sends +1 and one that returns -1 unless ten messages wait, when it blocks; one that panics sends nothing |
| IdleShutdown.InactiveAutoShutdown | torrent2http.go:788-802 | the counting loop over any schedule, with every state it passes: it sends the shutdown message it holds when there is room, else fires exactly when its counter is 0 and the timer has expired, else receives one message; it is the protocol's run over its steps, and its local variable counts the requests open in what it received |
| Cleanup.PruningIsConfinedAndComplete | torrent2http.go:660-666 | the walk up removes only what lies on it strictly below the root, and leaves no removable empty folder on it |
| Cleanup.RemovalIsConfinedAndComplete | torrent2http.go:654-669 | over any list below the root: nothing else is touched, the root stays, unlisted files stay, a folder goes only above a listed file that went, and above whatever went no removable empty folder is left |
| Cleanup.FolderSurvivesIff | torrent2http.go:659-666 | a folder above anything that went survives exactly when it cannot be removed or still holds something |
| Cleanup.FileGoesIffListed | torrent2http.go:655-658 | a removable file is gone exactly when it is listed |
| Cleanup.WalkEndsIffBelowRoot | torrent2http.go:663-666 | the walk meets the root exactly when it starts at or below it |
| Cleanup.FileSystem.RemoveFiles | torrent2http.go:654-669 | the two nested loops compute the function studied above |
| Cleanup.FilesToRemove | torrent2http.go:621-644 | lists exactly the existing files that are forced out, or complete (downloaded = size) without keepComplete, or incomplete without keepIncomplete |
| Cleanup.RemoveTorrent | torrent2http.go:699-718 | a torrent file survives exactly when not forced and the torrent is being checked, or keepFiles, or downloaded = size with keepComplete, or downloaded differs from size with keepIncomplete; everything outside the root and every other file stays; where files are removed one by one, folders above them stay exactly when locked or not empty |
| Events.LatchOverRuns | event.go:29-80 | after any series of calls the latch is on exactly when the last write turned it on, no channel was closed twice, closed are all channels made save a present one while it is off, and as many as the times it was turned on |
| Events.WaitersWakeIffTurnedOn | event.go:29-59 | a channel made so far is closed after more calls exactly when it was closed before or one of them turns the event on |
| Events.Event.C | event.go:29-34 | hands out the present channel, closed exactly when the event is on; the latch's step |
| Events.Event.Set | event.go:46-59 | first exactly when it was off; afterwards every channel ever handed out is closed, none twice; the latch's step |
| Events.Event.Clear | event.go:38-43 | turns off and forgets the closed channel, or changes nothing; the latch's step |
| Events.Event.SetBool | event.go:74-80 | the event is as asked; the latch's step |
| Events.Event.IsSet | event.go:61-65 | true exactly when the present channel exists and is closed, which is when the last write turned it on |

## Left out

- libtorrent itself, HTTP routing, JSON, flags, logging, alerts, trackers, resume data: not modelled; libtorrent is a held-piece set, priorities, deadlines and a partial-piece queue.
- What libtorrent does to piece priorities on `FilePriority`, `PrioritizeFiles` or `SetPieceDeadline`: its reaction is not part of this model; file priorities are recorded only.
- Wall-clock time and tickers: replaced by arbitrary choices of the schedule.
- Floating point: ceilings and averages are over exact reals; a product that float64 rounds up across an integer could add one piece.
- Integer widths: piece indices and offsets are unbounded, the code's conversions between int64 and int are taken as lossless.
- The unsafe slice in `updatePieces`: a copied snapshot with arbitrary padding bits; memory lifetime is not modelled.
- Opening and unlocking the file on disk; errors of the file underneath other than failed reads and use after it was shut.
- Indices of -8 and below for the bitfield: Go panics; they are outside the preconditions of `SetBit`, `GetBit`, `HasPiece` and of seeks from the start.
- Concurrent calls on one open file, or of the request handler: each object is driven by one caller while the others act only through the handle.
- `handleSignals`, `shutdown` and process exit: the shutdown channel appears only as what the counter's message waits for.
- `LockedChan`, `Wait` and unsynchronised concurrent use of `Event`: sequential use only.
- Path strings: paths are component sequences without `..`; separators and `filepath.Abs` are not modelled.
- A torrent without metadata: its file list is empty, so the keep rule says nothing about its files.
- Sessions.Session.PrioHandler: an index that is no file of the torrent is outside the precondition, as the code passes it unchecked to libtorrent.
