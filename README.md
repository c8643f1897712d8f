# go-storage-server blob lifecycle core, in Dafny

This project models the core of a single-node blob store written in Go. It
covers:

- **Status log** (`challenge/pkg/blob/blob.go`). A blob's `BlobStatus` is a
  16-slot circular log of timestamped statuses with a write cursor.
  - `getAndIncIdx` and `addStatusLog` write to it.
  - `lastIndex`, `LastStatus`, `String` and `DumpLog` read it.
  - `BlobStatus.DeepCopy` and `Blob.DeepCopy` copy it.
  - `LogStatus`, `LogStatusOK` and `LogStatusPending` append an entry.
- **Status codes** (`challenge/pkg/blob/status.go`). The three named codes,
  the two constructors and the two renderings.
- **State-line parsing**:
  - `ParseBlob` in `challenge/pkg/blob/blob.go`;
  - `FilterBlobDir`, `FindBlobStateFile` and `ReadStateFile` in
    `challenge/daemon/daemon/state.go`.
- **The start-up restore pass and the garbage-collection pass**:
  - `RestoreState` and `cleanUp` in `challenge/daemon/daemon/state.go`;
  - `gcInternal` in `challenge/daemon/daemon/gc.go`.

  Both classify the blobs found on disk by their last status. Restore turns
  Pending into Failure, lists Pending and Failure blobs as failed, indexes
  and counts OK blobs, and leaves any other code alone. GC hands exactly the
  Failure blobs to `cleanUp`.
- **The in-memory index** (`challenge/daemon/daemon/blob.go`). `insertBlob`
  and `lookupBlob` work on the single `location → Blob` map. The four public
  operations are stubs that return `nil`.

Files and modules:

| file | module | what |
|---|---|---|
| `wrappers.dfy` | `Wrappers` | `Option` and `Result` |
| `strings.dfy` | `Strings` | `strings.Split` on one character, `Join`, `Contains` |
| `status.dfy` | `StatusCodes` | `status.go` |
| `blob.dfy` | `Blobs` | `blob.go` |
| `state.dfy` | `State` | the pure parts of `state.go`: ids, listings, the state line |
| `daemon.dfy` | `Daemons` | the `Daemon` class with `blobsMap`, the index, the restore and GC passes, and the data directory |

**How the model is built:**

- `BlobStatus`, `Blob`, `Daemon` and the data directory are classes, because
  the source updates their fields in place.
- A status log's slots are a `seq<Option<StatusLog>>`. A nil entry in the
  Go slice is `None`.
- The ring invariant is `ValidRing`:
  - at most 16 slots;
  - the cursor lies in `[0, 16)`;
  - while the log is filling, the cursor equals its length.
- `Contents()` is the chronological view of the log. Every write is proved
  to keep the invariant and to append to that view, keeping the last 16
  entries.
- The restore pass is specified against a function `Pass` over the
  candidates' last statuses on entry. Lemmas prove what `Pass` computes:
  - the OK count;
  - the Pending and Failure blobs, in order;
  - the index after inserting the OK blobs, in order.

**What the code does, as modelled:**

- The index is one map, keyed by location. Blobs are not indexed by id, and
  no ids are allocated.
- `GetBlob`, `CreateBlob`, `UpdateBlob` and `DeleteBlob` are stubs that
  always succeed and touch nothing.
- The log capacity is the constant 16.
- `ReadStateFile` returns the first newline-terminated line that contains
  the prefix, newline included. Text after the last newline is never
  returned.
- The restore pass reads the candidates in order. It stops at the first
  Pending candidate whose state file cannot be rewritten, and never looks at
  the candidates after it.

## Model

| member | source | states |
|---|---|---|
| StatusCodes.NamedCodesDistinct | challenge/pkg/blob/status.go:23-29 | OK, Failure and Pending are 0, -1 and -2, pairwise distinct |
| StatusCodes.NewStatusOK | challenge/pkg/blob/status.go:31-33 | the status has code OK and message `info`; it renders as "OK", or "OK - info" when `info` is non-empty |
| StatusCodes.NewStatusPending | challenge/pkg/blob/status.go:35-37 | the status has code Pending and message `info`; it renders as "Pending", or "Pending - info" when `info` is non-empty |
| StatusCodes.CodeText | challenge/pkg/blob/status.go:44-57 | the text is "Unknown code" exactly for values other than the three named codes; it is never empty |
| StatusCodes.CodeTextInjective | challenge/pkg/blob/status.go:44-57 | distinct named codes render differently, and none renders as "Unknown code" |
| StatusCodes.StatusTextParts | challenge/pkg/blob/status.go:59-64 | a status renders as its code's text, then nothing for an empty message or " - " plus the message otherwise |
| StatusCodes.StatusTextDeterminesMsg | challenge/pkg/blob/status.go:59-64 | for a given code, the rendering determines the message |
| Strings.Split | challenge/pkg/blob/blob.go:204 | the pieces number one more than the separators, hold no separator, and join back to the input |
| Strings.SplitPair | challenge/pkg/blob/blob.go:204-207 | a string with exactly one ':', between `p` and `e`, splits into exactly `[p, e]` |
| Strings.Contains | challenge/daemon/daemon/state.go:147 | a string that begins with `sub` contains it, and a string that contains `sub` is at least as long |
| Strings.ContainsOccurs | challenge/daemon/daemon/state.go:147 | `Contains(s, sub)` holds exactly when `sub` sits at some position of `s` |
| Strings.JoinSnoc | challenge/pkg/blob/blob.go:121 | one part joins to itself, and joining one more part appends the separator and that part, so the parts appear in order with the separator between neighbours |
| Blobs.PrevSlot | challenge/pkg/blob/blob.go:56-62 | for a cursor in range, the last written slot is in range and is the cursor's predecessor modulo 16 |
| Blobs.NextIndex | challenge/pkg/blob/blob.go:64-71 | for a cursor in range, the new cursor is `(old + 1) mod 16`, so it stays in range |
| Blobs.LastStatusAt | challenge/pkg/blob/blob.go:94-102 | an empty log reads OK; on a valid ring the result is the code of the chronologically last slot |
| Blobs.ValidRingUsable | challenge/pkg/blob/blob.go:73-80 | on a valid ring, a write and a read of the last slot stay inside the log |
| Blobs.AddSlotKeepsRing | challenge/pkg/blob/blob.go:73-80 | one write keeps the ring valid, appends the entry to the chronological contents keeping the last 16, and makes it the last status |
| Blobs.ReplayKeepsLast | challenge/pkg/blob/blob.go:73-80 | after any sequence of writes to an empty log, the log holds exactly the last 16 of them, oldest first |
| Blobs.OverflowDropsOldest | challenge/pkg/blob/blob.go:73-80 | after 16 + k writes, the k oldest are gone and exactly the other 16 remain, in order |
| Blobs.VisitAt | challenge/pkg/blob/blob.go:106-109 | step k of the dump's walk visits slot `index - 1 - k`, wrapped into the ring |
| Blobs.WalkWraps | challenge/pkg/blob/blob.go:106-109 | step k of the walk is `(index - 1 - k) mod 16` |
| Blobs.WalkNext | challenge/pkg/blob/blob.go:106-116 | the walk reaches the cursor exactly at its 16th step, and otherwise moves to the previous slot, wrapping from 0 to 15 |
| Blobs.VisitOrderShape | challenge/pkg/blob/blob.go:104-117 | the walk has 16 steps; it starts at `lastIndex`, goes backwards modulo 16 and ends at the cursor; it visits every slot exactly once |
| Blobs.VisitReadsNewestFirst | challenge/pkg/blob/blob.go:104-117 | on a valid ring, the slots the walk reads are the chronological contents reversed |
| Blobs.DumpStep | challenge/pkg/blob/blob.go:110-113 | one step of the walk adds the line of the visited slot exactly when that slot is inside the log and not nil |
| Blobs.DumpTurn | challenge/pkg/blob/blob.go:110-113 | one turn of the loop at step k: the lines so far grow by the line of slot `Walk(index, k)` exactly when that slot is inside the log and not nil |
| Blobs.DumpLines | challenge/pkg/blob/blob.go:105-117 | the loop's lines are the renderings of the walk's non-nil slots, in walk order |
| Blobs.DumpShows | challenge/pkg/blob/blob.go:104-122 | on a valid ring the dump lists the entries newest first; when every slot is nil it is the text of OK |
| Blobs.BlobStatus.constructor | challenge/daemon/daemon/blob.go:64 | an empty log is a valid ring with no contents |
| Blobs.BlobStatus.LastIndex | challenge/pkg/blob/blob.go:56-62 | the last written slot is in range and the cursor's predecessor modulo 16 |
| Blobs.BlobStatus.GetAndIncIdx | challenge/pkg/blob/blob.go:64-71 | returns the old cursor; the new cursor is `(old + 1) mod 16`, in range |
| Blobs.BlobStatus.AddStatusLog | challenge/pkg/blob/blob.go:73-80 | appends while short, otherwise overwrites the slot under the cursor; on a valid ring it keeps the ring valid, the contents become the last 16 of old contents plus the entry, and `LastStatus` is the new entry's code |
| Blobs.BlobStatus.LastStatus | challenge/pkg/blob/blob.go:92-102 | OK on an empty log; on a valid ring, the code of the entry written last |
| Blobs.BlobStatus.Text | challenge/pkg/blob/blob.go:82-90 | the text of the last status |
| Blobs.BlobStatus.DumpLog | challenge/pkg/blob/blob.go:104-122 | the loop renders the walk's non-nil slots in order; on a valid ring that is the entries newest first; with no entries it is the text of OK |
| Blobs.BlobStatus.DeepCopy | challenge/pkg/blob/blob.go:124-132 | a fresh log with the same cursor and the same slots in the same order |
| Blobs.Blob.DeepCopy | challenge/pkg/blob/blob.go:134-148 | a fresh blob with the same id and location; its status is a fresh copy when the original has one, nil otherwise |
| Blobs.Blob.LogStatus | challenge/pkg/blob/blob.go:155-164 | writes `{code, msg}` at time `now`; on a valid ring the contents grow by that entry and the last status becomes `code` |
| Blobs.Blob.LogStatusOK | challenge/pkg/blob/blob.go:166-172 | as `LogStatus` with `NewStatusOK(msg)`; the last status becomes OK |
| Blobs.Blob.LogStatusPending | challenge/pkg/blob/blob.go:174-180 | as `LogStatus` with `NewStatusPending(msg)`; the last status becomes Pending |
| Blobs.ParseBlob | challenge/pkg/blob/blob.go:202-213 | fails with an invalid-format error exactly when the line does not hold exactly one ':' |
| Blobs.ParseBlobHandsPayload | challenge/pkg/blob/blob.go:204-212 | for `p:e` with no other ':', exactly `e` reaches the decoder; the result is its value, or a decode error |
| State.Itoa | challenge/daemon/daemon/state.go:200 | the shortest decimal form: non-empty digits with the number's value and no leading zero |
| State.ItoaRoundTrip | challenge/daemon/daemon/state.go:34 | the decimal form of any 16-bit id parses back to that id |
| State.ParseUint16 | challenge/daemon/daemon/state.go:34 | an accepted name is non-empty and all decimal digits (no sign), and its value is at most 65535 |
| State.LeadingZeroNotCanonical | challenge/daemon/daemon/state.go:34 | for every 16-bit id n, "0" followed by `Itoa(n)` is accepted as n, yet it is not `Itoa(m)` for any m, so it is never a directory `cleanUp` names |
| State.FilterBlobDir | challenge/daemon/daemon/state.go:29-40 | keeps at most as many names as there are entries |
| State.FilterBlobDirMembers | challenge/daemon/daemon/state.go:29-40 | every directory named by a 16-bit decimal id is kept; every kept name is such a directory's name and parses as an id |
| State.FilterBlobDirAppend | challenge/daemon/daemon/state.go:32-38 | filtering a concatenation filters each part and keeps their order |
| State.FilterBlobDirOne | challenge/daemon/daemon/state.go:33-37 | a single entry is kept exactly when it is a directory named by a 16-bit id |
| State.BlobDirIsKept | challenge/daemon/daemon/state.go:200 | the directory `cleanUp` removes for an id is one `FilterBlobDir` keeps |
| State.JoinPath | challenge/daemon/daemon/state.go:125 | an empty base gives the name; otherwise the base, a '/' and the name; the path always ends with the name |
| State.FindBlobStateFile | challenge/daemon/daemon/state.go:120-129 | `basePath` joined with the state file name when some entry has that name, "" when none does |
| State.FindBlobStateFileEmpty | challenge/daemon/daemon/state.go:122-129 | for a non-empty file name, "" exactly when no entry has that name |
| State.NextNewline | challenge/daemon/daemon/state.go:140 | the position of the first newline, or none when there is no newline |
| State.LinesComplete | challenge/daemon/daemon/state.go:139-150 | each line read ends with its newline and holds no other |
| State.LinesCoverPrefix | challenge/daemon/daemon/state.go:139-150 | the lines read make up a prefix of the file, and what is left holds no newline |
| State.FirstMatch | challenge/daemon/daemon/state.go:147-149 | the first line that contains the prefix, or none when no line does |
| State.StateLineIsFirstMatchingLine | challenge/daemon/daemon/state.go:131-151 | "" exactly when no complete line contains the prefix, else the first complete line that does |
| State.UnterminatedLineIgnored | challenge/daemon/daemon/state.go:140-143 | a file without a newline yields "" whatever it holds |
| State.StateLineStep | challenge/daemon/daemon/state.go:139-150 | at end of file the result is ""; a matching line is the result; any other line is skipped |
| State.ReadStateFile | challenge/daemon/daemon/state.go:131-151 | an open failure for a missing path; otherwise the first complete line containing the prefix, or "" |
| State.StateFileRoundTrip | challenge/daemon/daemon/state.go:182-187 | a state file whose first line is `prefix version:enc` yields that line, newline included, and `ParseBlob` gives back the blob the decoder reads from `enc` followed by that newline |
| Daemons.DataDir.RemoveAll | challenge/daemon/daemon/state.go:201 | succeeds exactly when the directory's removal does not fail; on success it is gone, otherwise it stays |
| Daemons.BlobDir | challenge/daemon/daemon/state.go:200 | a blob's directory name parses back to its id |
| Daemons.CountRemovable | challenge/daemon/daemon/state.go:197-218 | at most as many removals succeed as there are blobs |
| Daemons.CountRemovableAll | challenge/daemon/daemon/state.go:208-216 | every removal succeeds exactly when no blob's directory is faulty |
| Daemons.CountRemovableNone | challenge/daemon/daemon/state.go:208-216 | no removal succeeds exactly when every blob's directory is faulty |
| Daemons.RemovedDirsMembers | challenge/daemon/daemon/state.go:199-206 | a directory is removed exactly when it belongs to one of the blobs and its removal does not fail |
| Daemons.IndexInsertLookup | challenge/daemon/daemon/blob.go:67-69 | a non-empty location maps to the inserted blob; every other key is unchanged; an empty location changes nothing |
| Daemons.IndexAllLookup | challenge/daemon/daemon/state.go:99-100 | after inserting a sequence of blobs, a location maps to the last blob inserted there, or to what it mapped before when none was |
| Daemons.PickCount | challenge/daemon/daemon/state.go:89-98 | the picked blobs number exactly the wanted codes, so the failed list is as long as there are Pending and Failure codes |
| Daemons.PickMembers | challenge/daemon/daemon/gc.go:56-66 | every blob whose code is wanted is picked, and only such blobs |
| Daemons.PickExact | challenge/daemon/daemon/gc.go:56-66 | with no blob repeated, a blob is picked exactly when its code is wanted |
| Daemons.PickDisjoint | challenge/daemon/daemon/state.go:88-107 | picks by disjoint code sets never share a blob |
| Daemons.Reach | challenge/daemon/daemon/state.go:87-95 | the pass reaches the end, or stops just past the first Pending candidate whose rewrite fails; every candidate it reaches has a readable log, writable when Pending |
| Daemons.FullOKLogRestorable | challenge/daemon/daemon/state.go:88-102 | an OK candidate whose full log cannot be written is still fit for restoring, since the pass only reads it |
| Daemons.StopIgnoresRest | challenge/daemon/daemon/state.go:93-95 | when the first candidate stops the pass, nothing is asked of the candidates after it |
| Daemons.ReachedStop | challenge/daemon/daemon/state.go:87-95 | the reached candidates are readable, and the pass stops at the last of them or runs to the end |
| Daemons.ReachedSnapshot | challenge/daemon/daemon/state.go:87-108 | on entry, the reached candidates' distinct logs are described by their slots, cursors and last statuses, and none is marked yet |
| Daemons.FirstWriteFailure | challenge/daemon/daemon/state.go:93-95 | the pass stops at the first Pending blob whose state file cannot be rewritten, or at the end |
| Daemons.RestoreFailEntry | challenge/daemon/daemon/state.go:92 | the entry written for a Pending blob has code Failure and the current time |
| Daemons.MarkedLogFails | challenge/daemon/daemon/state.go:89-92 | a marked Pending log that was a valid ring is still one, and its last status is Failure |
| Daemons.MarkedInvalidRingReadsOK | challenge/daemon/daemon/state.go:88-92 | on the log OK, Pending, OK with cursor 2, which is not a valid ring, the pass reads Pending and marks it, and the last status read afterwards is OK |
| Daemons.LogsAreCandidates | challenge/daemon/daemon/state.go:87 | a set of logs holding every candidate's log, with as many members as there are candidates that share no log, holds nothing else |
| Daemons.Classify | challenge/daemon/daemon/state.go:88-107 | OK is indexed; Failure, and Pending whose rewrite succeeds, are marked failed; Pending whose rewrite fails stops the pass; every other code is ignored |
| Daemons.PassRestored | challenge/daemon/daemon/state.go:99-101 | after k candidates, `restored` is the number of OK ones |
| Daemons.PassFailed | challenge/daemon/daemon/state.go:89-98 | after k candidates, the failed list is the Pending and Failure ones, in order |
| Daemons.PassIndexed | challenge/daemon/daemon/state.go:99-100 | after k candidates, the index is the entry index with the OK ones inserted in order |
| Daemons.PassTotals | challenge/daemon/daemon/state.go:87-108 | the pass's count, failed list and index, all three at once |
| Daemons.PassSortsCandidate | challenge/daemon/daemon/state.go:87-107 | with no candidate repeated, a visited candidate is failed exactly when Pending or Failure, and indexed exactly when OK; so one with another code is neither |
| Daemons.Daemon.constructor | challenge/daemon/daemon/daemon.go:45-48 | the index starts empty |
| Daemons.Daemon.GetBlob | challenge/daemon/daemon/blob.go:17-28 | always returns no error and changes nothing |
| Daemons.Daemon.CreateBlob | challenge/daemon/daemon/blob.go:30-39 | always returns no error and changes nothing |
| Daemons.Daemon.UpdateBlob | challenge/daemon/daemon/blob.go:41-45 | always returns no error and changes nothing |
| Daemons.Daemon.DeleteBlob | challenge/daemon/daemon/blob.go:47-51 | always returns no error and changes nothing |
| Daemons.Daemon.LookupBlob | challenge/daemon/daemon/blob.go:53-59 | the blob mapped at the location, and nil exactly when the location is not a key |
| Daemons.Daemon.InsertBlob | challenge/daemon/daemon/blob.go:61-70 | a nil status becomes a fresh empty log, whose last status is OK; the index gets the location mapped to the blob unless the location is empty; a lookup then finds the blob |
| Daemons.Daemon.CleanOne | challenge/daemon/daemon/state.go:199-216 | one turn of the loop: one more removal is attempted; the count and the removed directories grow exactly when it succeeds |
| Daemons.Daemon.CleanUp | challenge/daemon/daemon/state.go:197-218 | one removal is attempted per blob, in order; the count is the number that succeed; exactly those directories are gone |
| Daemons.Daemon.SelectFailed | challenge/daemon/daemon/gc.go:56-66 | the candidates whose last status is Failure, in scan order |
| Daemons.Daemon.GcInternal | challenge/daemon/daemon/gc.go:42-70 | the Failure candidates, in order, go to `cleanUp`; with none it changes nothing; the index is untouched |
| Daemons.Daemon.RestoreOne | challenge/daemon/daemon/state.go:88-107 | one candidate: marks its log when Pending, and updates the counters and the index as `Visit` does, unless its rewrite fails |
| Daemons.Daemon.RestoreStep | challenge/daemon/daemon/state.go:87-108 | one turn of the loop: the visited log is marked when Pending and no other reached log changes; the counters and the index follow `Visit` unless the rewrite fails |
| Daemons.Daemon.RestorePass | challenge/daemon/daemon/state.go:87-108 | the loop stops with an error at the first failed rewrite; its counters and index are `Pass` up to there; each Pending log up to and including there is marked |
| Daemons.Daemon.RestoreAndClean | challenge/daemon/daemon/state.go:87-115 | the pass as `RestorePass`; then cleanup removes the failed blobs' directories when requested and the pass completes, and the data directory is untouched otherwise |
| Daemons.Daemon.RestoreState | challenge/daemon/daemon/state.go:46-118 | the pass reaches the candidates up to the first failed rewrite, or all; the error names that candidate; the counters and index are `Pass`; each reached Pending log up to the stop is marked; cleanup removes the failed blobs' directories only when requested and the pass completes; only the reached candidates' logs may change, so with no candidates nothing changes |

## Left out

- I/O is replaced by values and parameters:
  - A directory listing is a `seq<FileInfo>`.
  - File contents are a `map<string, string>`.
  - The blobs `readBlobsFromDirNames` yields are an input sequence of candidates.
  - Whether `writeBlobStateFile` fails is a set `writeFails` of blobs.
  - Whether `os.RemoveAll` fails is the data directory's `faulty` set.
  - The data written to the state file is not modelled.
- `readBlobsFromDirNames`: not modelled, because it only does I/O. That covers its second `ReadDir` attempt and its skipping of unreadable or unparsable directories.
- The directory handling in `RestoreState` (the `dir == ""` default, `ReadDir`, `MkdirAll`, `Chdir`) and `NewDaemon`'s `init` are not modelled.
- Base64 and JSON are a `decode` function parameter. The round trip in `StateFileRoundTrip` is a precondition on that decoder. `Base64` and `ParseBase64ToBlob` are not modelled.
- Time is a parameter: `time.Now()` is `now: Timestamp`, and `Timestamp.Format(time.RFC3339)` is a `formatTime` function parameter.
- The colour helpers `common.Green`, `common.Red` and `common.Yellow` are not shown. Codes render as the plain words "OK", "Failure" and "Pending".
- Option flags (`Blob.Opts`, `BoolOptions.DeepCopy`, `SetDefaultOpts`) are not modelled.
- Concurrency is not modelled: the `blobMU` and `UpdateMU` locks, the GC ticker goroutine and its quit channel. Calls are sequential.
- Logging is not modelled.
- `filepath.Join(".", id)` is modelled as the decimal id, which is what path cleaning yields. `JoinPath` does not clean paths.
- State.ReadStateFile: a read error other than failing to open the file is not modelled.
- Blobs.BlobStatus.DeepCopy: the source copies references to the entries, so the copy shares entries with the original. The model copies entry values; the difference cannot be observed, because the core never mutates an entry.
- Blobs.BlobStatus.DumpLog: requires the cursor in `[0, 16)`. For any other cursor the source loop never reaches `i == Index` and does not terminate.
- Blobs.BlobStatus.AddStatusLog: requires the cursor to be a slot of a full log. Otherwise the source panics on an out-of-range write.
- Blobs.BlobStatus.LastStatus: requires the last slot to be inside a non-empty log. Otherwise the source panics.
- Daemons.Daemon.GcInternal: requires every candidate to have a status log whose last slot can be read. The source dereferences it unconditionally.
- Daemons.Daemon.RestoreState:
  - It requires `Restorable`: each candidate the pass reaches has a status log whose last slot can be read, and a Pending one's log can also be written. The pass reaches the candidates up to the first Pending one whose rewrite fails (`Reach`); nothing is asked of the candidates after it (`StopIgnoresRest`). An OK or Failure candidate whose log cannot be written is allowed (`FullOKLogRestorable`). Outside these conditions the source panics on a nil pointer or an out-of-range index.
  - It also requires that no two reached candidates share a log, because decoded blobs are distinct objects. Its ensures speak only of the reached candidates.
  - It takes the set of the reached candidates' logs as a ghost parameter, with one member per reached candidate (`LogsAreCandidates`).
  - It returns `restored`, `failed`, the number reached, the codes on entry, the stopping point `n` and the logs' slots and cursors on entry as out-parameters. The source only logs `restored`.
  - `RestorePass` and `RestoreStep` take ghost snapshots of the logs on entry.
- Daemons.MarkedLogFails: "a Pending blob ends in Failure" is proved only for logs that are valid rings. Every log the program writes is one: the constructor starts one, and `AddStatusLog` keeps it one (`AddSlotKeepsRing`). Only a state file edited by hand can hold another kind of log. For such a log the restore pass still lists the blob as failed, but its last status afterwards can read OK (`MarkedInvalidRingReadsOK`).
- The data directory's ghost field `attempts` records the removals asked for, so that the order of `cleanUp`'s attempts can be stated. The source keeps no such record.
