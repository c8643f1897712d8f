/** The daemon's in-memory index of blobs (daemon/daemon/blob.go) and the
    two passes over blobs found on disk: restoring state at start-up and
    garbage collection (daemon/daemon/state.go, daemon/daemon/gc.go). The
    blobs read from disk are given as a sequence of candidates; the data
    directory is an abstract set of directory names whose removal may fail. */
module Daemons {
  import opened Wrappers
  import opened StatusCodes
  import opened Blobs
  import State

  // ---------------------------------------------------------------------
  // The data directory

  /** The data directory the daemon runs in: the blob directories present,
      those whose removal fails (`os.RemoveAll` returning an error), and,
      as a record for the proofs, every removal asked for so far. */
  class DataDir {
    var dirs: set<string>
    const faulty: set<string>
    ghost var attempts: seq<string>

    constructor (dirs: set<string>, faulty: set<string>)
      ensures this.dirs == dirs && this.faulty == faulty && attempts == []
    {
      this.dirs := dirs;
      this.faulty := faulty;
      attempts := [];
    }

    /** `os.RemoveAll`: succeeds, also when the directory is already gone,
        unless the directory is one whose removal fails; a failed removal
        leaves it in place. */
    method RemoveAll(path: string) returns (ok: bool)
      modifies this`dirs, this`attempts
      ensures ok <==> path !in faulty
      ensures dirs == if ok then old(dirs) - {path} else old(dirs)
      ensures attempts == old(attempts) + [path]
    {
      ok := path !in faulty;
      if ok {
        dirs := dirs - {path};
      }
      attempts := attempts + [path];
    }
  }

  /** The directory of a blob, `filepath.Join(".", strconv.Itoa(id))`,
      which path cleaning reduces to the decimal id. */
  function BlobDir(b: Blob): (dir: string)
    ensures State.ParseUint16(dir) == Some(b.id as nat)
  {
    State.ItoaRoundTrip(b.id as nat);
    State.Itoa(b.id as nat)
  }

  /** The directories of `bs`, in order. */
  function DirList(bs: seq<Blob>): (ds: seq<string>)
    ensures |ds| == |bs|
    ensures forall i :: 0 <= i < |bs| ==> ds[i] == BlobDir(bs[i])
  {
    if bs == [] then [] else DirList(bs[..|bs| - 1]) + [BlobDir(bs[|bs| - 1])]
  }

  /** How many of `bs` have a directory whose removal succeeds. */
  function CountRemovable(bs: seq<Blob>, faulty: set<string>): (n: nat)
    ensures n <= |bs|
  {
    if bs == [] then 0
    else CountRemovable(bs[..|bs| - 1], faulty) + (if BlobDir(bs[|bs| - 1]) !in faulty then 1 else 0)
  }

  /** Every removal succeeds exactly when no directory is faulty. */
  lemma {:induction false} CountRemovableAll(bs: seq<Blob>, faulty: set<string>)
    ensures CountRemovable(bs, faulty) == |bs| <==> forall i :: 0 <= i < |bs| ==> BlobDir(bs[i]) !in faulty
    decreases |bs|
  {
    if bs != [] {
      var init := bs[..|bs| - 1];
      CountRemovableAll(init, faulty);
      assert forall i :: 0 <= i < |init| ==> init[i] == bs[i];
    }
  }

  /** No removal succeeds exactly when every directory is faulty. */
  lemma {:induction false} CountRemovableNone(bs: seq<Blob>, faulty: set<string>)
    ensures CountRemovable(bs, faulty) == 0 <==> forall i :: 0 <= i < |bs| ==> BlobDir(bs[i]) in faulty
    decreases |bs|
  {
    if bs != [] {
      var init := bs[..|bs| - 1];
      CountRemovableNone(init, faulty);
      assert forall i :: 0 <= i < |init| ==> init[i] == bs[i];
    }
  }

  /** The directories among `bs` whose removal succeeds. */
  function RemovedDirs(bs: seq<Blob>, faulty: set<string>): set<string>
  {
    set d | d in DirList(bs) && d !in faulty
  }

  /** A directory is removed exactly when it belongs to one of `bs` and its
      removal does not fail. */
  lemma RemovedDirsMembers(bs: seq<Blob>, faulty: set<string>, d: string)
    ensures d in RemovedDirs(bs, faulty) <==> d !in faulty && exists i :: 0 <= i < |bs| && BlobDir(bs[i]) == d
  {
  }

  /** Removing one more blob's directory. */
  lemma RemovedDirsStep(bs: seq<Blob>, faulty: set<string>, k: nat)
    requires k < |bs|
    ensures DirList(bs[..k + 1]) == DirList(bs[..k]) + [BlobDir(bs[k])]
    ensures CountRemovable(bs[..k + 1], faulty) == CountRemovable(bs[..k], faulty) + (if BlobDir(bs[k]) !in faulty then 1 else 0)
    ensures RemovedDirs(bs[..k + 1], faulty)
         == RemovedDirs(bs[..k], faulty) + (if BlobDir(bs[k]) !in faulty then {BlobDir(bs[k])} else {})
  {
    assert bs[..k + 1][..k] == bs[..k];
  }

  // ---------------------------------------------------------------------
  // Index helpers

  /** `blobsMap` after `insertBlob(b)`: a blob with an empty location is
      not indexed. */
  function IndexInsert(m: map<string, Blob>, b: Blob): map<string, Blob>
  {
    if b.location != "" then m[b.location := b] else m
  }

  /** Inserting maps a non-empty location to the blob, leaves every other
      key as it was, and changes nothing for an empty location. */
  lemma IndexInsertLookup(m: map<string, Blob>, b: Blob, k: string)
    ensures b.location != "" ==> b.location in IndexInsert(m, b) && IndexInsert(m, b)[b.location] == b
    ensures k != b.location ==> (k in IndexInsert(m, b) <==> k in m) && (k in m ==> IndexInsert(m, b)[k] == m[k])
    ensures b.location == "" ==> IndexInsert(m, b) == m
  {
  }

  /** `blobsMap` after inserting each of `bs` in turn. */
  function IndexAll(m: map<string, Blob>, bs: seq<Blob>): map<string, Blob>
  {
    if bs == [] then m else IndexInsert(IndexAll(m, bs[..|bs| - 1]), bs[|bs| - 1])
  }

  /** Inserting one more blob. */
  lemma IndexAllSnoc(m: map<string, Blob>, bs: seq<Blob>, b: Blob)
    ensures IndexAll(m, bs + [b]) == IndexInsert(IndexAll(m, bs), b)
  {
    assert (bs + [b])[..|bs|] == bs;
  }

  /** The last of `bs` at location `loc`, if any. */
  function LastAt(bs: seq<Blob>, loc: string): (r: Option<Blob>)
    ensures r.Some? ==> r.value in bs && r.value.location == loc
    ensures r.None? <==> forall i :: 0 <= i < |bs| ==> bs[i].location != loc
  {
    if bs == [] then None
    else if bs[|bs| - 1].location == loc then Some(bs[|bs| - 1])
    else
      var init := bs[..|bs| - 1];
      assert forall i :: 0 <= i < |init| ==> init[i] == bs[i];
      LastAt(init, loc)
  }

  /** After a sequence of insertions, a non-empty location maps to the last
      blob inserted there, and to what it mapped before when no inserted
      blob has that location; the empty location is never added. */
  lemma {:induction false} IndexAllLookup(m: map<string, Blob>, bs: seq<Blob>, loc: string)
    ensures loc != "" && LastAt(bs, loc).Some? ==> loc in IndexAll(m, bs) && IndexAll(m, bs)[loc] == LastAt(bs, loc).value
    ensures loc == "" || LastAt(bs, loc).None? ==>
      (loc in IndexAll(m, bs) <==> loc in m) && (loc in m ==> IndexAll(m, bs)[loc] == m[loc])
    decreases |bs|
  {
    if bs != [] {
      IndexAllLookup(m, bs[..|bs| - 1], loc);
    }
  }

  // ---------------------------------------------------------------------
  // Selecting candidates by status

  /** The elements of `xs` whose code (the matching element of `codes`) is
      in `wanted`, in their order. */
  function Pick<T>(xs: seq<T>, codes: seq<StatusCode>, wanted: set<StatusCode>): (r: seq<T>)
    requires |xs| == |codes|
    ensures |r| <= |xs|
  {
    if xs == [] then []
    else
      var n := |xs| - 1;
      Pick(xs[..n], codes[..n], wanted) + (if codes[n] in wanted then [xs[n]] else [])
  }

  /** Every element whose code is wanted is picked, and only such elements
      are. */
  lemma {:induction false} PickMembers<T>(xs: seq<T>, codes: seq<StatusCode>, wanted: set<StatusCode>)
    requires |xs| == |codes|
    ensures forall i :: 0 <= i < |xs| && codes[i] in wanted ==> xs[i] in Pick(xs, codes, wanted)
    ensures forall x :: x in Pick(xs, codes, wanted) ==> exists i :: 0 <= i < |xs| && xs[i] == x && codes[i] in wanted
    decreases |xs|
  {
    if xs != [] {
      var n := |xs| - 1;
      PickMembers(xs[..n], codes[..n], wanted);
      assert forall i :: 0 <= i < n ==> xs[..n][i] == xs[i] && codes[..n][i] == codes[i];
    }
  }

  /** One more code. */
  lemma CountInStep(codes: seq<StatusCode>, wanted: set<StatusCode>, k: nat)
    requires k < |codes|
    ensures CountIn(codes[..k + 1], wanted) == CountIn(codes[..k], wanted) + (if codes[k] in wanted then 1 else 0)
  {
    assert codes[..k + 1][..k] == codes[..k];
  }

  /** How many codes lie in `wanted`. */
  function CountIn(codes: seq<StatusCode>, wanted: set<StatusCode>): nat
  {
    if codes == [] then 0
    else CountIn(codes[..|codes| - 1], wanted) + (if codes[|codes| - 1] in wanted then 1 else 0)
  }

  /** Picking keeps one element per matching code. */
  lemma {:induction false} PickCount<T>(xs: seq<T>, codes: seq<StatusCode>, wanted: set<StatusCode>)
    requires |xs| == |codes|
    ensures |Pick(xs, codes, wanted)| == CountIn(codes, wanted)
    decreases |xs|
  {
    if xs != [] {
      PickCount(xs[..|xs| - 1], codes[..|codes| - 1], wanted);
    }
  }

  /** Picking from a longer prefix extends the earlier pick by the next
      element exactly when its code is wanted. */
  lemma PickStep<T>(xs: seq<T>, codes: seq<StatusCode>, wanted: set<StatusCode>, k: nat)
    requires |xs| == |codes| && k < |xs|
    ensures Pick(xs[..k + 1], codes[..k + 1], wanted)
         == Pick(xs[..k], codes[..k], wanted) + (if codes[k] in wanted then [xs[k]] else [])
  {
    assert xs[..k + 1][..k] == xs[..k];
    assert codes[..k + 1][..k] == codes[..k];
  }

  /** With no element repeated, an element is picked exactly when its code
      is wanted. */
  lemma PickExact<T>(xs: seq<T>, codes: seq<StatusCode>, wanted: set<StatusCode>, i: nat)
    requires |xs| == |codes| && i < |xs|
    requires forall j, k :: 0 <= j < k < |xs| ==> xs[j] != xs[k]
    ensures xs[i] in Pick(xs, codes, wanted) <==> codes[i] in wanted
  {
    PickMembers(xs, codes, wanted);
  }

  /** Picking by two disjoint sets of codes never picks the same element
      twice, when no element is repeated. */
  lemma PickDisjoint<T>(xs: seq<T>, codes: seq<StatusCode>, w1: set<StatusCode>, w2: set<StatusCode>, x: T)
    requires |xs| == |codes|
    requires forall j, k :: 0 <= j < k < |xs| ==> xs[j] != xs[k]
    requires w1 !! w2
    ensures !(x in Pick(xs, codes, w1) && x in Pick(xs, codes, w2))
  {
    PickMembers(xs, codes, w1);
    PickMembers(xs, codes, w2);
  }

  // ---------------------------------------------------------------------
  // Candidates read from disk

  /** The status logs of the candidates. */
  function Statuses(cands: seq<Blob>): set<BlobStatus?>
    reads cands
  {
    set b | b in cands && b.status != null :: b.status
  }

  /** Every candidate has a status log whose last status can be read
      (the code dereferences it unconditionally). */
  predicate Readable(cands: seq<Blob>)
    reads cands, Statuses(cands)
  {
    forall i :: 0 <= i < |cands| ==> cands[i].status != null && cands[i].status.CanReadLast()
  }

  /** The last status of each candidate, in order. */
  function Codes(cands: seq<Blob>): (codes: seq<StatusCode>)
    reads cands, Statuses(cands)
    requires Readable(cands)
    ensures |codes| == |cands|
    ensures forall i :: 0 <= i < |cands| ==> codes[i] == cands[i].status.LastStatus()
  {
    if cands == [] then []
    else
      var init := cands[..|cands| - 1];
      assert forall i :: 0 <= i < |init| ==> init[i] == cands[i];
      Codes(init) + [cands[|cands| - 1].status.LastStatus()]
  }

  /** Whether the restore pass stops at candidate `b`: its last status is
      Pending and rewriting its state file fails. */
  ghost predicate StopsAt(b: Blob, writeFails: set<Blob>)
    reads b, b.status
    requires b.status != null && b.status.CanReadLast()
  {
    b.status.LastStatus() == Pending && b in writeFails
  }

  /** Whether the restore pass, once at candidate `k`, goes on without
      indexing out of range: every candidate it reaches has a status log
      whose last slot can be read, a Pending one's log can also be
      written, and it reaches the next candidate unless it stops at this
      one. Candidates after the stop are never looked at. */
  ghost predicate SafeFrom(cands: seq<Blob>, writeFails: set<Blob>, k: nat)
    reads cands, Statuses(cands)
    requires k <= |cands|
    decreases |cands| - k
  {
    k == |cands| ||
    (&& cands[k].status != null && cands[k].status.CanReadLast()
     && (cands[k].status.LastStatus() == Pending ==> cands[k].status.CanAdd())
     && (StopsAt(cands[k], writeFails) || SafeFrom(cands, writeFails, k + 1)))
  }

  /** How far the restore pass gets from candidate `k`: the end, or just
      past the first candidate it stops at. Every candidate before that is
      readable (and writable when Pending), none but the last is a stop, and
      the pass ends early only by stopping. */
  ghost function Reach(cands: seq<Blob>, writeFails: set<Blob>, k: nat): (r: nat)
    reads cands, Statuses(cands)
    requires k <= |cands| && SafeFrom(cands, writeFails, k)
    ensures k <= r <= |cands|
    ensures forall i :: k <= i < r ==>
      && cands[i].status != null && cands[i].status.CanReadLast()
      && (cands[i].status.LastStatus() == Pending ==> cands[i].status.CanAdd())
    ensures forall i :: k <= i < r - 1 ==> !StopsAt(cands[i], writeFails)
    ensures r < |cands| ==> k < r && StopsAt(cands[r - 1], writeFails)
    decreases |cands| - k
  {
    if k == |cands| then k
    else if StopsAt(cands[k], writeFails) then k + 1
    else Reach(cands, writeFails, k + 1)
  }

  /** Candidates fit for restoring: the pass reads them without indexing out
      of range, and no two of the candidates it reaches share a status log
      (so none is listed twice). */
  ghost predicate Restorable(cands: seq<Blob>, writeFails: set<Blob>)
    reads cands, Statuses(cands)
  {
    && SafeFrom(cands, writeFails, 0)
    && (forall i, j :: 0 <= i < j < Reach(cands, writeFails, 0) ==> cands[i].status != cands[j].status)
  }

  /** A candidate whose full log has its cursor one past the last slot can
      be read but not written; when its last status is OK the pass only
      reads it, so it is fit for restoring. */
  lemma FullOKLogRestorable(b: Blob, writeFails: set<Blob>)
    requires b.status != null && |b.status.log| == MaxLogs && b.status.index == MaxLogs
    requires b.status.log[MaxLogs - 1].Some? && b.status.log[MaxLogs - 1].value.status.code == OK
    ensures !b.status.CanAdd() && Restorable([b], writeFails)
  {
    assert SafeFrom([b], writeFails, 1);
  }

  /** Nothing is asked of the candidates after the one the pass stops at:
      they may even lack a status log. */
  lemma StopIgnoresRest(b: Blob, rest: seq<Blob>, writeFails: set<Blob>)
    requires b.status != null && b.status.CanReadLast() && b.status.CanAdd()
    requires b.status.LastStatus() == Pending && b in writeFails
    ensures Restorable([b] + rest, writeFails) && Reach([b] + rest, writeFails, 0) == 1
  {
    assert ([b] + rest)[0] == b;
  }

  /** Where the restore pass stops: the first Pending candidate whose state
      file cannot be rewritten, or the end. */
  function FirstWriteFailure(codes: seq<StatusCode>, cands: seq<Blob>, writeFails: set<Blob>): (n: nat)
    requires |codes| == |cands|
    ensures n <= |cands|
    ensures forall i :: 0 <= i < n ==> !(codes[i] == Pending && cands[i] in writeFails)
    ensures n < |cands| ==> codes[n] == Pending && cands[n] in writeFails
  {
    if cands == [] then 0
    else if codes[0] == Pending && cands[0] in writeFails then 0
    else 1 + FirstWriteFailure(codes[1..], cands[1..], writeFails)
  }

  /** The entry logged for a Pending blob found by the restore pass. */
  const PendingRestoreMsg := "Found in Pending state during Restore - Deleting!"

  /** The entry a Pending blob receives during the restore pass. */
  function RestoreFailEntry(now: Timestamp): (e: StatusLog)
    ensures e.status.code == Failure && e.timestamp == now
  {
    StatusLog(Status(Failure, PendingRestoreMsg), now)
  }

  /** The slots of a status log after the restore pass, which writes the
      failure entry when `mark` holds and leaves the log alone otherwise. */
  function MarkLog(log: seq<Slot>, index: int, mark: bool, now: Timestamp): seq<Slot>
    requires mark ==> CanAddAt(log, index)
  {
    if mark then AddSlot(log, index, RestoreFailEntry(now)) else log
  }

  /** The cursor of a status log after the restore pass. */
  function MarkIndex(index: int, mark: bool): int
  {
    if mark then NextIndex(index) else index
  }

  /** What the restore pass has gathered so far: the number of blobs
      restored, the failed blobs in order, and the index. */
  datatype Tally = Tally(restored: nat, failed: seq<Blob>, index: map<string, Blob>)

  /** The restore pass's bookkeeping for one candidate with last status `c`
      whose pass continues: OK is counted and indexed, Pending and Failure
      join the failed list, any other code changes nothing. */
  function Visit(t: Tally, b: Blob, c: StatusCode): Tally
  {
    if c == OK then Tally(t.restored + 1, t.failed, IndexInsert(t.index, b))
    else if c == Pending || c == Failure then Tally(t.restored, t.failed + [b], t.index)
    else t
  }

  /** The bookkeeping after visiting the first `k` of `cands`, starting
      from index `m`. */
  function Pass(cands: seq<Blob>, codes: seq<StatusCode>, m: map<string, Blob>, k: nat): Tally
    requires |cands| == |codes| && k <= |cands|
  {
    if k == 0 then Tally(0, [], m)
    else Visit(Pass(cands, codes, m, k - 1), cands[k - 1], codes[k - 1])
  }

  /** After the first `k` candidates, the pass has counted the OK ones. */
  lemma {:induction false} PassRestored(cands: seq<Blob>, codes: seq<StatusCode>, m: map<string, Blob>, k: nat)
    requires |cands| == |codes| && k <= |cands|
    ensures Pass(cands, codes, m, k).restored == CountIn(codes[..k], {OK})
  {
    if k > 0 {
      PassRestored(cands, codes, m, k - 1);
      CountInStep(codes, {OK}, k - 1);
    }
  }

  /** After the first `k` candidates, the pass has listed the Pending and
      Failure ones, in order. */
  lemma {:induction false} PassFailed(cands: seq<Blob>, codes: seq<StatusCode>, m: map<string, Blob>, k: nat)
    requires |cands| == |codes| && k <= |cands|
    ensures Pass(cands, codes, m, k).failed == Pick(cands[..k], codes[..k], {Pending, Failure})
  {
    if k > 0 {
      PassFailed(cands, codes, m, k - 1);
      PickStep(cands, codes, {Pending, Failure}, k - 1);
    }
  }

  /** After the first `k` candidates, the pass has indexed the OK ones, in
      order. */
  lemma {:induction false} PassIndexed(cands: seq<Blob>, codes: seq<StatusCode>, m: map<string, Blob>, k: nat)
    requires |cands| == |codes| && k <= |cands|
    ensures Pass(cands, codes, m, k).index == IndexAll(m, Pick(cands[..k], codes[..k], {OK}))
  {
    if k > 0 {
      var j := k - 1;
      PassIndexed(cands, codes, m, j);
      PickStep(cands, codes, {OK}, j);
      var p := Pick(cands[..j], codes[..j], {OK});
      if codes[j] == OK {
        IndexAllSnoc(m, p, cands[j]);
      } else {
        assert Pick(cands[..k], codes[..k], {OK}) == p + [] == p;
      }
    }
  }

  /** After the first `k` candidates, the pass has counted the OK ones,
      listed the Pending and Failure ones in order, and indexed the OK ones
      in order. */
  lemma PassTotals(cands: seq<Blob>, codes: seq<StatusCode>, m: map<string, Blob>, k: nat)
    requires |cands| == |codes| && k <= |cands|
    ensures Pass(cands, codes, m, k)
         == Tally(CountIn(codes[..k], {OK}), Pick(cands[..k], codes[..k], {Pending, Failure}),
                  IndexAll(m, Pick(cands[..k], codes[..k], {OK})))
  {
    PassRestored(cands, codes, m, k);
    PassFailed(cands, codes, m, k);
    PassIndexed(cands, codes, m, k);
  }

  /** A candidate's place in the pass's result, when no candidate is
      listed twice: it is in the failed list exactly when it was Pending or
      Failure, and among the blobs indexed exactly when it was OK; so a blob
      with any other code is neither. */
  lemma PassSortsCandidate(cands: seq<Blob>, codes: seq<StatusCode>, m: map<string, Blob>, k: nat, i: nat)
    requires |cands| == |codes| && i < k <= |cands|
    requires forall j, l :: 0 <= j < l < |cands| ==> cands[j] != cands[l]
    ensures cands[i] in Pass(cands, codes, m, k).failed <==> codes[i] == Pending || codes[i] == Failure
    ensures cands[i] in Pick(cands[..k], codes[..k], {OK}) <==> codes[i] == OK
  {
    PassFailed(cands, codes, m, k);
    assert forall j :: 0 <= j < k ==> cands[..k][j] == cands[j];
    PickExact(cands[..k], codes[..k], {Pending, Failure}, i);
    PickExact(cands[..k], codes[..k], {OK}, i);
  }

  /** A Pending log marked by the restore pass is still a valid ring, and
      its last status is now Failure. */
  lemma MarkedLogFails(log: seq<Slot>, index: int, now: Timestamp)
    requires ValidRing(log, index)
    ensures ValidRing(MarkLog(log, index, true, now), MarkIndex(index, true))
    ensures LastStatusAt(MarkLog(log, index, true, now), MarkIndex(index, true)) == Failure
  {
    AddSlotKeepsRing(log, index, RestoreFailEntry(now));
  }

  /** When every candidate's status log is in `logs`, no two candidates
      share one, and `logs` has as many members as there are candidates,
      then `logs` holds the candidates' logs and nothing else. */
  lemma {:induction false} LogsAreCandidates(cands: seq<Blob>, logs: set<BlobStatus>)
    requires forall i :: 0 <= i < |cands| ==> cands[i].status in logs
    requires forall i, j :: 0 <= i < j < |cands| ==> cands[i].status != cands[j].status
    requires |logs| == |cands|
    ensures forall s :: s in logs ==> exists i :: 0 <= i < |cands| && cands[i].status == s
    decreases |cands|
  {
    if cands != [] {
      var n := |cands| - 1;
      var init := cands[..n];
      var rest := logs - {cands[n].status};
      assert forall i :: 0 <= i < n ==> init[i] == cands[i];
      assert |rest| == |logs| - 1;
      LogsAreCandidates(init, rest);
      forall s | s in logs
        ensures exists i :: 0 <= i < |cands| && cands[i].status == s
      {
        if s != cands[n].status {
          assert s in rest;
          var i :| 0 <= i < n && init[i].status == s;
          assert cands[i].status == s;
        }
      }
    }
  }

  /** A log that is not a valid ring need not end in Failure once marked:
      with slots OK, Pending, OK and the cursor at 2 the pass reads
      Pending, the failure entry is appended as slot 3, and the last status
      read afterwards is slot 2's OK. */
  lemma MarkedInvalidRingReadsOK(now: Timestamp)
    ensures var log := [Some(StatusLog(Status(OK, ""), now)), Some(StatusLog(Status(Pending, ""), now)),
                        Some(StatusLog(Status(OK, ""), now))];
      && !ValidRing(log, 2) && CanReadLastAt(log, 2) && CanAddAt(log, 2) && LastStatusAt(log, 2) == Pending
      && LastStatusAt(MarkLog(log, 2, true, now), MarkIndex(2, true)) == OK
  {
  }

  /** Once the pass has visited every candidate, visiting "more" marks
      nothing further. */
  lemma MarkedBeyond(cands: seq<Blob>, logs: set<BlobStatus>, L: seq<seq<Slot>>, I: seq<int>,
                     codes: seq<StatusCode>, k: int, k': int, now: Timestamp)
    requires Snapshot(cands, logs, L, I, codes) && |cands| <= k <= k'
    requires MarkedUpTo(cands, logs, L, I, codes, k, now)
    ensures MarkedUpTo(cands, logs, L, I, codes, k', now)
  {
  }

  /** The candidates the restore pass reaches have readable status logs,
      and the pass stops at the last of them or runs to the end of
      `cands`. */
  lemma ReachedStop(cands: seq<Blob>, writeFails: set<Blob>)
    requires SafeFrom(cands, writeFails, 0)
    ensures var cs := cands[..Reach(cands, writeFails, 0)];
      && Readable(cs)
      && var n := FirstWriteFailure(Codes(cs), cs, writeFails);
         (n == |cs| || n == |cs| - 1) && (n < |cs| || |cs| == |cands|)
  {
    var r := Reach(cands, writeFails, 0);
    var cs := cands[..r];
    assert forall i :: 0 <= i < r ==> cs[i] == cands[i];
    if r < |cands| {
      assert StopsAt(cands[r - 1], writeFails);
    }
  }

  /** On entry to the restore pass, the candidates `cs` it reaches have
      readable status logs, held in `logs` and distinct, which the
      snapshots describe and none of which is marked yet. */
  lemma ReachedSnapshot(cands: seq<Blob>, writeFails: set<Blob>, logs: set<BlobStatus>, now: Timestamp)
    requires Restorable(cands, writeFails)
    requires forall i :: 0 <= i < Reach(cands, writeFails, 0) ==> cands[i].status in logs
    ensures var cs := cands[..Reach(cands, writeFails, 0)];
      && Readable(cs) && (forall i :: 0 <= i < |cs| ==> cs[i].status in logs)
      && Snapshot(cs, logs, LogsOf(cs, logs), CursorsOf(cs, logs), Codes(cs))
      && MarkedUpTo(cs, logs, LogsOf(cs, logs), CursorsOf(cs, logs), Codes(cs), 0, now)
      && (forall i, j :: 0 <= i < j < |cs| ==> cs[i].status != cs[j].status)
  {
    var r := Reach(cands, writeFails, 0);
    var cs := cands[..r];
    assert forall i :: 0 <= i < r ==> cs[i] == cands[i];
  }

  /** What the restore pass does with one candidate. */
  datatype Verdict = Indexed | MarkedFailed | WriteError | Ignored

  /** The restore pass's switch on a candidate's last status `c`; `writeFails`
      says whether rewriting its state file fails. */
  function Classify(c: StatusCode, writeFails: bool): (v: Verdict)
    ensures v == Indexed <==> c == OK
    ensures v == MarkedFailed <==> c == Failure || (c == Pending && !writeFails)
    ensures v == WriteError <==> c == Pending && writeFails
    ensures v == Ignored <==> !IsKnown(c)
  {
    if c == Pending then (if writeFails then WriteError else MarkedFailed)
    else if c == Failure then MarkedFailed
    else if c == OK then Indexed
    else Ignored
  }

  /** Why the restore pass gave up. */
  datatype RestoreError = WriteFailed(id: BlobId)

  /** The slots of each candidate's status log, in order. */
  ghost function LogsOf(cands: seq<Blob>, logs: set<BlobStatus>): (L: seq<seq<Slot>>)
    reads cands, logs
    requires forall i :: 0 <= i < |cands| ==> cands[i].status in logs
    ensures |L| == |cands|
    ensures forall i :: 0 <= i < |cands| ==> L[i] == cands[i].status.log
  {
    if cands == [] then []
    else
      var init := cands[..|cands| - 1];
      assert forall i :: 0 <= i < |init| ==> init[i] == cands[i];
      LogsOf(init, logs) + [cands[|cands| - 1].status.log]
  }

  /** The cursor of each candidate's status log, in order. */
  ghost function CursorsOf(cands: seq<Blob>, logs: set<BlobStatus>): (I: seq<int>)
    reads cands, logs
    requires forall i :: 0 <= i < |cands| ==> cands[i].status in logs
    ensures |I| == |cands|
    ensures forall i :: 0 <= i < |cands| ==> I[i] == cands[i].status.index
  {
    if cands == [] then []
    else
      var init := cands[..|cands| - 1];
      assert forall i :: 0 <= i < |init| ==> init[i] == cands[i];
      CursorsOf(init, logs) + [cands[|cands| - 1].status.index]
  }

  /** `L`, `I` and `codes` record, for each candidate, the slots, cursor
      and last status of a readable status log held in `logs`, writable
      when that status is Pending. */
  ghost predicate Snapshot(cands: seq<Blob>, logs: set<BlobStatus>, L: seq<seq<Slot>>, I: seq<int>,
                           codes: seq<StatusCode>)
    reads cands
  {
    && |L| == |cands| && |I| == |cands| && |codes| == |cands|
    && forall i :: 0 <= i < |cands| ==>
         && cands[i].status in logs
         && CanReadLastAt(L[i], I[i])
         && codes[i] == LastStatusAt(L[i], I[i])
         && (codes[i] == Pending ==> CanAddAt(L[i], I[i]))
  }

  /** The candidates' status logs once the restore pass has visited the
      first `k`: each of those that was Pending on entry (`codes`) has the
      failure entry written after its entry slots `L` and cursor `I`; every
      other log is as on entry. */
  ghost predicate MarkedUpTo(cands: seq<Blob>, logs: set<BlobStatus>, L: seq<seq<Slot>>, I: seq<int>,
                             codes: seq<StatusCode>, k: int, now: Timestamp)
    reads cands, logs
  {
    && |L| == |cands| && |I| == |cands| && |codes| == |cands|
    && forall i :: 0 <= i < |cands| ==>
      && cands[i].status in logs
      && (i < k && codes[i] == Pending ==> CanAddAt(L[i], I[i]))
      && cands[i].status.log == MarkLog(L[i], I[i], i < k && codes[i] == Pending, now)
      && cands[i].status.index == MarkIndex(I[i], i < k && codes[i] == Pending)
  }

  /** The daemon: an index of blobs by location. */
  class Daemon {
    var blobsMap: map<string, Blob>

    /** A daemon with an empty index. */
    constructor ()
      ensures blobsMap == map[]
    {
      blobsMap := map[];
    }

    /** `GetBlob`: a stub that reports success and touches nothing. */
    method GetBlob(location: string) returns (err: Option<string>)
      ensures err.None?
    {
      err := None;
    }

    /** `CreateBlob`: a stub that reports success and touches nothing. */
    method CreateBlob(location: string) returns (err: Option<string>)
      ensures err.None?
    {
      err := None;
    }

    /** `UpdateBlob`: a stub that reports success and touches nothing. */
    method UpdateBlob(location: string) returns (err: Option<string>)
      ensures err.None?
    {
      err := None;
    }

    /** `DeleteBlob`: a stub that reports success and touches nothing. */
    method DeleteBlob(location: string) returns (err: Option<string>)
      ensures err.None?
    {
      err := None;
    }

    /** `lookupBlob`: the blob indexed at `location`, or nil. */
    function LookupBlob(location: string): (bb: Blob?)
      reads this
      ensures bb != null <==> location in blobsMap
      ensures bb != null ==> bb == blobsMap[location]
    {
      if location in blobsMap then blobsMap[location] else null
    }

    /** `insertBlob`: gives a blob without a status log an empty one, then
        indexes the blob by its location unless that is empty. */
    method InsertBlob(bb: Blob)
      modifies this, if bb.status == null then {bb} else {}
      ensures blobsMap == IndexInsert(old(blobsMap), bb)
      ensures old(bb.status) != null ==> bb.status == old(bb.status)
      ensures old(bb.status) == null ==> fresh(bb.status) && bb.status.log == [] && bb.status.index == 0
      ensures bb.status != null
      ensures old(bb.status) == null ==> bb.status.CanReadLast() && bb.status.LastStatus() == OK
      ensures bb.location != "" ==> LookupBlob(bb.location) == bb
    {
      if bb.status == null {
        bb.status := new BlobStatus();
      }
      if bb.location != "" {
        blobsMap := blobsMap[bb.location := bb];
      }
    }

    /** `cleanUp`: tries once to remove the directory of each blob, in
        order, and counts the removals that succeed; a failed removal is
        skipped. */
    method CleanUp(failed: seq<Blob>, root: DataDir) returns (cleaned: nat)
      modifies root
      ensures cleaned == CountRemovable(failed, root.faulty)
      ensures root.attempts == old(root.attempts) + DirList(failed)
      ensures root.dirs == old(root.dirs) - RemovedDirs(failed, root.faulty)
    {
      cleaned := 0;
      ghost var dirs0, attempts0 := root.dirs, root.attempts;
      for k := 0 to |failed|
        invariant cleaned == CountRemovable(failed[..k], root.faulty)
        invariant root.attempts == attempts0 + DirList(failed[..k])
        invariant root.dirs == dirs0 - RemovedDirs(failed[..k], root.faulty)
      {
        cleaned := CleanOne(failed, k, root, cleaned, dirs0, attempts0);
      }
      assert failed[..|failed|] == failed;
    }

    /** One turn of `cleanUp`'s loop: removes the directory of `failed[k]`,
        counting it when the removal succeeds. */
    method CleanOne(failed: seq<Blob>, k: nat, root: DataDir, cleaned: nat,
                    ghost dirs0: set<string>, ghost attempts0: seq<string>) returns (cleaned': nat)
      requires k < |failed|
      requires cleaned == CountRemovable(failed[..k], root.faulty)
      requires root.attempts == attempts0 + DirList(failed[..k])
      requires root.dirs == dirs0 - RemovedDirs(failed[..k], root.faulty)
      modifies root`dirs, root`attempts
      ensures cleaned' == CountRemovable(failed[..k + 1], root.faulty)
      ensures root.attempts == attempts0 + DirList(failed[..k + 1])
      ensures root.dirs == dirs0 - RemovedDirs(failed[..k + 1], root.faulty)
    {
      RemovedDirsStep(failed, root.faulty, k);
      var ok := root.RemoveAll(BlobDir(failed[k]));
      cleaned' := if ok then cleaned + 1 else cleaned;
    }

    /** The selection loop of `gcInternal`: the candidates whose last status
        is Failure, in scan order; OK, Pending and unknown codes are passed
        over. */
    method SelectFailed(cands: seq<Blob>, ghost codes: seq<StatusCode>) returns (selected: seq<Blob>)
      requires Readable(cands) && codes == Codes(cands)
      ensures selected == Pick(cands, codes, {Failure})
    {
      selected := [];
      for k := 0 to |cands|
        invariant selected == Pick(cands[..k], codes[..k], {Failure})
      {
        PickStep(cands, codes, {Failure}, k);
        var c := cands[k].status.LastStatus();
        if c == Failure {
          selected := selected + [cands[k]];
        }
      }
      assert cands[..|cands|] == cands && codes[..|codes|] == codes;
    }

    /** `gcInternal`: hands the candidates whose last status is Failure to
        `cleanUp`; the index is not touched. With no candidates it returns
        at once. */
    method GcInternal(cands: seq<Blob>, root: DataDir) returns (selected: seq<Blob>, cleaned: nat)
      requires Readable(cands)
      modifies root
      ensures selected == old(Pick(cands, Codes(cands), {Failure}))
      ensures cleaned == CountRemovable(selected, root.faulty)
      ensures root.attempts == old(root.attempts) + DirList(selected)
      ensures root.dirs == old(root.dirs) - RemovedDirs(selected, root.faulty)
      ensures |cands| == 0 ==> cleaned == 0 && unchanged(root)
      ensures blobsMap == old(blobsMap)
    {
      if |cands| == 0 {
        assert root.attempts + DirList([]) == root.attempts;
        assert RemovedDirs([], root.faulty) == {};
        assert cands == [];
        return [], 0;
      }
      selected := SelectFailed(cands, Codes(cands));
      cleaned := CleanUp(selected, root);
    }

    /** The body of `RestoreState`'s loop for one candidate whose status log
        holds slots `L` and cursor `I`: a Pending blob is marked Failure and,
        unless rewriting its state file fails, joins the failed list; a
        Failure blob joins the failed list; an OK blob is indexed and
        counted; anything else is left alone. */
    method RestoreOne(bb: Blob, writeFails: set<Blob>, now: Timestamp, restored: nat, failed: seq<Blob>,
                      ghost L: seq<Slot>, ghost I: int)
      returns (v: Verdict, restored': nat, failed': seq<Blob>)
      requires bb.status != null && bb.status.log == L && bb.status.index == I
      requires CanReadLastAt(L, I) && (LastStatusAt(L, I) == Pending ==> CanAddAt(L, I))
      modifies this, bb.status
      ensures v == Classify(LastStatusAt(L, I), bb in writeFails)
      ensures bb.status.log == MarkLog(L, I, LastStatusAt(L, I) == Pending, now)
      ensures bb.status.index == MarkIndex(I, LastStatusAt(L, I) == Pending)
      ensures Tally(restored', failed', blobsMap) ==
              if v == WriteError then Tally(restored, failed, old(blobsMap))
              else Visit(Tally(restored, failed, old(blobsMap)), bb, LastStatusAt(L, I))
    {
      restored', failed' := restored, failed;
      var c := bb.status.LastStatus();
      v := Classify(c, bb in writeFails);
      if c == Pending {
        bb.LogStatus(Failure, PendingRestoreMsg, now);
        if v == MarkedFailed {
          failed' := failed + [bb];
        }
      } else if c == Failure {
        failed' := failed + [bb];
      } else if c == OK {
        InsertBlob(bb);
        restored' := restored + 1;
      }
    }

    /** One turn of the restore pass, at candidate `bb`, the `k`-th of the
        candidates `cs` it reaches: its status log, as on entry (`L`, `I`,
        last status `codes[k]`), is marked when Pending, no other log of
        `cs` changes, and the counters and index take in the candidate
        unless the pass stops. */
    method RestoreStep(cands: seq<Blob>, ghost cs: seq<Blob>, k: nat, writeFails: set<Blob>, now: Timestamp,
                       ghost logs: set<BlobStatus>, ghost L: seq<seq<Slot>>, ghost I: seq<int>,
                       restored: nat, failed: seq<Blob>, ghost codes: seq<StatusCode>)
      returns (v: Verdict, restored': nat, failed': seq<Blob>)
      requires cs <= cands && k < |cs| && Snapshot(cs, logs, L, I, codes)
      requires forall i, j :: 0 <= i < j < |cs| ==> cs[i].status != cs[j].status
      requires MarkedUpTo(cs, logs, L, I, codes, k, now)
      modifies this, cands[k].status
      ensures v == Classify(codes[k], cands[k] in writeFails)
      ensures MarkedUpTo(cs, logs, L, I, codes, k + 1, now)
      ensures v == WriteError ==> restored' == restored && failed' == failed && blobsMap == old(blobsMap)
      ensures v != WriteError ==> Tally(restored', failed', blobsMap) == Visit(Tally(restored, failed, old(blobsMap)), cs[k], codes[k])
    {
      assert cands[k] == cs[k];
      ghost var st := cs[k].status;
      assert forall i :: 0 <= i < |cs| && i != k ==> cs[i].status != st;
      v, restored', failed' := RestoreOne(cands[k], writeFails, now, restored, failed, L[k], I[k]);
    }

    /** The loop of `RestoreState` over `cands`, of which it reaches the
        prefix `cs`, whose status logs on entry are `L` and `I` with last
        statuses `codes`: it stops at the first write failure `n`, marking
        each Pending log up to and including it. */
    method RestorePass(cands: seq<Blob>, writeFails: set<Blob>, now: Timestamp, ghost cs: seq<Blob>,
                       ghost logs: set<BlobStatus>, ghost L: seq<seq<Slot>>, ghost I: seq<int>,
                       ghost codes: seq<StatusCode>, ghost n: nat)
      returns (err: Option<RestoreError>, restored: nat, failed: seq<Blob>)
      requires cs <= cands && Snapshot(cs, logs, L, I, codes)
      requires forall i, j :: 0 <= i < j < |cs| ==> cs[i].status != cs[j].status
      requires n <= |cs| && (n < |cs| || |cs| == |cands|)
      requires forall i :: 0 <= i < n ==> !(codes[i] == Pending && cs[i] in writeFails)
      requires n < |cs| ==> codes[n] == Pending && cs[n] in writeFails
      requires MarkedUpTo(cs, logs, L, I, codes, 0, now)
      modifies this, logs
      ensures err == if n < |cs| then Some(WriteFailed(cands[n].id)) else None
      ensures Tally(restored, failed, blobsMap) == Pass(cs, codes, old(blobsMap), n)
      ensures MarkedUpTo(cs, logs, L, I, codes, n + 1, now)
    {
      err, restored, failed := None, 0, [];
      var k := 0;
      ghost var m := blobsMap;
      ghost var t := Tally(0, [], m);
      while k < |cands|
        invariant 0 <= k <= n && k <= |cs|
        invariant t == Pass(cs, codes, m, k) && t == Tally(restored, failed, blobsMap)
        invariant MarkedUpTo(cs, logs, L, I, codes, k, now)
      {
        var v;
        v, restored, failed := RestoreStep(cands, cs, k, writeFails, now, logs, L, I, restored, failed, codes);
        if v == WriteError {
          assert k == n;
          err := Some(WriteFailed(cands[k].id));
          return;
        }
        t := Visit(t, cs[k], codes[k]);
        k := k + 1;
      }
      MarkedBeyond(cs, logs, L, I, codes, k, n + 1, now);
    }

    /** The restore pass over `cands`, reaching the prefix `cs`, followed
        by the cleanup when `clean` is set and the pass completes. */
    method RestoreAndClean(cands: seq<Blob>, clean: bool, root: DataDir, writeFails: set<Blob>, now: Timestamp,
                           ghost cs: seq<Blob>, ghost logs: set<BlobStatus>, ghost L: seq<seq<Slot>>,
                           ghost I: seq<int>, ghost codes: seq<StatusCode>, ghost n: nat)
      returns (err: Option<RestoreError>, restored: nat, failed: seq<Blob>)
      requires cs <= cands && Snapshot(cs, logs, L, I, codes)
      requires forall i, j :: 0 <= i < j < |cs| ==> cs[i].status != cs[j].status
      requires |logs| == |cs|
      requires n == FirstWriteFailure(codes, cs, writeFails) && (n < |cs| || |cs| == |cands|)
      requires MarkedUpTo(cs, logs, L, I, codes, 0, now)
      modifies this, logs, root
      ensures err == if n < |cs| then Some(WriteFailed(cands[n].id)) else None
      ensures Tally(restored, failed, blobsMap) == Pass(cs, codes, old(blobsMap), n)
      ensures Snapshot(cs, logs, L, I, codes) && MarkedUpTo(cs, logs, L, I, codes, n + 1, now)
      ensures clean && n == |cands| ==>
        root.attempts == old(root.attempts) + DirList(failed) && root.dirs == old(root.dirs) - RemovedDirs(failed, root.faulty)
      ensures !clean || n < |cands| ==> unchanged(root)
    {
      err, restored, failed := RestorePass(cands, writeFails, now, cs, logs, L, I, codes, n);
      assert unchanged(root);
      if clean && err.None? {
        var _ := CleanUp(failed, root);
      }
    }

    /** `RestoreState`, from the candidates read from disk on: a Pending
        blob is marked Failure (its state file is rewritten, and the pass
        stops with an error if that fails) and joins the failed list; a
        Failure blob joins the failed list; an OK blob is indexed and
        counted; any other code is left alone. When `clean` is set and the
        pass completes, the failed blobs' directories are removed. The pass
        reaches the first `r` candidates and never looks at the others;
        `logs` are exactly the reached candidates' status logs, `L` and `I`
        their slots and cursors on entry, `codes` their last statuses on
        entry and `n` where the pass stops. */
    method RestoreState(cands: seq<Blob>, clean: bool, root: DataDir, writeFails: set<Blob>, now: Timestamp,
                        ghost logs: set<BlobStatus>)
      returns (err: Option<RestoreError>, restored: nat, failed: seq<Blob>,
               ghost r: nat, ghost codes: seq<StatusCode>, ghost n: nat, ghost L: seq<seq<Slot>>, ghost I: seq<int>)
      requires Restorable(cands, writeFails)
      requires forall i :: 0 <= i < Reach(cands, writeFails, 0) ==> cands[i].status in logs
      requires |logs| == Reach(cands, writeFails, 0)
      modifies this, logs, root
      ensures r == old(Reach(cands, writeFails, 0))
      ensures codes == old(Codes(cands[..r])) && n == FirstWriteFailure(codes, cands[..r], writeFails)
      ensures n == r || n == r - 1
      ensures err == if n < r then Some(WriteFailed(cands[n].id)) else None
      ensures Tally(restored, failed, blobsMap) == Pass(cands[..r], codes, old(blobsMap), n)
      ensures L == old(LogsOf(cands[..r], logs)) && I == old(CursorsOf(cands[..r], logs))
      ensures Snapshot(cands[..r], logs, L, I, codes) && MarkedUpTo(cands[..r], logs, L, I, codes, n + 1, now)
      ensures clean && 0 < |cands| && n == |cands| ==>
        root.attempts == old(root.attempts) + DirList(failed) && root.dirs == old(root.dirs) - RemovedDirs(failed, root.faulty)
      ensures !clean || |cands| == 0 || n < |cands| ==> unchanged(root)
    {
      r := Reach(cands, writeFails, 0);
      ghost var cs := cands[..r];
      ReachedStop(cands, writeFails);
      ReachedSnapshot(cands, writeFails, logs, now);
      codes := Codes(cs);
      n := FirstWriteFailure(codes, cs, writeFails);
      L, I := LogsOf(cs, logs), CursorsOf(cs, logs);
      if |cands| == 0 {
        return None, 0, [], r, codes, n, L, I;
      }
      err, restored, failed := RestoreAndClean(cands, clean, root, writeFails, now, cs, logs, L, I, codes, n);
    }
  }
}
