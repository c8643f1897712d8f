/** The blob entity and its status log (pkg/blob/blob.go): a fixed-capacity
    circular log of timestamped statuses with a write cursor, the blob that
    owns it, and the parsing of a state line. */
module Blobs {
  import opened Wrappers
  import opened Strings
  import opened StatusCodes

  /** Capacity of a status log (`maxLogs`). */
  const MaxLogs: nat := 16

  /** Wall-clock time of a transition, kept abstract. */
  type Timestamp = nat

  /** A 16-bit blob id. */
  type BlobId = x: int | 0 <= x < 0x1_0000

  /** One log entry (`statusLog`). */
  datatype StatusLog = StatusLog(status: Status, timestamp: Timestamp)

  /** A slot of the log: the source stores references, so a slot may be nil. */
  type Slot = Option<StatusLog>

  // ---------------------------------------------------------------------
  // The ring on values

  /** The last `MaxLogs` elements of `xs` (all of `xs` when it is shorter). */
  function Window<T>(xs: seq<T>): (w: seq<T>)
    ensures |w| == if |xs| < MaxLogs then |xs| else MaxLogs
    ensures w == xs[|xs| - |w|..]
  {
    if |xs| <= MaxLogs then xs else xs[|xs| - MaxLogs..]
  }

  /** The ring invariant: at most `MaxLogs` slots, the cursor in range, and
      while the log is still filling the cursor is its length. */
  predicate ValidRing(log: seq<Slot>, index: int)
  {
    |log| <= MaxLogs && 0 <= index < MaxLogs && (|log| < MaxLogs ==> index == |log|)
  }

  /** The slots of a valid ring in the order they were written, oldest
      first: once full, the cursor points at the oldest slot. */
  function RingContents(log: seq<Slot>, index: int): seq<Slot>
    requires ValidRing(log, index)
  {
    if |log| < MaxLogs then log else log[index..] + log[..index]
  }

  /** The code of the last written slot; an empty log or a nil slot reads as
      OK. */
  function LastCode(c: seq<Slot>): StatusCode
  {
    if c == [] then OK
    else match c[|c| - 1]
      case None => OK
      case Some(e) => e.status.code
  }

  /** The slot written last, given the cursor (`lastIndex`): the cursor's
      predecessor around the ring. */
  function PrevSlot(index: int): (r: int)
    ensures 0 <= r
    ensures 0 <= index < MaxLogs ==> r < MaxLogs && (r + 1) % MaxLogs == index
  {
    if index - 1 < 0 then MaxLogs - 1 else index - 1
  }

  /** The cursor after one write (`getAndIncIdx`): it advances and wraps to
      0 at `MaxLogs`. */
  function NextIndex(index: int): (r: int)
    ensures 0 <= index < MaxLogs ==> 0 <= r < MaxLogs && r == (index + 1) % MaxLogs
    ensures index < MaxLogs - 1 ==> r == index + 1
  {
    if index + 1 >= MaxLogs then 0 else index + 1
  }

  /** What a write needs not to index out of range: once the log is full,
      the cursor must be one of its slots. */
  predicate CanAddAt(log: seq<Slot>, index: int)
  {
    |log| >= MaxLogs ==> 0 <= index < |log|
  }

  /** The slots after one write (`addStatusLog`): appended while the log is
      short, otherwise written over the slot under the cursor. */
  function AddSlot(log: seq<Slot>, index: int, e: StatusLog): seq<Slot>
    requires CanAddAt(log, index)
  {
    if |log| < MaxLogs then log + [Some(e)] else log[index := Some(e)]
  }

  /** What reading the last slot needs: when there are slots, the cursor's
      predecessor is one of them. */
  predicate CanReadLastAt(log: seq<Slot>, index: int)
  {
    |log| > 0 ==> PrevSlot(index) < |log|
  }

  /** The last status of a log (`LastStatus`): the code in the slot written
      last; OK when there are no slots or that slot is nil. */
  function LastStatusAt(log: seq<Slot>, index: int): (c: StatusCode)
    requires CanReadLastAt(log, index)
    ensures |log| == 0 ==> c == OK
    ensures ValidRing(log, index) ==> c == LastCode(RingContents(log, index))
  {
    if |log| > 0 then
      match log[PrevSlot(index)]
      case Some(e) => e.status.code
      case None => OK
    else OK
  }

  /** A valid ring can always be written and read. */
  lemma ValidRingUsable(log: seq<Slot>, index: int)
    requires ValidRing(log, index)
    ensures CanAddAt(log, index) && CanReadLastAt(log, index)
  {
  }

  /** One write keeps the ring valid, drops the oldest entry once `MaxLogs`
      are held, and makes the new entry the last status. */
  lemma AddSlotKeepsRing(log: seq<Slot>, index: int, e: StatusLog)
    requires ValidRing(log, index)
    ensures ValidRing(AddSlot(log, index, e), NextIndex(index))
    ensures RingContents(AddSlot(log, index, e), NextIndex(index)) == Window(RingContents(log, index) + [Some(e)])
    ensures LastStatusAt(AddSlot(log, index, e), NextIndex(index)) == e.status.code
  {
    var log' := AddSlot(log, index, e);
    var before := RingContents(log, index);
    if |log| == MaxLogs {
      assert (before + [Some(e)])[1..] == log[index + 1..] + log[..index] + [Some(e)];
      if index == MaxLogs - 1 {
        assert log' == log[..index] + [Some(e)];
      } else {
        assert log'[index + 1..] == log[index + 1..];
        assert log'[..index + 1] == log[..index] + [Some(e)];
      }
    }
    assert RingContents(log', NextIndex(index)) == Window(before + [Some(e)]);
  }

  /** Appending to a window and re-windowing is windowing the whole history. */
  lemma {:induction false} WindowStep<T>(xs: seq<T>, y: T)
    ensures Window(Window(xs) + [y]) == Window(xs + [y])
  {
    if |xs| >= MaxLogs {
      var w := Window(xs);
      assert (w + [y])[1..] == xs[|xs| - MaxLogs + 1..] + [y];
      assert (xs + [y])[|xs| + 1 - MaxLogs..] == xs[|xs| - MaxLogs + 1..] + [y];
    }
  }

  /** The contents after writing each of `es` in turn, starting from `c`, as
      `AddStatusLog` describes one write. */
  function Replay(c: seq<Slot>, es: seq<Slot>): seq<Slot>
  {
    if es == [] then c else Window(Replay(c, es[..|es| - 1]) + [es[|es| - 1]])
  }

  /** After any sequence of writes to an empty log, the log holds exactly the
      last `MaxLogs` of them, oldest first. */
  lemma {:induction false} ReplayKeepsLast(es: seq<Slot>)
    ensures Replay([], es) == Window(es)
  {
    if es != [] {
      var init, e := es[..|es| - 1], es[|es| - 1];
      ReplayKeepsLast(init);
      WindowStep(init, e);
      assert init + [e] == es;
    }
  }

  /** After `MaxLogs + k` writes, the `k` oldest entries are gone and the
      other `MaxLogs` remain in order. */
  lemma OverflowDropsOldest(es: seq<Slot>, k: nat)
    requires |es| == MaxLogs + k
    ensures Replay([], es) == es[k..]
    ensures |Replay([], es)| == MaxLogs
  {
    ReplayKeepsLast(es);
  }

  // ---------------------------------------------------------------------
  // DumpLog's walk

  /** The integers from `hi - 1` down to `lo`. */
  function DescRange(lo: int, hi: int): (r: seq<int>)
    ensures |r| == if hi <= lo then 0 else hi - lo
    decreases hi - lo
  {
    if hi <= lo then [] else [hi - 1] + DescRange(lo, hi - 1)
  }

  /** The `k`-th element of `DescRange(lo, hi)` is `hi - 1 - k`. */
  lemma {:induction false} DescRangeAt(lo: int, hi: int, k: int)
    requires 0 <= k < hi - lo
    ensures DescRange(lo, hi)[k] == hi - 1 - k
    decreases hi - lo
  {
    if k > 0 {
      DescRangeAt(lo, hi - 1, k - 1);
    }
  }

  /** The slots `DumpLog` visits, in order: from the slot before the cursor
      backwards, wrapping from 0 to `MaxLogs - 1`, ending at the cursor. */
  function VisitOrder(index: int): (order: seq<int>)
    requires 0 <= index < MaxLogs
    ensures |order| == MaxLogs
  {
    DescRange(0, index) + DescRange(index, MaxLogs)
  }

  /** The slot `DumpLog` visits at step `k`: `index - 1 - k`, wrapped into
      the ring. */
  function Walk(index: int, k: int): int
  {
    if k < index then index - 1 - k else index - 1 - k + MaxLogs
  }

  /** Step `k` of the walk is `index - 1 - k` modulo `MaxLogs`. */
  lemma WalkWraps(index: int, k: int)
    requires 0 <= index < MaxLogs && 0 <= k < MaxLogs
    ensures Walk(index, k) == (index - 1 - k) % MaxLogs
  {
    if k >= index {
      var r := index - 1 - k + MaxLogs;
      assert 0 <= r < MaxLogs && index - 1 - k == r - MaxLogs;
    }
  }

  /** The walk's `k`-th slot is `Walk(index, k)`. */
  lemma VisitAt(index: int, k: int)
    requires 0 <= index < MaxLogs && 0 <= k < MaxLogs
    ensures VisitOrder(index)[k] == Walk(index, k)
  {
    if k < index {
      DescRangeAt(0, index, k);
    } else {
      DescRangeAt(index, MaxLogs, k - index);
    }
  }

  /** The `k`-th visited slot is `index - 1 - k` around the ring; the walk
      starts at the slot before the cursor, visits every slot exactly once
      and ends at the cursor. */
  lemma VisitOrderShape(index: int)
    requires 0 <= index < MaxLogs
    ensures forall k :: 0 <= k < MaxLogs ==> VisitOrder(index)[k] == (index - 1 - k) % MaxLogs
    ensures VisitOrder(index)[0] == PrevSlot(index)
    ensures VisitOrder(index)[MaxLogs - 1] == index
    ensures forall k, j :: 0 <= k < j < MaxLogs ==> VisitOrder(index)[k] != VisitOrder(index)[j]
    ensures forall s :: 0 <= s < MaxLogs ==> s in VisitOrder(index)
  {
    var v := VisitOrder(index);
    forall k | 0 <= k < MaxLogs
      ensures v[k] == Walk(index, k) == (index - 1 - k) % MaxLogs
    {
      VisitAt(index, k);
      WalkWraps(index, k);
    }
    forall s | 0 <= s < MaxLogs ensures s in v {
      if s < index { assert v[index - 1 - s] == s; } else { assert v[index + MaxLogs - 1 - s] == s; }
    }
  }

  /** Taking the whole length of a sequence gives the sequence. */
  lemma TakeAll<T>(s: seq<T>, n: int)
    requires n == |s|
    ensures s[..n] == s
  {
  }

  /** The slot at position `x`, if it lies inside the log. */
  function SlotAt(log: seq<Slot>, x: int): seq<Slot>
  {
    if 0 <= x < |log| then [log[x]] else []
  }

  /** The slots found at the positions of `order` that lie inside the log. */
  function Slots(log: seq<Slot>, order: seq<int>): seq<Slot>
  {
    if order == [] then [] else SlotAt(log, order[0]) + Slots(log, order[1..])
  }

  /** The entry of a slot, if it is not nil. */
  function EntryOf(s: Slot): seq<StatusLog>
  {
    if s.Some? then [s.value] else []
  }

  /** The entries of non-nil slots, in order. */
  function NonNil(slots: seq<Slot>): seq<StatusLog>
  {
    if slots == [] then [] else EntryOf(slots[0]) + NonNil(slots[1..])
  }

  /** `s` backwards. */
  function Reverse<T>(s: seq<T>): (r: seq<T>)
    ensures |r| == |s|
  {
    if s == [] then [] else [s[|s| - 1]] + Reverse(s[..|s| - 1])
  }

  lemma {:induction false} ReverseAppend<T>(a: seq<T>, b: seq<T>)
    ensures Reverse(a + b) == Reverse(b) + Reverse(a)
  {
    if b == [] {
      assert a + b == a;
    } else {
      ReverseAppend(a, b[..|b| - 1]);
      assert (a + b)[..|a + b| - 1] == a + b[..|b| - 1];
    }
  }

  lemma {:induction false} SlotsAppend(log: seq<Slot>, a: seq<int>, b: seq<int>)
    ensures Slots(log, a + b) == Slots(log, a) + Slots(log, b)
  {
    if a != [] {
      SlotsAppend(log, a[1..], b);
      assert (a + b)[1..] == a[1..] + b;
    } else {
      assert a + b == b;
    }
  }

  lemma {:induction false} NonNilAppend(a: seq<Slot>, b: seq<Slot>)
    ensures NonNil(a + b) == NonNil(a) + NonNil(b)
  {
    if a != [] {
      NonNilAppend(a[1..], b);
      assert (a + b)[1..] == a[1..] + b;
    } else {
      assert a + b == b;
    }
  }

  /** Walking down over positions inside the log reads that stretch of the
      log backwards. */
  lemma {:induction false} SlotsDescInside(log: seq<Slot>, lo: int, hi: int)
    requires 0 <= lo <= hi <= |log|
    ensures Slots(log, DescRange(lo, hi)) == Reverse(log[lo..hi])
    decreases hi - lo
  {
    if lo < hi {
      SlotsDescInside(log, lo, hi - 1);
      var r := DescRange(lo, hi - 1);
      assert DescRange(lo, hi) == [hi - 1] + r;
      assert ([hi - 1] + r)[1..] == r;
      assert log[lo..hi][..hi - lo - 1] == log[lo..hi - 1];
    }
  }

  /** Walking over positions past the end of the log reads nothing. */
  lemma {:induction false} SlotsDescOutside(log: seq<Slot>, lo: int, hi: int)
    requires |log| <= lo
    ensures Slots(log, DescRange(lo, hi)) == []
    decreases hi - lo
  {
    if lo < hi {
      SlotsDescOutside(log, lo, hi - 1);
      assert DescRange(lo, hi)[1..] == DescRange(lo, hi - 1);
    }
  }

  /** On a valid ring, `DumpLog`'s walk reads the contents newest first. */
  lemma VisitReadsNewestFirst(log: seq<Slot>, index: int)
    requires ValidRing(log, index)
    ensures Slots(log, VisitOrder(index)) == Reverse(RingContents(log, index))
  {
    SlotsAppend(log, DescRange(0, index), DescRange(index, MaxLogs));
    if |log| < MaxLogs {
      SlotsDescInside(log, 0, index);
      SlotsDescOutside(log, index, MaxLogs);
      assert log[0..index] == log;
    } else {
      SlotsDescInside(log, 0, index);
      SlotsDescInside(log, index, MaxLogs);
      ReverseAppend(log[index..], log[..index]);
      assert log[0..index] == log[..index];
      assert log[index..MaxLogs] == log[index..];
    }
  }

  /** The slots a walk reads all come from the log. */
  lemma {:induction false} SlotsFromLog(log: seq<Slot>, order: seq<int>)
    ensures forall x :: x in Slots(log, order) ==> x in log
  {
    if order != [] {
      SlotsFromLog(log, order[1..]);
    }
  }

  /** A sequence of nil slots has no entries. */
  lemma {:induction false} NonNilOfNils(slots: seq<Slot>)
    requires forall x :: x in slots ==> x.None?
    ensures NonNil(slots) == []
  {
    if slots != [] {
      assert slots[0] in slots;
      assert forall x :: x in slots[1..] ==> x in slots;
      NonNilOfNils(slots[1..]);
    }
  }

  /** One line of the dump: the formatted timestamp, " - ", the status. */
  function Render(e: StatusLog, formatTime: Timestamp -> string): string
  {
    formatTime(e.timestamp) + " - " + StatusText(e.status)
  }

  /** The lines of `es`, one per entry, in order. */
  function RenderAll(es: seq<StatusLog>, formatTime: Timestamp -> string): (lines: seq<string>)
    ensures |lines| == |es|
  {
    if es == [] then [] else RenderAll(es[..|es| - 1], formatTime) + [Render(es[|es| - 1], formatTime)]
  }

  /** The slots read at a single position: that slot when it lies inside
      the log, nothing otherwise. */
  lemma SlotsOne(log: seq<Slot>, i: int)
    requires 0 <= i
    ensures Slots(log, [i]) == if i < |log| then [log[i]] else []
  {
    assert [i][1..] == [];
    assert Slots(log, [i]) == (if 0 <= i < |log| then [log[i]] else []) + Slots(log, []);
  }

  /** The entries of at most one slot: its entry when it holds one,
      nothing otherwise. */
  lemma NonNilOne(slots: seq<Slot>)
    requires |slots| <= 1
    ensures NonNil(slots) == if slots != [] && slots[0].Some? then [slots[0].value] else []
  {
    if slots != [] {
      assert slots[1..] == [];
    }
  }

  /** The entry in slot `i`, if the slot lies inside the log and is not
      nil. */
  function EntryAt(log: seq<Slot>, i: int): seq<StatusLog>
  {
    if 0 <= i < |log| && log[i].Some? then [log[i].value] else []
  }

  /** One more visited slot adds its entry, if it has one, to the entries
      of the walk so far. */
  lemma WalkStep(log: seq<Slot>, order: seq<int>, k: nat)
    requires k < |order| && 0 <= order[k]
    ensures NonNil(Slots(log, order[..k + 1])) == NonNil(Slots(log, order[..k])) + EntryAt(log, order[k])
  {
    var i := order[k];
    var seen := Slots(log, order[..k]);
    var here := Slots(log, [i]);
    SlotsOne(log, i);
    NonNilOne(here);
    SlotsAppend(log, order[..k], [i]);
    assert order[..k + 1] == order[..k] + [i];
    NonNilAppend(seen, here);
  }

  /** One step of `DumpLog`'s walk at position `k`: the rendered lines
      grow by the line of slot `order[k]`, if it holds an entry. */
  lemma DumpStep(log: seq<Slot>, order: seq<int>, k: nat, formatTime: Timestamp -> string)
    requires k < |order| && 0 <= order[k]
    ensures RenderAll(NonNil(Slots(log, order[..k + 1])), formatTime)
         == RenderAll(NonNil(Slots(log, order[..k])), formatTime)
          + (if order[k] < |log| && log[order[k]].Some? then [Render(log[order[k]].value, formatTime)] else [])
  {
    WalkStep(log, order, k);
    var es := NonNil(Slots(log, order[..k]));
    if order[k] < |log| && log[order[k]].Some? {
      assert (es + EntryAt(log, order[k]))[..|es|] == es;
    } else {
      assert es + EntryAt(log, order[k]) == es;
    }
  }

  /** One turn of `DumpLog`'s loop at step `k`, whose slot is
      `Walk(index, k)`: the lines so far grow by that slot's line, if it
      holds an entry. */
  lemma DumpTurn(log: seq<Slot>, index: int, k: nat, lines: seq<string>, formatTime: Timestamp -> string)
    requires 0 <= index < MaxLogs && k < MaxLogs
    requires lines == RenderAll(NonNil(Slots(log, VisitOrder(index)[..k])), formatTime)
    ensures var i := Walk(index, k);
      (if i < |log| && log[i].Some? then lines + [Render(log[i].value, formatTime)] else lines)
        == RenderAll(NonNil(Slots(log, VisitOrder(index)[..k + 1])), formatTime)
  {
    VisitAt(index, k);
    DumpStep(log, VisitOrder(index), k, formatTime);
  }

  /** The walk reaches the cursor at its last step and otherwise moves to
      the previous slot around the ring. */
  lemma WalkNext(index: int, k: nat)
    requires 0 <= index < MaxLogs && k < MaxLogs
    ensures Walk(index, k) == index <==> k == MaxLogs - 1
    ensures Walk(index, k) != index ==>
      Walk(index, k + 1) == if Walk(index, k) - 1 < 0 then MaxLogs - 1 else Walk(index, k) - 1
  {
  }

  /** The loop of `DumpLog`: from the slot before the cursor backwards
      around the ring to the cursor, the line of every visited slot that
      lies inside the log and holds an entry. */
  method DumpLines(log: seq<Slot>, index: int, formatTime: Timestamp -> string) returns (lines: seq<string>)
    requires 0 <= index < MaxLogs
    ensures lines == RenderAll(NonNil(Slots(log, VisitOrder(index))), formatTime)
  {
    lines := [];
    var i := PrevSlot(index);
    ghost var k: nat := 0;
    while true
      invariant 0 <= k < MaxLogs && i == Walk(index, k)
      invariant lines == RenderAll(NonNil(Slots(log, VisitOrder(index)[..k])), formatTime)
      decreases MaxLogs - k
    {
      DumpTurn(log, index, k, lines, formatTime);
      WalkNext(index, k);
      if i < |log| && log[i].Some? {
        lines := lines + [Render(log[i].value, formatTime)];
      }
      if i == index {
        TakeAll(VisitOrder(index), k + 1);
        break;
      }
      i := i - 1;
      if i < 0 {
        i := MaxLogs - 1;
      }
      k := k + 1;
    }
  }

  /** The text of a dump of `es`: their lines joined by newlines, or the
      text of OK when there are none. */
  function DumpText(es: seq<StatusLog>, formatTime: Timestamp -> string): string
  {
    if es == [] then CodeText(OK) else Join(RenderAll(es, formatTime), "\n")
  }

  /** What a dump of the walk shows: on a valid ring, the entries newest
      first; when every slot is nil, the text of OK. */
  lemma DumpShows(log: seq<Slot>, index: int, formatTime: Timestamp -> string)
    requires 0 <= index < MaxLogs
    ensures ValidRing(log, index) ==>
      DumpText(NonNil(Slots(log, VisitOrder(index))), formatTime)
        == DumpText(NonNil(Reverse(RingContents(log, index))), formatTime)
    ensures (forall k :: 0 <= k < |log| ==> log[k].None?) ==>
      DumpText(NonNil(Slots(log, VisitOrder(index))), formatTime) == CodeText(OK)
  {
    if ValidRing(log, index) {
      VisitReadsNewestFirst(log, index);
    }
    if forall k :: 0 <= k < |log| ==> log[k].None? {
      SlotsFromLog(log, VisitOrder(index));
      NonNilOfNils(Slots(log, VisitOrder(index)));
    }
  }

  // ---------------------------------------------------------------------
  // BlobStatus

  /** A blob's status log (`BlobStatus`): the slots and the write cursor. */
  class BlobStatus {
    var log: seq<Slot>
    var index: int

    /** `&BlobStatus{}`: no slots, cursor at 0. */
    constructor ()
      ensures log == [] && index == 0
      ensures Valid() && Contents() == []
    {
      log := [];
      index := 0;
    }

    ghost predicate Valid()
      reads this
    {
      ValidRing(log, index)
    }

    /** The entries in the order they were written, oldest first. */
    ghost function Contents(): seq<Slot>
      reads this
      requires Valid()
    {
      RingContents(log, index)
    }

    /** `lastIndex`: the slot written last, i.e. the cursor's predecessor
        around the ring. */
    function LastIndex(): (r: int)
      reads this
      ensures 0 <= r
      ensures 0 <= index < MaxLogs ==> r < MaxLogs && (r + 1) % MaxLogs == index
    {
      PrevSlot(index)
    }

    /** `getAndIncIdx`: returns the cursor and advances it around the ring. */
    method GetAndIncIdx() returns (idx: int)
      modifies this`index
      ensures idx == old(index)
      ensures index == NextIndex(old(index))
      ensures 0 <= old(index) < MaxLogs ==> 0 <= index < MaxLogs && index == (old(index) + 1) % MaxLogs
    {
      idx := index;
      index := index + 1;
      if index >= MaxLogs {
        index := 0;
      }
    }

    /** What `addStatusLog` needs not to index out of range. */
    predicate CanAdd()
      reads this
    {
      CanAddAt(log, index)
    }

    /** `addStatusLog`: appends while the log is short, otherwise overwrites
        the slot under the cursor; the cursor advances either way. On a
        valid ring the oldest entry drops out once `MaxLogs` are held and the
        new entry becomes the last status. */
    method AddStatusLog(s: StatusLog)
      requires CanAdd()
      modifies this
      ensures index == NextIndex(old(index))
      ensures log == AddSlot(old(log), old(index), s)
      ensures old(Valid()) ==> Valid() && Contents() == Window(old(Contents()) + [Some(s)])
      ensures old(Valid()) ==> CanReadLast() && LastStatus() == s.status.code
    {
      if Valid() {
        AddSlotKeepsRing(log, index, s);
      }
      var idx := GetAndIncIdx();
      if |log| < MaxLogs {
        log := log + [Some(s)];
      } else {
        log := log[idx := Some(s)];
      }
    }

    /** Reading the last slot needs it to lie inside the log. */
    predicate CanReadLast()
      reads this
    {
      CanReadLastAt(log, index)
    }

    /** `LastStatus`: the code of the entry written last; OK when the log is
        empty or that slot is nil. */
    function LastStatus(): (c: StatusCode)
      reads this
      requires CanReadLast()
      ensures |log| == 0 ==> c == OK
      ensures Valid() ==> c == LastCode(Contents())
    {
      LastStatusAt(log, index)
    }

    /** `BlobStatus.String`: the text of the last status. */
    function Text(): (t: string)
      reads this
      requires CanReadLast()
      ensures t == CodeText(LastStatus())
    {
      if |log| > 0 && log[LastIndex()].Some? then CodeText(log[LastIndex()].value.status.code)
      else CodeText(OK)
    }

    /** `DumpLog`: walks from the last written slot backwards around the
        ring, stopping at the cursor, and renders every non-nil slot inside
        the log. On a valid ring this lists the entries newest first; with no
        entries it yields the text of OK. */
    method DumpLog(formatTime: Timestamp -> string) returns (text: string)
      requires 0 <= index < MaxLogs
      ensures text == DumpText(NonNil(Slots(log, VisitOrder(index))), formatTime)
      ensures Valid() ==> text == DumpText(NonNil(Reverse(Contents())), formatTime)
      ensures (forall k :: 0 <= k < |log| ==> log[k].None?) ==> text == CodeText(OK)
    {
      var l := log;
      var lines := DumpLines(l, index, formatTime);
      ghost var es := NonNil(Slots(l, VisitOrder(index)));
      if |lines| == 0 {
        text := CodeText(OK);
      } else {
        text := Join(lines, "\n");
      }
      assert text == DumpText(es, formatTime);
      DumpShows(l, index, formatTime);
    }

    /** `BlobStatus.DeepCopy`: a new log with the same cursor and the same
        entries in the same order. */
    method DeepCopy() returns (cpy: BlobStatus)
      ensures fresh(cpy)
      ensures cpy.index == index && cpy.log == log
    {
      cpy := new BlobStatus();
      cpy.index := index;
      cpy.log := [];
      for k := 0 to |log|
        invariant cpy.index == index
        invariant cpy.log == log[..k]
      {
        cpy.log := cpy.log + [log[k]];
      }
    }
  }

  // ---------------------------------------------------------------------
  // Blob

  /** A stored blob (`Blob`). Its id and location are never changed by the
      code modelled here; its status log reference may be nil. The option flags
      are not part of this model. */
  class Blob {
    const id: BlobId
    const location: string
    var status: BlobStatus?

    constructor (id: BlobId, location: string, status: BlobStatus?)
      ensures this.id == id && this.location == location && this.status == status
    {
      this.id := id;
      this.location := location;
      this.status := status;
    }

    /** `Blob.DeepCopy`: same id and location; the status log is copied when
        there is one and stays nil otherwise. */
    method DeepCopy() returns (cpy: Blob)
      ensures fresh(cpy)
      ensures cpy.id == id && cpy.location == location
      ensures (cpy.status == null) == (status == null)
      ensures status != null ==> fresh(cpy.status) && cpy.status.index == status.index && cpy.status.log == status.log
    {
      var st: BlobStatus? := null;
      if status != null {
        st := status.DeepCopy();
      }
      cpy := new Blob(id, location, st);
    }

    /** `LogStatus`: records `Status{code, msg}` at time `now`. */
    method LogStatus(code: StatusCode, msg: string, now: Timestamp)
      requires status != null && status.CanAdd()
      modifies status
      ensures status.log == AddSlot(old(status.log), old(status.index), StatusLog(Status(code, msg), now))
      ensures status.index == NextIndex(old(status.index))
      ensures old(status.Valid()) ==> (status.Valid()
        && status.Contents() == Window(old(status.Contents()) + [Some(StatusLog(Status(code, msg), now))])
        && status.CanReadLast() && status.LastStatus() == code)
    {
      status.AddStatusLog(StatusLog(Status(code, msg), now));
    }

    /** `LogStatusOK`. */
    method LogStatusOK(msg: string, now: Timestamp)
      requires status != null && status.CanAdd()
      modifies status
      ensures status.log == AddSlot(old(status.log), old(status.index), StatusLog(NewStatusOK(msg), now))
      ensures status.index == NextIndex(old(status.index))
      ensures old(status.Valid()) ==> (status.Valid()
        && status.Contents() == Window(old(status.Contents()) + [Some(StatusLog(NewStatusOK(msg), now))])
        && status.CanReadLast() && status.LastStatus() == OK)
    {
      status.AddStatusLog(StatusLog(NewStatusOK(msg), now));
    }

    /** `LogStatusPending`. */
    method LogStatusPending(msg: string, now: Timestamp)
      requires status != null && status.CanAdd()
      modifies status
      ensures status.log == AddSlot(old(status.log), old(status.index), StatusLog(NewStatusPending(msg), now))
      ensures status.index == NextIndex(old(status.index))
      ensures old(status.Valid()) ==> (status.Valid()
        && status.Contents() == Window(old(status.Contents()) + [Some(StatusLog(NewStatusPending(msg), now))])
        && status.CanReadLast() && status.LastStatus() == Pending)
    {
      status.AddStatusLog(StatusLog(NewStatusPending(msg), now));
    }
  }

  // ---------------------------------------------------------------------
  // ParseBlob

  /** Why a state line could not be parsed. */
  datatype ParseError = InvalidFormat(line: string) | DecodeFailed

  /** `ParseBlob`: the line must split on ':' into exactly two parts; the
      second is handed to `decode` (base64 then JSON, kept abstract). */
  function ParseBlob<T>(line: string, decode: string -> Option<T>): (r: Result<T, ParseError>)
    ensures r == Err(InvalidFormat(line)) <==> CountChar(line, ':') != 1
  {
    var parts := Split(line, ':');
    if |parts| != 2 then Err(InvalidFormat(line))
    else match decode(parts[1])
      case None => Err(DecodeFailed)
      case Some(b) => Ok(b)
  }

  /** For a line `p:e` with no other ':', exactly `e` reaches the decoder, and
      the result is what it decodes. */
  lemma ParseBlobHandsPayload<T>(p: string, e: string, decode: string -> Option<T>)
    requires ':' !in p && ':' !in e
    ensures ParseBlob(p + ":" + e, decode).Ok? <==> decode(e).Some?
    ensures decode(e).Some? ==> ParseBlob(p + ":" + e, decode) == Ok(decode(e).value)
    ensures decode(e).None? ==> ParseBlob(p + ":" + e, decode) == Err(DecodeFailed)
  {
    SplitPair(p, e, ':');
  }
}
