/** The buffer manager (`BufMgr` of src/buffer.cpp) as a functional state
    machine: every operation takes the manager's state and returns the new
    state together with its outcome. File I/O is recorded in an event log
    instead of being performed; page contents are not modelled. */
module BufferManager {
  import opened Wrappers
  import opened Frames
  import opened Clock

  /** An effect the manager has on a file through the file collaborator. */
  datatype FileEvent =
    | ReadIn(key: PageKey)
    | WriteBack(key: PageKey)
    | Allocated(key: PageKey)
    | Deleted(key: PageKey)

  /** The exceptions the manager throws, reduced to the frame they name.
      `HashAlreadyPresent` is the hash table's answer to inserting a page
      that is already there. */
  datatype BufError =
    | BufferExceeded
    | PagePinned(frame: FrameId)
    | BadBuffer(frame: FrameId)
    | PageNotPinned(frame: FrameId)
    | HashAlreadyPresent

  /** The manager's state: the descriptor table, the clock hand, the
      page-location hash table (as a map) and the log of file effects. */
  datatype BufMgr = BufMgr(
    numBufs: nat,
    frames: seq<FrameDesc>,
    hand: nat,
    index: map<PageKey, FrameId>,
    log: seq<FileEvent>)

  /** The state after an operation, and what the operation returned or
      threw. On a throw the state keeps whatever the operation had already
      done, as the source does not roll back. */
  datatype Step<T> = Step(state: BufMgr, out: Result<T, BufError>)

  /** The outputs of `allocPage`: the new page number and its frame. */
  datatype Allocation = Allocation(pageNo: PageId, frame: FrameId)

  /** The shape every constructed manager has: a non-empty pool of at most
      2^32 - 1 frames, one descriptor per frame naming its own slot, and
      the hand on a frame. */
  predicate Shape(s: BufMgr) {
    && 0 < s.numBufs < FrameIdLimit
    && |s.frames| == s.numBufs
    && s.hand < s.numBufs
    && (forall i :: 0 <= i < |s.frames| ==> s.frames[i].frameNo == i)
  }

  /** The manager's invariant: every descriptor is consistent, a frame is
      valid exactly when the hash table maps its page to it, and the hash
      table maps only to valid frames holding the key's page. In particular
      a page is held by at most one frame. */
  predicate Valid(s: BufMgr) {
    && Shape(s)
    && (forall i :: 0 <= i < |s.frames| ==> Consistent(s.frames[i]))
    && (forall i :: 0 <= i < |s.frames| && s.frames[i].valid ==>
          KeyOf(s.frames[i]) in s.index && s.index[KeyOf(s.frames[i])] == i)
    && (forall k :: k in s.index ==>
          && s.index[k] < |s.frames|
          && s.frames[s.index[k]].valid
          && KeyOf(s.frames[s.index[k]]) == k)
  }

  /** `hashTable.lookup`: a missing key is `None` rather than a
      `HashNotFoundException`. */
  function Lookup(index: map<PageKey, FrameId>, key: PageKey): Option<FrameId> {
    if key in index then Some(index[key]) else None
  }

  /** Every frame holds a page that someone has pinned. */
  predicate AllPinned(s: BufMgr) {
    forall i :: 0 <= i < |s.frames| ==> Pinned(s.frames[i])
  }

  /** `after` extends `before` by write-backs only. */
  predicate WriteBacksOnly(before: seq<FileEvent>, after: seq<FileEvent>) {
    && |before| <= |after|
    && after[..|before|] == before
    && forall k :: |before| <= k < |after| ==> after[k].WriteBack?
  }

  // ---------------------------------------------------------------------
  // Construction

  /** The constructor `BufMgr(bufs)`: `bufs` empty frames, each naming its
      own slot, an empty hash table, and the hand on the last frame so that
      the first scan starts at frame 0. With `bufs == 0` the unsigned
      `bufs - 1` wraps to 2^32 - 1. */
  function Init(bufs: nat): (s: BufMgr)
    requires bufs < FrameIdLimit
    ensures s.numBufs == bufs && |s.frames| == bufs
    ensures forall i :: 0 <= i < bufs ==> s.frames[i].frameNo == i && !s.frames[i].valid
    ensures s.index == map[] && s.log == []
    ensures 0 < bufs ==> s.hand == bufs - 1 && Valid(s)
    ensures bufs == 0 ==> s.hand == FrameIdLimit - 1
  {
    var frames := seq(bufs, i requires 0 <= i => Cleared(i));
    BufMgr(bufs, frames, if bufs == 0 then FrameIdLimit - 1 else bufs - 1, map[], [])
  }

  // ---------------------------------------------------------------------
  // Emptying a frame

  /** Empties frame `j`: its descriptor is cleared and, if it held a page,
      that page's hash-table entry is removed. */
  function ClearFrame(s: BufMgr, j: nat): (t: BufMgr)
    requires Shape(s) && j < s.numBufs
  {
    var d := s.frames[j];
    var index := if d.file.Some? then s.index - {KeyOf(d)} else s.index;
    s.(frames := s.frames[j := Cleared(j)], index := index)
  }

  /** Emptying a valid frame keeps the invariant, and the page it held is
      then neither indexed nor resident. */
  lemma {:induction false} ClearFrameValid(s: BufMgr, j: nat)
    requires Shape(s) && j < s.numBufs
    ensures Valid(s) && s.frames[j].valid ==>
              && Valid(ClearFrame(s, j))
              && ClearFrame(s, j).index == s.index - {KeyOf(s.frames[j])}
  {
    if !(Valid(s) && s.frames[j].valid) {
      return;
    }
    var t := ClearFrame(s, j);
    var k := KeyOf(s.frames[j]);
    forall i | 0 <= i < |t.frames| && t.frames[i].valid
      ensures KeyOf(t.frames[i]) in t.index && t.index[KeyOf(t.frames[i])] == i
    {
      assert i != j;
      assert KeyOf(s.frames[i]) != k;
    }
    forall key | key in t.index
      ensures t.index[key] < |t.frames| && t.frames[t.index[key]].valid && KeyOf(t.frames[t.index[key]]) == key
    {
      assert s.index[key] != j;
    }
  }

  /** Clearing reference bits and moving the hand keep the invariant. */
  lemma {:induction false} ScanKeepsValid(s: BufMgr, t: BufMgr)
    requires Valid(s)
    requires t == s.(frames := t.frames, hand := t.hand)
    requires RefbitsOnlyCleared(s.frames, t.frames) && t.hand < s.numBufs
    ensures Valid(t)
  {
    forall i | 0 <= i < |t.frames|
      ensures t.frames[i].frameNo == i && Consistent(t.frames[i])
      ensures t.frames[i].valid ==> KeyOf(t.frames[i]) in t.index && t.index[KeyOf(t.frames[i])] == i
    {
      assert t.frames[i] == s.frames[i].(refbit := t.frames[i].refbit);
    }
    forall key | key in t.index
      ensures t.index[key] < |t.frames| && t.frames[t.index[key]].valid && KeyOf(t.frames[t.index[key]]) == key
    {
      var j := s.index[key];
      assert t.frames[j] == s.frames[j].(refbit := t.frames[j].refbit);
    }
  }

  /** Changing only the pin count, reference bit or dirty flag of a valid
      frame keeps the invariant. */
  lemma {:induction false} TouchKeepsValid(s: BufMgr, f: nat, d: FrameDesc)
    requires Valid(s) && f < s.numBufs && s.frames[f].valid
    requires d == s.frames[f].(pinCnt := d.pinCnt, refbit := d.refbit, dirty := d.dirty)
    ensures Valid(s.(frames := s.frames[f := d]))
  {
    var t := s.(frames := s.frames[f := d]);
    forall key | key in t.index
      ensures t.index[key] < |t.frames| && t.frames[t.index[key]].valid && KeyOf(t.frames[t.index[key]]) == key
    {
    }
  }

  /** Setting an empty frame to a page that is not resident, and indexing
      the page to it, keeps the invariant. */
  lemma {:induction false} LoadKeepsValid(s: BufMgr, f: nat, file: FileId, pageNo: PageId)
    requires Valid(s) && f < s.numBufs && !s.frames[f].valid
    requires PageKey(file, pageNo) !in s.index
    ensures Valid(s.(index := s.index[PageKey(file, pageNo) := f],
                     frames := s.frames[f := SetDesc(s.frames[f], file, pageNo)]))
  {
    var key := PageKey(file, pageNo);
    var t := s.(index := s.index[key := f], frames := s.frames[f := SetDesc(s.frames[f], file, pageNo)]);
    forall i | 0 <= i < |t.frames| && t.frames[i].valid
      ensures KeyOf(t.frames[i]) in t.index && t.index[KeyOf(t.frames[i])] == i
    {
      if i != f {
        assert KeyOf(s.frames[i]) in s.index;
      }
    }
    forall k | k in t.index
      ensures t.index[k] < |t.frames| && t.frames[t.index[k]].valid && KeyOf(t.frames[t.index[k]]) == k
    {
      if k != key {
        assert s.index[k] != f;
      }
    }
  }

  /** A cache hit: one more pin on valid frame `f`, which becomes recently
      used; nothing else changes. */
  function PinFrame(s: BufMgr, f: nat): (t: BufMgr)
    requires Valid(s) && f < s.numBufs && s.frames[f].valid
    ensures Valid(t) && t.numBufs == s.numBufs
    ensures t.index == s.index && t.log == s.log && t.hand == s.hand
    ensures t.frames[f].pinCnt == s.frames[f].pinCnt + 1
    ensures t.frames[f].valid && t.frames[f].refbit && t.frames[f].dirty == s.frames[f].dirty
    ensures forall j :: 0 <= j < |s.frames| && j != f ==> t.frames[j] == s.frames[j]
  {
    var d := s.frames[f];
    TouchKeepsValid(s, f, d.(pinCnt := d.pinCnt + 1, refbit := true));
    s.(frames := s.frames[f := d.(pinCnt := d.pinCnt + 1, refbit := true)])
  }

  /** Loading a page into empty frame `f`: the page is indexed to `f` and
      the descriptor Set; nothing else changes. */
  function LoadFrame(s: BufMgr, f: nat, file: FileId, pageNo: PageId): (t: BufMgr)
    requires Valid(s) && f < s.numBufs && !s.frames[f].valid
    requires PageKey(file, pageNo) !in s.index
    ensures Valid(t) && t.numBufs == s.numBufs && t.log == s.log && t.hand == s.hand
    ensures t.index == s.index[PageKey(file, pageNo) := f]
    ensures t.frames[f].pinCnt == 1 && t.frames[f].refbit && !t.frames[f].dirty
    ensures forall j :: 0 <= j < |s.frames| && j != f ==> t.frames[j] == s.frames[j]
  {
    LoadKeepsValid(s, f, file, pageNo);
    s.(index := s.index[PageKey(file, pageNo) := f],
       frames := s.frames[f := SetDesc(s.frames[f], file, pageNo)])
  }

  // ---------------------------------------------------------------------
  // allocBuf

  /** What a successful `allocBuf` did: it returned frame `f`, the hand
      rests on it, the page `f` held was unpinned, was written back if it
      was dirty and lost its hash-table entry, `f` is now empty, and every
      other frame changed at most by losing its reference bit. */
  predicate Evicted(s: BufMgr, t: BufMgr, f: FrameId)
    requires Valid(s)
  {
    && f < s.numBufs
    && t.numBufs == s.numBufs
    && t.hand == f
    && s.frames[f].pinCnt == 0
    && |t.frames| == |s.frames|
    && !t.frames[f].valid && Consistent(t.frames[f]) && t.frames[f].frameNo == f
    && (forall j :: 0 <= j < |s.frames| && j != f ==>
          && t.frames[j] == s.frames[j].(refbit := t.frames[j].refbit)
          && (t.frames[j].refbit ==> s.frames[j].refbit))
    && (if s.frames[f].valid then
          var k := KeyOf(s.frames[f]);
          && t.index == s.index - {k}
          && t.log == s.log + (if s.frames[f].dirty then [WriteBack(k)] else [])
        else
          t.index == s.index && t.log == s.log)
  }

  /** `allocBuf`: runs the clock scan, writes the chosen frame's page back
      if it is dirty, removes its hash-table entry and hands out the empty
      frame. Throws BufferExceeded exactly when every frame is pinned; the
      reference bits the failed scan cleared stay cleared. */
  function AllocBuf(s: BufMgr): (r: Step<FrameId>)
    requires Valid(s)
    ensures Valid(r.state)
    ensures r.out.Failure? <==> AllPinned(s)
    ensures r.out.Failure? ==>
              && r.out.error == BufferExceeded
              && r.state.numBufs == s.numBufs
              && r.state.index == s.index
              && r.state.log == s.log
              && RefbitsOnlyCleared(s.frames, r.state.frames)
    ensures r.out.Success? ==> Evicted(s, r.state, r.out.value)
  {
    var scan := ClockScan(s.frames, s.hand, 0);
    ScanFailsIffAllPinned(s.frames, s.hand);
    var t := s.(frames := scan.frames, hand := scan.hand);
    ScanKeepsValid(s, t);
    if !scan.found then
      Step(t, Failure(BufferExceeded))
    else
      var f := scan.hand;
      var d := scan.frames[f];
      if !d.valid then
        Step(t, Success(f))
      else
        var k := KeyOf(d);
        ClearFrameValid(t, f);
        var t' := ClearFrame(t, f);
        Step(t'.(log := if d.dirty then s.log + [WriteBack(k)] else s.log), Success(f))
  }

  /** The frame `allocBuf` hands out is the one the clock (second-chance)
      algorithm selects: the first frame after the hand that is empty or
      holds an unpinned page with a clear reference bit, if there is one,
      and otherwise the first unpinned frame after the hand, taken on the
      scan's second visit. Every other frame lost its reference bit exactly
      when the scan passed it. */
  lemma AllocBufChoosesVictim(s: BufMgr)
    requires Valid(s)
    ensures var r := AllocBuf(s);
            r.out.Success? ==>
              var f := r.out.value;
              && f < |s.frames|
              && if exists j :: 0 <= j < |s.frames| && Selectable(s.frames[j]) then
                   && FirstAfter(s.frames, s.hand, f, Selectable)
                   && PassedCleared(s.frames, r.state.frames, s.hand, f)
                 else
                   && FirstAfter(s.frames, s.hand, f, Unpinned)
                   && forall x :: 0 <= x < |s.frames| && x != f ==> r.state.frames[x] == s.frames[x].(refbit := false)
  {
    ScanChoosesVictim(s.frames, s.hand);
    AllocBufIsScan(s);
    if AllocBuf(s).out.Success? {
      var i :| 0 <= i < |s.frames| && !Pinned(s.frames[i]);
      assert Unpinned(s.frames[i]);
    }
  }

  /** A successful `allocBuf` hands out the frame the clock scan stopped
      at and leaves every other frame as the scan left it. */
  lemma AllocBufIsScan(s: BufMgr)
    requires Valid(s)
    ensures var r := AllocBuf(s);
            var scan := ClockScan(s.frames, s.hand, 0);
            r.out.Success? ==>
              && r.out.value == scan.hand
              && forall x :: 0 <= x < |s.frames| && x != scan.hand ==> r.state.frames[x] == scan.frames[x]
  {
  }

  // ---------------------------------------------------------------------
  // readPage

  /** `readPage(file, pageNo)`. On a hit the frame gains one pin and its
      reference bit; on a miss `allocBuf` supplies a frame, the page is read
      from the file into it, indexed and Set (pinned once). Either way the
      result is the frame the hash table now maps the page to. */
  function ReadPage(s: BufMgr, file: FileId, pageNo: PageId): (r: Step<FrameId>)
    requires Valid(s)
    ensures Valid(r.state) && r.state.numBufs == s.numBufs
    ensures r.out.Failure? ==> r.out.error == BufferExceeded
    ensures r.out.Success? ==>
              var f := r.out.value;
              && PageKey(file, pageNo) in r.state.index
              && r.state.index[PageKey(file, pageNo)] == f
              && r.state.frames[f].valid
              && r.state.frames[f].refbit
              && r.state.frames[f].pinCnt >= 1
  {
    var key := PageKey(file, pageNo);
    match Lookup(s.index, key)
    case Some(f) =>
      Step(PinFrame(s, f), Success(f))
    case None =>
      var a := AllocBuf(s);
      if a.out.Failure? then
        Step(a.state, Failure(a.out.error))
      else
        var f := a.out.value;
        var t := LoadFrame(a.state, f, file, pageNo);
        Step(t.(log := t.log + [ReadIn(key)]), Success(f))
  }

  /** `readPage` on a resident page: the page's frame gains exactly one
      pin, keeps its dirty flag, and nothing else changes; no file I/O. */
  lemma ReadPageHit(s: BufMgr, file: FileId, pageNo: PageId)
    requires Valid(s)
    requires PageKey(file, pageNo) in s.index
    ensures var r := ReadPage(s, file, pageNo);
            var f := s.index[PageKey(file, pageNo)];
            && r.out == Success(f)
            && r.state.frames[f].pinCnt == s.frames[f].pinCnt + 1
            && r.state.frames[f].dirty == s.frames[f].dirty
            && r.state.index == s.index
            && r.state.log == s.log
            && r.state.hand == s.hand
            && (forall j :: 0 <= j < |s.frames| && j != f ==> r.state.frames[j] == s.frames[j])
  {
  }

  /** `readPage` on a page that is not resident: it throws exactly when
      every frame is pinned, leaving the state `allocBuf` left, with the
      hash table and the log unchanged. Otherwise the frame it returns is
      the one `allocBuf` chose (see `AllocBufChoosesVictim`), the hand and
      every other frame are as `allocBuf` left them, the chosen frame was
      unpinned and now holds the page pinned once and clean, and the log is
      that of `allocBuf` (at most one write-back) followed by exactly one
      read of the page. */
  lemma ReadPageMiss(s: BufMgr, file: FileId, pageNo: PageId)
    requires Valid(s)
    requires PageKey(file, pageNo) !in s.index
    ensures var r := ReadPage(s, file, pageNo);
            && (r.out.Failure? <==> AllPinned(s))
            && (r.out.Failure? ==> r.state == AllocBuf(s).state && r.state.index == s.index && r.state.log == s.log)
            && (r.out.Success? ==>
                  var f := r.out.value;
                  && r.out == AllocBuf(s).out
                  && r.state.hand == AllocBuf(s).state.hand
                  && (forall j :: 0 <= j < |s.frames| && j != f ==> r.state.frames[j] == AllocBuf(s).state.frames[j])
                  && f < s.numBufs
                  && s.frames[f].pinCnt == 0
                  && r.state.frames[f].pinCnt == 1
                  && !r.state.frames[f].dirty
                  && r.state.log == AllocBuf(s).state.log + [ReadIn(PageKey(file, pageNo))]
                  && WriteBacksOnly(s.log, AllocBuf(s).state.log)
                  && |AllocBuf(s).state.log| <= |s.log| + 1)
  {
    var a := AllocBuf(s);
    if a.out.Success? {
      var f := a.out.value;
      assert Evicted(s, a.state, f);
      var w := if s.frames[f].valid && s.frames[f].dirty then [WriteBack(KeyOf(s.frames[f]))] else [];
      assert a.state.log == s.log + w;
      WriteBacksAppend(s.log, w);
    }
  }

  // ---------------------------------------------------------------------
  // unPinPage

  /** `unPinPage(file, pageNo, dirty)`: the source body is empty; this is
      the release the other operations presuppose. A page that is not
      resident is ignored; an unpinned resident page is an error; otherwise
      one pin is released and the dirty flag, once set, stays set. */
  function UnPinPage(s: BufMgr, file: FileId, pageNo: PageId, dirty: bool): (r: Step<()>)
    requires Valid(s)
    ensures Valid(r.state) && r.state.numBufs == s.numBufs
    ensures r.state.index == s.index && r.state.log == s.log && r.state.hand == s.hand
    ensures PageKey(file, pageNo) !in s.index ==> r == Step(s, Success(()))
    ensures PageKey(file, pageNo) in s.index ==>
              var f := s.index[PageKey(file, pageNo)];
              && (r.out.Failure? <==> s.frames[f].pinCnt == 0)
              && (r.out.Failure? ==> r.out.error == PageNotPinned(f) && r.state == s)
              && (r.out.Success? ==>
                    && r.state.frames[f].pinCnt + 1 == s.frames[f].pinCnt
                    && r.state.frames[f].dirty == (s.frames[f].dirty || dirty)
                    && r.state.frames[f].valid
                    && KeyOf(r.state.frames[f]) == PageKey(file, pageNo)
                    && (forall j :: 0 <= j < |s.frames| && j != f ==> r.state.frames[j] == s.frames[j]))
  {
    match Lookup(s.index, PageKey(file, pageNo))
    case None => Step(s, Success(()))
    case Some(f) =>
      var d := s.frames[f];
      if d.pinCnt == 0 then
        Step(s, Failure(PageNotPinned(f)))
      else
        TouchKeepsValid(s, f, d.(pinCnt := d.pinCnt - 1, dirty := d.dirty || dirty));
        Step(s.(frames := s.frames[f := d.(pinCnt := d.pinCnt - 1, dirty := d.dirty || dirty)]), Success(()))
  }

  // ---------------------------------------------------------------------
  // allocPage

  /** `allocPage(file)`: the file allocates a page (its number is
      `newPageNo`, chosen by the file), `allocBuf` supplies a frame, and the
      page is indexed and Set in it. The allocation on disk happens first,
      so it stays in the log when `allocBuf` throws. */
  function AllocPage(s: BufMgr, file: FileId, newPageNo: PageId): (r: Step<Allocation>)
    requires Valid(s)
    requires PageKey(file, newPageNo) !in s.index
    ensures Valid(r.state) && r.state.numBufs == s.numBufs
    ensures r.out.Failure? <==> AllPinned(s)
    ensures r.out.Failure? ==> r.out.error == BufferExceeded
    ensures r.out.Success? ==>
              var a := r.out.value;
              && a.pageNo == newPageNo
              && a.frame < r.state.numBufs
              && PageKey(file, newPageNo) in r.state.index
              && r.state.index[PageKey(file, newPageNo)] == a.frame
              && r.state.frames[a.frame].pinCnt == 1
              && !r.state.frames[a.frame].dirty
  {
    var key := PageKey(file, newPageNo);
    var s0 := s.(log := s.log + [Allocated(key)]);
    var a := AllocBuf(s0);
    if a.out.Failure? then
      Step(a.state, Failure(a.out.error))
    else
      var f := a.out.value;
      Step(LoadFrame(a.state, f, file, newPageNo), Success(Allocation(newPageNo, f)))
  }

  /** The side effects of `allocPage`: the allocation is logged first and
      stays logged when `allocBuf` throws, in which case the state is the
      one `allocBuf` left and the hash table is unchanged. On success the
      frame handed out is the one `allocBuf` chose, the log, the hand and
      every other frame are as `allocBuf` left them (so a dirty victim's
      write-back follows the allocation), and the chosen frame was unpinned
      and is now referenced. */
  lemma AllocPageEffects(s: BufMgr, file: FileId, newPageNo: PageId)
    requires Valid(s)
    requires PageKey(file, newPageNo) !in s.index
    ensures var r := AllocPage(s, file, newPageNo);
            var a := AllocBuf(s.(log := s.log + [Allocated(PageKey(file, newPageNo))]));
            && (r.out.Failure? ==>
                  && r.state == a.state
                  && r.state.index == s.index
                  && r.state.log == s.log + [Allocated(PageKey(file, newPageNo))])
            && (r.out.Success? ==>
                  && a.out == Success(r.out.value.frame)
                  && r.state.log == a.state.log
                  && r.state.hand == a.state.hand
                  && r.state.frames[r.out.value.frame].refbit
                  && (forall j :: 0 <= j < |s.frames| && j != r.out.value.frame ==> r.state.frames[j] == a.state.frames[j])
                  && s.frames[r.out.value.frame].pinCnt == 0
                  && |r.state.log| <= |s.log| + 2
                  && WriteBacksOnly(s.log + [Allocated(PageKey(file, newPageNo))], r.state.log))
  {
    var s0 := s.(log := s.log + [Allocated(PageKey(file, newPageNo))]);
    var a := AllocBuf(s0);
    if a.out.Success? {
      var f := a.out.value;
      assert Evicted(s0, a.state, f);
      var w := if s0.frames[f].valid && s0.frames[f].dirty then [WriteBack(KeyOf(s0.frames[f]))] else [];
      assert a.state.log == s0.log + w;
      WriteBacksAppend(s0.log, w);
    }
  }

  /** Appending write-backs extends a log by write-backs only. */
  lemma WriteBacksAppend(log: seq<FileEvent>, w: seq<FileEvent>)
    requires forall k :: 0 <= k < |w| ==> w[k].WriteBack?
    ensures WriteBacksOnly(log, log + w)
  {
    assert (log + w)[..|log|] == log;
  }

  // ---------------------------------------------------------------------
  // flushFile

  /** The frame an error names; `n` when the outcome is a success. */
  function StopAt(out: Result<(), BufError>, n: nat): nat {
    if out.Failure? && (out.error.BadBuffer? || out.error.PagePinned?) then out.error.frame else n
  }

  /** The loop of `flushFile` from frame `i` on. A frame of the file that
      is invalid throws BadBuffer, a pinned one PagePinned; any other frame
      of the file is written back if dirty, then emptied. Frames already
      emptied stay emptied when a later frame throws. */
  function FlushFrom(s: BufMgr, file: FileId, i: nat): (r: Step<()>)
    requires Shape(s) && i <= s.numBufs
    ensures Shape(r.state) && r.state.numBufs == s.numBufs && r.state.hand == s.hand
    ensures r.out.Failure? ==> r.out.error.BadBuffer? || r.out.error.PagePinned?
    decreases s.numBufs - i
  {
    if i == s.numBufs then
      Step(s, Success(()))
    else
      var d := s.frames[i];
      if d.file != Some(file) then
        FlushFrom(s, file, i + 1)
      else if !d.valid then
        Step(s, Failure(BadBuffer(i)))
      else if d.pinCnt >= 1 then
        Step(s, Failure(PagePinned(i)))
      else
        FlushFrom(FlushOne(s, i), file, i + 1)
  }

  /** Where the loop of `flushFile` from frame `i` stops. */
  function FlushStop(s: BufMgr, file: FileId, i: nat): nat
    requires Shape(s) && i <= s.numBufs
  {
    StopAt(FlushFrom(s, file, i).out, s.numBufs)
  }

  /** The work `flushFile` does on one frame of the file that it may empty:
      write it back if dirty, remove its entry, clear it. */
  function FlushOne(s: BufMgr, i: nat): (t: BufMgr)
    requires Shape(s) && i < s.numBufs && s.frames[i].file.Some?
  {
    var d := s.frames[i];
    var written := if d.dirty then s.(log := s.log + [WriteBack(KeyOf(d))]) else s;
    ClearFrame(written, i)
  }

  /** Where the loop of `flushFile` stops: at the first frame of the file
      that is invalid (BadBuffer) or pinned (PagePinned), or after the last
      frame; every frame of the file before that point is valid and
      unpinned. */
  lemma {:induction false} FlushFromStops(s: BufMgr, file: FileId, i: nat)
    requires Shape(s) && i <= s.numBufs
    ensures i <= FlushStop(s, file, i) <= s.numBufs
    ensures FlushFrom(s, file, i).out.Failure? ==>
              var stop := FlushStop(s, file, i);
              && stop < s.numBufs
              && s.frames[stop].file == Some(file)
              && (FlushFrom(s, file, i).out.error.BadBuffer? <==> !s.frames[stop].valid)
              && (FlushFrom(s, file, i).out.error.PagePinned? ==> s.frames[stop].pinCnt >= 1)
    ensures forall j :: i <= j < FlushStop(s, file, i) && s.frames[j].file == Some(file) ==>
              s.frames[j].valid && s.frames[j].pinCnt == 0
    decreases s.numBufs - i
  {
    if i < s.numBufs {
      var d := s.frames[i];
      if d.file != Some(file) {
        FlushFromStops(s, file, i + 1);
      } else if d.valid && d.pinCnt == 0 {
        var t := FlushOne(s, i);
        assert t.frames == s.frames[i := Cleared(i)];
        FlushFromStops(t, file, i + 1);
        assert FlushStop(s, file, i) == FlushStop(t, file, i + 1);
        forall j | i < j < FlushStop(s, file, i) && s.frames[j].file == Some(file)
          ensures s.frames[j].valid && s.frames[j].pinCnt == 0
        {
          assert t.frames[j] == s.frames[j];
        }
      }
    }
  }

  /** What the loop of `flushFile` does to the frames: every frame of the
      file before the stopping point is emptied, every other frame is left
      unchanged. */
  lemma {:induction false} FlushFromFrames(s: BufMgr, file: FileId, i: nat)
    requires Shape(s) && i <= s.numBufs
    ensures forall j :: 0 <= j < |s.frames| ==>
              FlushFrom(s, file, i).state.frames[j] ==
                (if i <= j < FlushStop(s, file, i) && s.frames[j].file == Some(file) then Cleared(j) else s.frames[j])
    decreases s.numBufs - i
  {
    if i < s.numBufs {
      var d := s.frames[i];
      if d.file != Some(file) {
        FlushFromFrames(s, file, i + 1);
      } else if d.valid && d.pinCnt == 0 {
        var t := FlushOne(s, i);
        assert t.frames == s.frames[i := Cleared(i)];
        FlushFromFrames(t, file, i + 1);
        FlushFromStops(t, file, i + 1);
        assert FlushStop(s, file, i) == FlushStop(t, file, i + 1);
      }
    }
  }

  /** The write-backs the loop of `flushFile` performs on frames `lo` up
      to `hi`: one for each dirty frame of the file, in frame order. */
  function FlushWrites(frames: seq<FrameDesc>, file: FileId, lo: nat, hi: nat): seq<FileEvent>
    requires lo <= hi <= |frames|
    decreases hi - lo
  {
    if lo == hi then
      []
    else
      var d := frames[lo];
      (if d.file == Some(file) && d.dirty then [WriteBack(PageKey(file, d.pageNo))] else [])
        + FlushWrites(frames, file, lo + 1, hi)
  }

  /** An event is among the write-backs exactly when it writes back a dirty
      frame of the file in the range. */
  lemma {:induction false} FlushWritesMembers(frames: seq<FrameDesc>, file: FileId, lo: nat, hi: nat)
    requires lo <= hi <= |frames|
    ensures forall e :: e in FlushWrites(frames, file, lo, hi) <==>
              exists j :: lo <= j < hi && frames[j].file == Some(file) && frames[j].dirty && e == WriteBack(PageKey(file, frames[j].pageNo))
    decreases hi - lo
  {
    if lo < hi {
      FlushWritesMembers(frames, file, lo + 1, hi);
    }
  }

  /** The write-backs depend only on the frames in the range. */
  lemma {:induction false} FlushWritesFrame(frames: seq<FrameDesc>, frames': seq<FrameDesc>, file: FileId, lo: nat, hi: nat)
    requires lo <= hi <= |frames| && |frames'| == |frames|
    requires forall j :: lo <= j < hi ==> frames'[j] == frames[j]
    ensures FlushWrites(frames', file, lo, hi) == FlushWrites(frames, file, lo, hi)
    decreases hi - lo
  {
    if lo < hi {
      assert frames'[lo] == frames[lo];
      FlushWritesFrame(frames, frames', file, lo + 1, hi);
    }
  }

  /** The loop of `flushFile` appends to the log exactly the write-backs of
      the dirty frames of the file before the stopping point, in frame
      order, and nothing else. */
  lemma {:induction false} FlushFromLog(s: BufMgr, file: FileId, i: nat)
    requires Shape(s) && i <= s.numBufs
    ensures i <= FlushStop(s, file, i) <= s.numBufs
    ensures FlushFrom(s, file, i).state.log == s.log + FlushWrites(s.frames, file, i, FlushStop(s, file, i))
    decreases s.numBufs - i
  {
    FlushFromStops(s, file, i);
    if i < s.numBufs {
      var d := s.frames[i];
      if d.file != Some(file) {
        FlushFromStops(s, file, i + 1);
        FlushFromLog(s, file, i + 1);
      } else if d.valid && d.pinCnt == 0 {
        var t := FlushOne(s, i);
        FlushFromLog(t, file, i + 1);
        FlushLogStep(s, file, i);
      }
    }
  }

  /** One emptied frame of the file: its write-back, if any, comes before
      those of the rest of the loop. */
  lemma FlushLogStep(s: BufMgr, file: FileId, i: nat)
    requires Shape(s) && i < s.numBufs
    requires s.frames[i].file == Some(file) && s.frames[i].valid && s.frames[i].pinCnt == 0
    requires i + 1 <= FlushStop(FlushOne(s, i), file, i + 1) <= s.numBufs
    requires FlushFrom(FlushOne(s, i), file, i + 1).state.log ==
               FlushOne(s, i).log + FlushWrites(FlushOne(s, i).frames, file, i + 1, FlushStop(FlushOne(s, i), file, i + 1))
    ensures FlushFrom(s, file, i).state.log == s.log + FlushWrites(s.frames, file, i, FlushStop(s, file, i))
  {
    var d := s.frames[i];
    var t := FlushOne(s, i);
    var stop := FlushStop(s, file, i);
    var w := if d.dirty then [WriteBack(PageKey(file, d.pageNo))] else [];
    FlushOneEffect(s, file, i);
    FlushWritesFrame(s.frames, t.frames, file, i + 1, stop);
    assert FlushWrites(s.frames, file, i, stop) == w + FlushWrites(s.frames, file, i + 1, stop);
  }

  /** Emptying frame `i` of the file: the frame is cleared, its write-back
      logged if it was dirty, and the loop goes on from the next frame. */
  lemma FlushOneEffect(s: BufMgr, file: FileId, i: nat)
    requires Shape(s) && i < s.numBufs
    requires s.frames[i].file == Some(file) && s.frames[i].valid && s.frames[i].pinCnt == 0
    ensures FlushOne(s, i).frames == s.frames[i := Cleared(i)]
    ensures FlushOne(s, i).log ==
              s.log + (if s.frames[i].dirty then [WriteBack(PageKey(file, s.frames[i].pageNo))] else [])
    ensures FlushFrom(s, file, i) == FlushFrom(FlushOne(s, i), file, i + 1)
  {
  }

  /** The loop of `flushFile` keeps the manager's invariant, and on a valid
      manager it never meets an invalid frame of the file. */
  lemma {:induction false} FlushFromKeepsValid(s: BufMgr, file: FileId, i: nat)
    requires Valid(s) && i <= s.numBufs
    ensures Valid(FlushFrom(s, file, i).state)
    ensures !(FlushFrom(s, file, i).out.Failure? && FlushFrom(s, file, i).out.error.BadBuffer?)
    decreases s.numBufs - i
  {
    if i < s.numBufs {
      var d := s.frames[i];
      if d.file == Some(file) && d.valid && d.pinCnt == 0 {
        var written := if d.dirty then s.(log := s.log + [WriteBack(KeyOf(d))]) else s;
        ClearFrameValid(written, i);
        FlushFromKeepsValid(FlushOne(s, i), file, i + 1);
      } else if d.file != Some(file) {
        FlushFromKeepsValid(s, file, i + 1);
      }
    }
  }

  /** `flushFile(file)`: scans the frames in order (see `FlushFrom`). It
      succeeds exactly when every frame of the file is valid and unpinned,
      and then no frame of the file is left and every dirty one was written
      back. A throw names the first offending frame; frames of the file
      before it are already emptied, the rest untouched. */
  function FlushFile(s: BufMgr, file: FileId): (r: Step<()>)
    requires Shape(s)
    ensures Shape(r.state) && r.state.numBufs == s.numBufs && r.state.hand == s.hand
    ensures r.out.Success? <==>
              forall j :: 0 <= j < |s.frames| && s.frames[j].file == Some(file) ==>
                s.frames[j].valid && s.frames[j].pinCnt == 0
    ensures r.out.Success? ==>
              forall j :: 0 <= j < |r.state.frames| ==> r.state.frames[j].file != Some(file)
    ensures r.out.Failure? ==>
              var e := r.out.error;
              && (e.BadBuffer? || e.PagePinned?)
              && e.frame < s.numBufs
              && s.frames[e.frame].file == Some(file)
              && (e.BadBuffer? <==> !s.frames[e.frame].valid)
              && (e.PagePinned? ==> s.frames[e.frame].pinCnt >= 1)
              && (forall j :: 0 <= j < e.frame && s.frames[j].file == Some(file) ==>
                    s.frames[j].valid && s.frames[j].pinCnt == 0 && r.state.frames[j] == Cleared(j))
              && (forall j :: e.frame <= j < |s.frames| ==> r.state.frames[j] == s.frames[j])
    ensures r.state.log == s.log + FlushWrites(s.frames, file, 0, StopAt(r.out, s.numBufs))
    ensures forall j :: 0 <= j < |s.frames| && s.frames[j].file != Some(file) ==> r.state.frames[j] == s.frames[j]
    ensures Valid(s) ==> Valid(r.state) && !(r.out.Failure? && r.out.error.BadBuffer?)
  {
    FlushFromStops(s, file, 0);
    FlushFromFrames(s, file, 0);
    FlushFromLog(s, file, 0);
    if Valid(s) then
      FlushFromKeepsValid(s, file, 0);
      FlushFrom(s, file, 0)
    else
      FlushFrom(s, file, 0)
  }

  /** What `flushFile` writes to the file: every event it logs is the
      write-back of a dirty frame of the file before the frame it stopped
      at, and every such frame is written back. After a successful flush
      every dirty page of the file has been written. */
  lemma FlushFileWrites(s: BufMgr, file: FileId)
    requires Shape(s)
    ensures var r := FlushFile(s, file);
            var stop := StopAt(r.out, s.numBufs);
            && stop <= |s.frames|
            && |s.log| <= |r.state.log|
            && r.state.log[..|s.log|] == s.log
            && (forall e :: e in r.state.log[|s.log|..] <==>
                  exists j :: 0 <= j < stop && s.frames[j].file == Some(file) && s.frames[j].dirty && e == WriteBack(PageKey(file, s.frames[j].pageNo)))
            && (r.out.Success? ==>
                  forall j :: 0 <= j < |s.frames| && s.frames[j].file == Some(file) && s.frames[j].dirty ==>
                    WriteBack(PageKey(file, s.frames[j].pageNo)) in r.state.log[|s.log|..])
  {
    var r := FlushFile(s, file);
    var stop := StopAt(r.out, s.numBufs);
    FlushWritesMembers(s.frames, file, 0, stop);
    assert r.state.log[|s.log|..] == FlushWrites(s.frames, file, 0, stop);
  }

  // ---------------------------------------------------------------------
  // disposePage

  /** `disposePage(file, pageNo)`: a resident page's frame is emptied and
      its hash-table entry removed; the page is deleted from the file
      whether or not it was resident. Never throws. */
  function DisposePage(s: BufMgr, file: FileId, pageNo: PageId): (t: BufMgr)
    requires Valid(s)
    ensures Valid(t) && t.numBufs == s.numBufs && t.hand == s.hand
    ensures PageKey(file, pageNo) !in t.index
    ensures forall i :: 0 <= i < |t.frames| && t.frames[i].valid ==> KeyOf(t.frames[i]) != PageKey(file, pageNo)
    ensures t.log == s.log + [Deleted(PageKey(file, pageNo))]
    ensures PageKey(file, pageNo) !in s.index ==> t.frames == s.frames && t.index == s.index
    ensures PageKey(file, pageNo) in s.index ==>
              var f := s.index[PageKey(file, pageNo)];
              && !t.frames[f].valid
              && t.index.Keys == s.index.Keys - {PageKey(file, pageNo)}
              && (forall j :: 0 <= j < |s.frames| && j != f ==> t.frames[j] == s.frames[j])
  {
    var key := PageKey(file, pageNo);
    match Lookup(s.index, key)
    case None =>
      s.(log := s.log + [Deleted(key)])
    case Some(f) =>
      ClearFrameValid(s, f);
      var t := ClearFrame(s, f);
      t.(log := t.log + [Deleted(key)])
  }

  // ---------------------------------------------------------------------
  // printSelf

  /** The frames that hold a page. */
  function ValidFrames(frames: seq<FrameDesc>): set<nat> {
    set i | 0 <= i < |frames| && frames[i].valid
  }

  /** The count `printSelf` reports: the number of valid frames. */
  method CountValid(frames: seq<FrameDesc>) returns (validFrames: nat)
    ensures validFrames == |ValidFrames(frames)|
  {
    validFrames := 0;
    var i := 0;
    while i < |frames|
      invariant 0 <= i <= |frames|
      invariant validFrames == |set j | 0 <= j < i && frames[j].valid|
    {
      if frames[i].valid {
        assert (set j | 0 <= j < i + 1 && frames[j].valid) == (set j | 0 <= j < i && frames[j].valid) + {i};
        validFrames := validFrames + 1;
      } else {
        assert (set j | 0 <= j < i + 1 && frames[j].valid) == (set j | 0 <= j < i && frames[j].valid);
      }
      i := i + 1;
    }
    assert (set j | 0 <= j < i && frames[j].valid) == ValidFrames(frames);
  }
}
