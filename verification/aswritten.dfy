/** Three operations of src/buffer.cpp as their code literally reads, next
    to the behaviour their doc-comments state (modelled in BufferManager),
    with lemmas that exhibit where the two part ways. */
module AsWritten {
  import opened Wrappers
  import opened Frames
  import opened BufferManager

  // ---------------------------------------------------------------------
  // flushFile: only dirty frames are removed

  /** The loop of `flushFile` as written: the entry is removed and the
      descriptor cleared only inside the `dirty` branch, so a clean frame of
      the file is passed over and stays resident. */
  function FlushFromAsWritten(s: BufMgr, file: FileId, i: nat): (r: Step<()>)
    requires Shape(s) && i <= s.numBufs
    ensures Shape(r.state) && r.state.numBufs == s.numBufs
    decreases s.numBufs - i
  {
    if i == s.numBufs then
      Step(s, Success(()))
    else
      var d := s.frames[i];
      if d.file != Some(file) then
        FlushFromAsWritten(s, file, i + 1)
      else if !d.valid then
        Step(s, Failure(BadBuffer(i)))
      else if d.pinCnt >= 1 then
        Step(s, Failure(PagePinned(i)))
      else if d.dirty then
        FlushFromAsWritten(FlushOne(s, i), file, i + 1)
      else
        FlushFromAsWritten(s, file, i + 1)
  }

  /** As written, the loop leaves every clean frame of the file as it was,
      and it succeeds under the same condition as the intended loop. */
  lemma {:induction false} AsWrittenFlushKeepsClean(s: BufMgr, file: FileId, i: nat)
    requires Shape(s) && i <= s.numBufs
    ensures var r := FlushFromAsWritten(s, file, i);
            && (r.out.Success? <==>
                  forall j :: i <= j < |s.frames| && s.frames[j].file == Some(file) ==>
                    s.frames[j].valid && s.frames[j].pinCnt == 0)
            && (forall j :: i <= j < |s.frames| && s.frames[j].file == Some(file) && !s.frames[j].dirty ==>
                  r.state.frames[j] == s.frames[j])
            && (forall j :: 0 <= j < i ==> r.state.frames[j] == s.frames[j])
    decreases s.numBufs - i
  {
    if i < s.numBufs {
      var d := s.frames[i];
      if d.file != Some(file) || (d.valid && d.pinCnt == 0 && !d.dirty) {
        AsWrittenFlushKeepsClean(s, file, i + 1);
      } else if d.valid && d.pinCnt == 0 {
        var t := FlushOne(s, i);
        assert t.frames == s.frames[i := Cleared(i)];
        AsWrittenFlushKeepsClean(t, file, i + 1);
        assert FlushFromAsWritten(s, file, i) == FlushFromAsWritten(t, file, i + 1);
        forall j | 0 <= j < |s.frames| && j != i
          ensures t.frames[j] == s.frames[j]
        {
        }
      }
    }
  }

  /** The discrepancy: on a manager where the flush succeeds, a clean page
      of the file is still valid and indexed after the as-written flush,
      while the documented flush (`FlushFile`) leaves no frame of the file. */
  lemma FlushDiscrepancy(s: BufMgr, file: FileId, j: nat)
    requires Valid(s) && j < s.numBufs
    requires forall i :: 0 <= i < |s.frames| && s.frames[i].file == Some(file) ==>
               s.frames[i].valid && s.frames[i].pinCnt == 0
    requires s.frames[j].file == Some(file) && !s.frames[j].dirty
    ensures FlushFromAsWritten(s, file, 0).out.Success?
    ensures FlushFromAsWritten(s, file, 0).state.frames[j].file == Some(file)
    ensures FlushFromAsWritten(s, file, 0).state.frames[j].valid
    ensures FlushFile(s, file).out.Success?
    ensures FlushFile(s, file).state.frames[j].file != Some(file)
  {
    AsWrittenFlushKeepsClean(s, file, 0);
  }

  // ---------------------------------------------------------------------
  // disposePage: wrong lookup target, delete only when resident

  /** `disposePage` as written: the lookup stores its answer in `frameNo`,
      so the uninitialised `frameId` (here `garbage`, some frame) is the one
      cleared; and the page is deleted from the file only inside the `try`,
      that is, only when it was resident. */
  function DisposePageAsWritten(s: BufMgr, file: FileId, pageNo: PageId, garbage: FrameId): (t: BufMgr)
    requires Valid(s) && garbage < s.numBufs
    ensures Shape(t) && t.numBufs == s.numBufs
    ensures PageKey(file, pageNo) !in t.index
  {
    var key := PageKey(file, pageNo);
    match Lookup(s.index, key)
    case None => s
    case Some(_) =>
      s.(frames := s.frames[garbage := Cleared(garbage)],
         index := s.index - {key},
         log := s.log + [Deleted(key)])
  }

  /** The discrepancy on a page that is not resident: as written the file
      is never asked to delete it, while the documented disposal does. */
  lemma DisposeSkipsDelete(s: BufMgr, file: FileId, pageNo: PageId, garbage: FrameId)
    requires Valid(s) && garbage < s.numBufs
    requires PageKey(file, pageNo) !in s.index
    ensures DisposePageAsWritten(s, file, pageNo, garbage).log == s.log
    ensures DisposePage(s, file, pageNo).log == s.log + [Deleted(PageKey(file, pageNo))]
  {
  }

  /** The discrepancy on a resident page: when the uninitialised frame
      number is not the page's frame, that frame stays valid with the page
      while its hash-table entry is gone, so the manager's invariant
      breaks; the documented disposal keeps it. */
  lemma {:induction false} DisposeClearsWrongFrame(s: BufMgr, file: FileId, pageNo: PageId, garbage: FrameId)
    requires Valid(s) && garbage < s.numBufs
    requires PageKey(file, pageNo) in s.index
    requires garbage != s.index[PageKey(file, pageNo)]
    ensures !Valid(DisposePageAsWritten(s, file, pageNo, garbage))
    ensures Valid(DisposePage(s, file, pageNo))
  {
    var f := s.index[PageKey(file, pageNo)];
    var t := DisposePageAsWritten(s, file, pageNo, garbage);
    assert t.frames[f] == s.frames[f];
    assert t.frames[f].valid && KeyOf(t.frames[f]) !in t.index;
  }

  // ---------------------------------------------------------------------
  // allocPage: the descriptor is never Set, the outputs never filled

  /** `allocPage` as written: the file allocates page `newPageNo`, but the
      hash table is given the caller's `pageNo` argument (never assigned),
      the descriptor is not Set (the code calls `Set` on the hash table),
      and `pageNo` comes back unchanged. When `pageNo` still names a
      resident page after `allocBuf`, the insertion throws. */
  function AllocPageAsWritten(s: BufMgr, file: FileId, newPageNo: PageId, pageNo: PageId): (r: Step<Allocation>)
    requires Valid(s)
    ensures Shape(r.state) && r.state.numBufs == s.numBufs
    ensures AllPinned(s) ==> r.out == Failure(BufferExceeded)
    ensures r.out.Failure? ==> r.out.error == BufferExceeded || r.out.error == HashAlreadyPresent
    ensures r.out.Failure? <==>
              AllPinned(s) || PageKey(file, pageNo) in AllocBuf(s.(log := s.log + [Allocated(PageKey(file, newPageNo))])).state.index
    ensures PageKey(file, pageNo) !in s.index ==> (r.out.Failure? <==> AllPinned(s))
    ensures r.out.Success? ==> r.out.value.pageNo == pageNo
  {
    var s0 := s.(log := s.log + [Allocated(PageKey(file, newPageNo))]);
    var a := AllocBuf(s0);
    if a.out.Failure? then
      Step(a.state, Failure(a.out.error))
    else if PageKey(file, pageNo) in a.state.index then
      Step(a.state, Failure(HashAlreadyPresent))
    else
      var f := a.out.value;
      Step(a.state.(index := a.state.index[PageKey(file, pageNo) := f]), Success(Allocation(pageNo, f)))
  }

  /** When the caller's `pageNo` names a page pinned in the pool and some
      frame is free, the as-written insertion throws HashAlreadyPresent:
      the victim `allocBuf` evicts is unpinned, so it is not that page. */
  lemma {:induction false} AllocPageRejectsPinned(s: BufMgr, file: FileId, newPageNo: PageId, pageNo: PageId)
    requires Valid(s) && !AllPinned(s)
    requires PageKey(file, pageNo) in s.index
    requires s.frames[s.index[PageKey(file, pageNo)]].pinCnt > 0
    ensures AllocPageAsWritten(s, file, newPageNo, pageNo).out == Failure(HashAlreadyPresent)
  {
    var key := PageKey(file, pageNo);
    var s0 := s.(log := s.log + [Allocated(PageKey(file, newPageNo))]);
    var a := AllocBuf(s0);
    var f := a.out.value;
    assert Evicted(s0, a.state, f);
    assert f != s.index[key];
    if s.frames[f].valid {
      assert KeyOf(s.frames[f]) != key;
    }
    assert key in a.state.index;
  }

  /** The discrepancy: whenever the as-written `allocPage` returns, the
      hash table maps a page to an empty frame, so the invariant is broken;
      unless the caller happened to pass the new page's number, the page
      the file allocated is not resident. The documented `allocPage` keeps
      the invariant and indexes the new page. */
  lemma {:induction false} AllocPageLeavesFrameUnset(s: BufMgr, file: FileId, newPageNo: PageId, pageNo: PageId)
    requires Valid(s)
    requires PageKey(file, pageNo) !in s.index && PageKey(file, newPageNo) !in s.index
    requires !AllPinned(s)
    ensures var r := AllocPageAsWritten(s, file, newPageNo, pageNo);
            && r.out.Success?
            && !Valid(r.state)
            && (pageNo != newPageNo ==> PageKey(file, newPageNo) !in r.state.index)
    ensures var r := AllocPage(s, file, newPageNo);
            && r.out.Success?
            && Valid(r.state)
            && r.out.value.pageNo == newPageNo
            && PageKey(file, newPageNo) in r.state.index
  {
    var r := AllocPageAsWritten(s, file, newPageNo, pageNo);
    var f := r.out.value.frame;
    assert r.state.index[PageKey(file, pageNo)] == f;
    assert !r.state.frames[f].valid;
  }
}
