/** Properties that relate several buffer-manager operations: pinning and
    releasing, repeated reads, disposal, flushing and the valid-frame
    count. */
module BufferProperties {
  import opened Wrappers
  import opened Frames
  import opened BufferManager

  /** A page that was just read is resident: reading it again is a hit on
      the same frame, adds one pin and does no I/O. */
  lemma ReadAgainHits(s: BufMgr, file: FileId, pageNo: PageId)
    requires Valid(s)
    requires ReadPage(s, file, pageNo).out.Success?
    ensures var r1 := ReadPage(s, file, pageNo);
            var r2 := ReadPage(r1.state, file, pageNo);
            && r2.out == r1.out
            && r2.state.frames[r1.out.value].pinCnt == r1.state.frames[r1.out.value].pinCnt + 1
            && r2.state.log == r1.state.log
  {
  }

  /** Pin and release are inverse: reading a resident page and then
      unpinning it clean gives back the same manager, except that the
      frame's reference bit is now set. */
  lemma {:induction false} ReadThenUnpin(s: BufMgr, file: FileId, pageNo: PageId)
    requires Valid(s)
    requires PageKey(file, pageNo) in s.index
    ensures var f := s.index[PageKey(file, pageNo)];
            var r := UnPinPage(ReadPage(s, file, pageNo).state, file, pageNo, false);
            && r.out.Success?
            && r.state == s.(frames := s.frames[f := s.frames[f].(refbit := true)])
  {
    var f := s.index[PageKey(file, pageNo)];
    var r1 := ReadPage(s, file, pageNo);
    var r := UnPinPage(r1.state, file, pageNo, false);
    var expected := s.(frames := s.frames[f := s.frames[f].(refbit := true)]);
    assert r.state.frames[f] == expected.frames[f];
    assert r.state.frames == expected.frames;
  }

  /** The dirty flag is sticky: once an unpin marks a page dirty, a later
      clean unpin does not clear it. */
  lemma DirtyIsSticky(s: BufMgr, file: FileId, pageNo: PageId)
    requires Valid(s)
    requires PageKey(file, pageNo) in s.index
    requires s.frames[s.index[PageKey(file, pageNo)]].pinCnt >= 2
    ensures var f := s.index[PageKey(file, pageNo)];
            var r1 := UnPinPage(s, file, pageNo, true);
            var r2 := UnPinPage(r1.state, file, pageNo, false);
            && r1.out.Success? && r2.out.Success?
            && r2.state.frames[f].dirty
            && r2.state.frames[f].pinCnt + 2 == s.frames[f].pinCnt
  {
  }

  /** A newly allocated page is resident: reading it is a hit on the frame
      `allocPage` returned. */
  lemma AllocatedPageIsResident(s: BufMgr, file: FileId, newPageNo: PageId)
    requires Valid(s)
    requires PageKey(file, newPageNo) !in s.index
    requires AllocPage(s, file, newPageNo).out.Success?
    ensures var a := AllocPage(s, file, newPageNo);
            var r := ReadPage(a.state, file, newPageNo);
            && r.out == Success(a.out.value.frame)
            && r.state.frames[a.out.value.frame].pinCnt == 2
            && r.state.log == a.state.log
  {
  }

  /** Disposal is idempotent with respect to the pool: disposing the same
      page twice leaves the same frames and hash table as disposing it
      once; only the file is asked once more to delete the page. */
  lemma DisposeIdempotent(s: BufMgr, file: FileId, pageNo: PageId)
    requires Valid(s)
    ensures var t1 := DisposePage(s, file, pageNo);
            var t2 := DisposePage(t1, file, pageNo);
            && t2.frames == t1.frames
            && t2.index == t1.index
            && t2.log == t1.log + [Deleted(PageKey(file, pageNo))]
  {
  }

  /** After disposal the page is not resident: reading it again is a miss
      that reads it from the file (or fails when every frame is pinned). */
  lemma ReadAfterDisposeMisses(s: BufMgr, file: FileId, pageNo: PageId)
    requires Valid(s)
    ensures var t := DisposePage(s, file, pageNo);
            var r := ReadPage(t, file, pageNo);
            r.out.Success? ==> r.state.log[|r.state.log| - 1] == ReadIn(PageKey(file, pageNo))
  {
  }

  /** After a successful flush no page of the file is left in the hash
      table, so every later read of the file goes to disk. */
  lemma {:induction false} FlushLeavesNoEntry(s: BufMgr, file: FileId)
    requires Valid(s)
    requires FlushFile(s, file).out.Success?
    ensures forall k :: k in FlushFile(s, file).state.index ==> k.file != file
  {
    var t := FlushFile(s, file).state;
    forall k | k in t.index
      ensures k.file != file
    {
      var j := t.index[k];
      assert t.frames[j].file != Some(file);
    }
  }

  /** With every frame pinned, reading a page that is not resident and
      allocating a page both throw BufferExceeded, and no pin count
      changes. */
  lemma AllPinnedExceeds(s: BufMgr, file: FileId, pageNo: PageId)
    requires Valid(s) && AllPinned(s)
    requires PageKey(file, pageNo) !in s.index
    ensures ReadPage(s, file, pageNo).out == Failure(BufferExceeded)
    ensures AllocPage(s, file, pageNo).out == Failure(BufferExceeded)
    ensures forall j :: 0 <= j < |s.frames| ==>
              ReadPage(s, file, pageNo).state.frames[j].pinCnt == s.frames[j].pinCnt
    ensures forall j :: 0 <= j < |s.frames| ==>
              AllocPage(s, file, pageNo).state.frames[j].pinCnt == s.frames[j].pinCnt
  {
    var r := ReadPage(s, file, pageNo);
    assert RefbitsOnlyCleared(s.frames, r.state.frames);
    var s0 := s.(log := s.log + [Allocated(PageKey(file, pageNo))]);
    assert AllPinned(s0);
    assert RefbitsOnlyCleared(s0.frames, AllocPage(s, file, pageNo).state.frames);
  }

  // ---------------------------------------------------------------------
  // The count `printSelf` reports

  /** An injective map has as many values as keys. */
  lemma {:induction false} InjectiveCard<K, V>(m: map<K, V>)
    requires forall a, b :: a in m && b in m && m[a] == m[b] ==> a == b
    ensures |m.Values| == |m.Keys|
    decreases |m.Keys|
  {
    if m.Keys != {} {
      var k :| k in m.Keys;
      var m' := m - {k};
      assert m'.Values == m.Values - {m[k]} by {
        forall v | v in m.Values
          ensures v in m'.Values || v == m[k]
        {
          var a :| a in m && m[a] == v;
          if a != k {
            assert a in m';
          }
        }
      }
      assert m'.Keys == m.Keys - {k};
      InjectiveCard(m');
    }
  }

  /** The number of valid frames equals the number of hash-table entries:
      the table and the descriptors describe the same resident pages. */
  lemma {:induction false} ValidCountMatchesIndex(s: BufMgr)
    requires Valid(s)
    ensures |ValidFrames(s.frames)| == |s.index|
  {
    assert ValidFrames(s.frames) == s.index.Values by {
      forall i | i in ValidFrames(s.frames)
        ensures i in s.index.Values
      {
        assert s.index[KeyOf(s.frames[i])] == i;
      }
    }
    forall a, b | a in s.index && b in s.index && s.index[a] == s.index[b]
      ensures a == b
    {
    }
    InjectiveCard(s.index);
  }

  /** A freshly constructed manager holds no page. */
  lemma InitHoldsNothing(bufs: nat)
    requires 0 < bufs < FrameIdLimit
    ensures |ValidFrames(Init(bufs).frames)| == 0
  {
    ValidCountMatchesIndex(Init(bufs));
  }
}
