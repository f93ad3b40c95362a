/** Frame descriptors: the per-frame bookkeeping of the buffer pool, and the
    two transitions (Set and Clear) that the manager applies to them. */
module Frames {
  import opened Wrappers

  /** Identity of an open file; the manager compares files by identity. */
  type FileId = nat

  type PageId = nat

  /** Index of a frame in the pool (a `std::uint32_t` in the source). */
  type FrameId = nat

  /** Exclusive bound of the unsigned 32-bit frame numbers. */
  const FrameIdLimit: nat := 0x1_0000_0000

  /** Page number a cleared descriptor carries; it is never consulted. */
  const InvalidPageNo: PageId := 0

  /** A page identity: the key of the page-location hash table. */
  datatype PageKey = PageKey(file: FileId, pageNo: PageId)

  /** The bookkeeping of one frame. `file` is `None` exactly when the
      descriptor holds no file pointer (after Clear). */
  datatype FrameDesc = FrameDesc(
    frameNo: FrameId,
    file: Option<FileId>,
    pageNo: PageId,
    valid: bool,
    refbit: bool,
    dirty: bool,
    pinCnt: nat)

  /** The descriptor of frame `i` after Clear: it holds nothing. */
  function Cleared(i: FrameId): FrameDesc {
    FrameDesc(i, None, InvalidPageNo, false, false, false, 0)
  }

  /** The descriptor after Set: it holds `file`/`pageNo`, pinned once for
      the caller that loaded or allocated the page, recently used, clean. */
  function SetDesc(d: FrameDesc, file: FileId, pageNo: PageId): FrameDesc {
    FrameDesc(d.frameNo, Some(file), pageNo, true, true, false, 1)
  }

  /** A frame the clock algorithm may not take: it holds a page someone
      still uses. */
  predicate Pinned(d: FrameDesc) {
    d.valid && d.pinCnt > 0
  }

  /** No caller holds the page (or the frame is empty). */
  predicate Unpinned(d: FrameDesc) {
    !Pinned(d)
  }

  /** A frame the clock algorithm takes when it reaches it: empty, or
      holding an unpinned page whose second chance is used up. */
  predicate Selectable(d: FrameDesc) {
    !d.valid || (d.pinCnt == 0 && !d.refbit)
  }

  /** Descriptor-local invariant: a frame holds a file exactly when it is
      valid, and an empty frame is unpinned, clean and unreferenced. */
  predicate Consistent(d: FrameDesc) {
    && (d.valid <==> d.file.Some?)
    && (!d.valid ==> d.pinCnt == 0 && !d.dirty && !d.refbit)
  }

  /** The page identity a frame that holds a file pointer refers to. */
  function KeyOf(d: FrameDesc): PageKey
    requires d.file.Some?
  {
    PageKey(d.file.value, d.pageNo)
  }

  /** `after` differs from `before` at most in refbits, and only by clearing
      them: the sole effect the clock scan has on frames it passes over. */
  predicate RefbitsOnlyCleared(before: seq<FrameDesc>, after: seq<FrameDesc>) {
    && |after| == |before|
    && forall i :: 0 <= i < |before| ==>
         && after[i] == before[i].(refbit := after[i].refbit)
         && (after[i].refbit ==> before[i].refbit)
  }
}
