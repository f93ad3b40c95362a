# BadgerDB buffer manager, modelled in Dafny

This project models the buffer manager of BadgerDB (`BufMgr`, src/buffer.cpp):
a fixed pool of frames that caches pages of files, a descriptor per frame
(file, page number, valid, reference bit, dirty, pin count), a clock hand, and
a hash table from (file, page number) to frame. Pages are handed out pinned,
and when a new page needs a frame the clock (second-chance) algorithm picks an
unpinned one, writing it back first if it is dirty.

The model is a functional state machine. `BufferManager.BufMgr` is an
immutable record holding the descriptor table, the clock hand, the hash table
(a Dafny `map`) and a log of the effects the manager has on files (`ReadIn`,
`WriteBack`, `Allocated`, `Deleted`). Every operation that can throw returns a
`Step`: the new state together with a `Result` that is either the
operation's output or the exception it throws (BufferExceeded, PagePinned,
BadBuffer, PageNotPinned, and HashAlreadyPresent from the hash table in
the as-written `allocPage`). `DisposePage`, which never throws, returns the
new state, and `Init` builds the first state from the number of frames.
On a throw the state keeps the work already done, because the source does
not roll back.

`BufferManager.Valid` is the manager's invariant:
- every descriptor is consistent: it is valid exactly when it holds a file, and an empty frame is unpinned, clean and unreferenced;
- a frame is valid exactly when the hash table maps its page to it;
- the hash table maps only to valid frames that hold the key's page.

`Init` establishes `Valid`, and every operation is proved to preserve it.
The operations take `Valid` as a precondition because it is the class
invariant, not a demand on the caller. The exception is `FlushFile`, which
needs only the pool's shape. That way its BadBuffer branch can be reached,
and a lemma shows that it never fires on a valid manager.

Modules:
- `Wrappers` (wrappers.dfy): `Option` and `Result`.
- `Frames` (frames.dfy): the frame descriptor and its `Set`/`Clear` transitions.
- `Clock` (clock.dfy): `advanceClock` and the clock scan of `allocBuf`.
- `BufferManager` (bufmgr.dfy): the manager's state, its invariant and its operations.
- `BufferProperties` (properties.dfy): properties that relate several operations.
- `AsWritten` (aswritten.dfy): three operations as their code literally reads, with the lemmas that exhibit the discrepancies listed under Findings.

Reading of the source:
- `allocBuf` has comments but no code. The clock scan follows those comments and the usual second-chance algorithm. The hand advances before each frame is examined, then:
  - an empty frame is taken;
  - a frame whose reference bit is set loses the bit;
  - a pinned frame is skipped;
  - an unpinned, unreferenced page is the victim. It is written back if dirty, its hash-table entry is removed, and it is cleared.
- A pinned frame whose reference bit is set both loses the bit and counts as pinned. So when every frame is pinned, the scan throws after exactly one revolution, with the hand back where it started and every bit cleared (`Clock.FullRevolution`).
- The scan throws BufferExceeded after meeting as many consecutive pinned frames as the pool has frames. "Consecutive" means the count restarts at every unpinned frame. The comment at src/buffer.cpp:57 says the exception is thrown exactly when all frames are pinned. A count that never restarts can reach the pool size while an unpinned frame is still waiting for its second visit: with three frames, two pinned and one unpinned with its reference bit set, the scan would throw. With the count restarting, `Clock.ScanFailsIffAllPinned` proves the intended equivalence.
- Lines that would not compile are read for their evident meaning:
  - the missing `;` at src/buffer.cpp:46, 112, 116 and 138;
  - `hashTable->` and `hashtable->`, which both mean the hash table;
  - `file->`, which means the file.
- The descriptor class (`BufDesc`, buffer.h) is not part of this model. `Frames.SetDesc` records the page, pins it once, sets the reference bit and clears the dirty flag. `Frames.Cleared` empties every field and drops the file, so a cleared frame matches no file in `flushFile`.
- The source throws `HashNotFoundException` when a lookup misses. The model returns `None` from `Lookup` instead, and `readPage` and `disposePage` branch on that value.

## Model

| member | source | states |
|---|---|---|
| `BufferManager.Init` | src/buffer.cpp:28-39 | every frame i has frame number i and is invalid; the hash table and the log are empty; the hand is on the last frame (2^32 - 1 for an empty pool, from unsigned wrap-around); a non-empty manager satisfies the invariant |
| `Clock.AdvanceClock` | src/buffer.cpp:41-47 | the hand stays below the number of frames; from a frame in range it moves to the next one and wraps from the last frame to 0 |
| `Clock.AdvanceRevolution` | src/buffer.cpp:45-47 | k advances (k at most the pool size) walk the frames in order with one wrap; after exactly one full round the hand is back where it started |
| `Clock.PinnedRunGrows` | src/buffer.cpp:51-57 | meeting one more pinned frame lengthens the run of consecutive pinned frames behind the hand by one; a run as long as the pool means every frame is pinned |
| `Clock.ClockScan` | src/buffer.cpp:49-58 | the scan only clears reference bits; the frame it stops on is empty or an unpinned page with a clear reference bit, and was not pinned; when it gives up, every frame is pinned (which frame it stops on is stated by `Clock.ScanChoosesVictim`) |
| `Clock.ScanUnfold` | src/buffer.cpp:51-56 | a step that does not stop moves the hand one frame, clears that frame's reference bit and lengthens or restarts the pinned run; the rest of the scan continues from there, and each such step removes a reference bit or lengthens the run |
| `Clock.ScanTakesFirst` | src/buffer.cpp:51-56 | when some frame is empty or an unpinned page with a clear bit, the scan stops at the first such frame after the hand; the frames passed on the way lose their reference bit, and the chosen frame and all frames beyond it are unchanged |
| `Clock.SecondChanceTaken` | src/buffer.cpp:51-56 | an unpinned page that has just lost its reference bit, when no other frame is free, is taken after one more revolution that clears every other bit |
| `Clock.ScanSecondPass` | src/buffer.cpp:51-56 | when no frame is free to take but some page is unpinned, the scan clears every reference bit and takes the first unpinned frame after the hand, on its second visit |
| `Clock.ScanAllPinned` | src/buffer.cpp:51-57 | with every frame pinned, the scan with a pinned run of length `run` gives up after exactly `n - run` more advances, clearing the reference bits of exactly the frames it passed |
| `Clock.FullRevolution` | src/buffer.cpp:51-57 | with every frame pinned, the scan fails after one revolution, with the hand back where it started and every reference bit cleared |
| `Clock.ScanChoosesVictim` | src/buffer.cpp:49-58 | the clock's choice from any hand position: the first frame after the hand that is empty or holds an unpinned, unreferenced page, with exactly the passed frames losing their bits; failing that, the first unpinned frame after the hand, with all bits cleared |
| `Clock.ScanFailsIffAllPinned` | src/buffer.cpp:51-57 | the scan from any hand position fails if and only if every frame holds a pinned page |
| `BufferManager.ClearFrameValid` | src/buffer.cpp:144-146 | emptying a valid frame and removing its page's entry keeps the invariant and removes exactly that page from the hash table |
| `BufferManager.ScanKeepsValid` | src/buffer.cpp:49-58 | moving the hand and clearing reference bits keep the invariant |
| `BufferManager.TouchKeepsValid` | src/buffer.cpp:89-93 | changing only the pin count, reference bit or dirty flag of a valid frame keeps the invariant |
| `BufferManager.LoadKeepsValid` | src/buffer.cpp:79-86 | setting an empty frame to a non-resident page and indexing the page to that frame keeps the invariant |
| `BufferManager.AllocBuf` | src/buffer.cpp:49-58 | throws BufferExceeded if and only if every frame is pinned, changing only reference bits and the hand; otherwise returns the frame under the hand, which was unpinned and is now empty; a dirty victim is written back and a valid victim loses its hash-table entry; other frames lose at most their reference bit; the invariant is kept |
| `BufferManager.AllocBufIsScan` | src/buffer.cpp:49-58 | a successful allocBuf returns the frame the clock scan stopped at and leaves every other frame as the scan left it |
| `BufferManager.AllocBufChoosesVictim` | src/buffer.cpp:49-58 | the frame allocBuf hands out is the clock's second-chance choice: the first frame after the hand that is empty or an unpinned page with a clear reference bit, with exactly the frames passed losing their bits; if there is none, the first unpinned frame after the hand, with every other frame's bit cleared |
| `BufferManager.PinFrame` | src/buffer.cpp:89-93 | a hit adds exactly one pin to the valid frame and sets its reference bit; its dirty flag, the hash table, the log, the hand and every other frame stay as they were, and the invariant is kept |
| `BufferManager.LoadFrame` | src/buffer.cpp:82-85 | loading a non-resident page into an empty frame adds exactly that page's entry, mapping it to the frame, and leaves the frame pinned once, referenced and clean; every other frame, the hand and the log are unchanged (no file I/O), and the invariant is kept |
| `BufferManager.ReadPage` | src/buffer.cpp:70-97 | readPage throws only BufferExceeded; on success the hash table maps the page to the returned frame, which is valid, referenced and pinned; the invariant is kept |
| `BufferManager.ReadPageHit` | src/buffer.cpp:76-93 | on a resident page: returns the page's frame, with exactly one more pin and the same dirty flag; hash table, log, hand and all other frames are unchanged (no file I/O) |
| `BufferManager.ReadPageMiss` | src/buffer.cpp:79-86 | on a non-resident page: throws if and only if every frame is pinned, leaving the state allocBuf left, with hash table and log unchanged; otherwise returns the frame allocBuf chose, leaves the hand and every other frame as allocBuf left them, and the chosen frame was unpinned and now holds the page pinned once and clean; the log is allocBuf's (at most one write-back) followed by exactly one read of the page |
| `BufferManager.UnPinPage` | src/buffer.cpp:99 | the source body is empty; the model follows the release protocol the other operations assume: a non-resident page is a no-op, an unpinned resident page throws PageNotPinned, otherwise the pin count drops by one and the dirty flag is or-ed in; nothing else changes |
| `BufferManager.AllocPage` | src/buffer.cpp:101-119 | throws, and then only BufferExceeded, if and only if every frame is pinned; otherwise returns the file's new page number and a frame that the hash table now maps the page to, pinned once and clean; the invariant is kept |
| `BufferManager.AllocPageEffects` | src/buffer.cpp:109-117 | the allocation is logged first. On a throw it stays logged, the state is the one allocBuf left, and the hash table is unchanged. On success the frame handed out is the one allocBuf chose; the log, the hand and every other frame are as allocBuf left them, so a dirty victim's write-back follows the allocation; the chosen frame was unpinned and is now referenced; at most one write-back follows the allocation in the log |
| `BufferManager.FlushFrom` | src/buffer.cpp:129-150 | the flush loop keeps the pool's shape and hand and throws only BadBuffer or PagePinned |
| `BufferManager.FlushFromStops` | src/buffer.cpp:130-139 | the loop stops at the first frame of the file that is invalid (BadBuffer) or pinned (PagePinned), or after the last frame; every frame of the file before that point is valid and unpinned |
| `BufferManager.FlushFromFrames` | src/buffer.cpp:140-147 | frames of the file before the stopping point are now empty; all other frames are unchanged |
| `BufferManager.FlushWritesMembers` | src/buffer.cpp:140-143 | an event is among the write-backs of a range of frames exactly when it writes back a dirty frame of the file in that range |
| `BufferManager.FlushFromLog` | src/buffer.cpp:130-147 | the loop appends exactly the write-backs of the dirty frames of the file before the stopping point, in frame order, and nothing else |
| `BufferManager.FlushFromKeepsValid` | src/buffer.cpp:129-150 | on a valid manager the loop keeps the invariant and never throws BadBuffer |
| `BufferManager.FlushFile` | src/buffer.cpp:121-150 | succeeds if and only if every frame of the file is valid and unpinned; then no frame of the file remains. A throw names the first offending frame (invalid gives BadBuffer, pinned gives PagePinned); earlier frames of the file are already emptied and later frames are untouched. Frames of other files are unchanged. The log gains exactly the write-backs of the dirty frames of the file before the stopping point, in frame order, and the invariant is kept |
| `BufferManager.FlushFileWrites` | src/buffer.cpp:140-143 | every event flushFile logs is the write-back of a dirty frame of the file before where it stopped, and every such frame is written back; after a success every dirty page of the file has been written |
| `BufferManager.DisposePage` | src/buffer.cpp:152-172 | never throws; afterwards the page is neither indexed nor held by any valid frame; the file is asked to delete it exactly once, resident or not; a resident page's frame is emptied and no other frame changes; a non-resident page leaves frames and hash table unchanged; the invariant is kept |
| `BufferManager.CountValid` | src/buffer.cpp:174-185 | the count printSelf reports equals the number of valid frames |
| `BufferProperties.ReadAgainHits` | src/buffer.cpp:76-93 | right after a successful read, reading the same page again returns the same frame, adds exactly one pin and does no I/O |
| `BufferProperties.ReadThenUnpin` | src/buffer.cpp:89-93 | reading a resident page and then unpinning it clean restores the manager exactly, except that the frame's reference bit is set |
| `BufferProperties.DirtyIsSticky` | src/buffer.cpp:99 | a dirty unpin followed by a clean unpin leaves the page dirty, with two pins fewer |
| `BufferProperties.AllocatedPageIsResident` | src/buffer.cpp:109-119 | a page returned by allocPage is resident: reading it is a hit on the returned frame, with two pins and no I/O |
| `BufferProperties.DisposeIdempotent` | src/buffer.cpp:159-171 | disposing a page twice leaves the same frames and hash table as disposing it once; only the delete request repeats |
| `BufferProperties.ReadAfterDisposeMisses` | src/buffer.cpp:159-171 | after disposal, a successful read of the page reads it from the file |
| `BufferProperties.FlushLeavesNoEntry` | src/buffer.cpp:121-123 | after a successful flush of a valid manager, the hash table holds no page of the file |
| `BufferProperties.AllPinnedExceeds` | src/buffer.cpp:57 | with every frame pinned, reading a non-resident page and allocating a page both throw BufferExceeded, and neither changes any pin count |
| `BufferProperties.ValidCountMatchesIndex` | src/buffer.cpp:174-185 | on a valid manager the number of valid frames equals the number of hash-table entries |
| `BufferProperties.InitHoldsNothing` | src/buffer.cpp:33-36 | a freshly constructed manager has no valid frame |
| `AsWritten.FlushFromAsWritten` | src/buffer.cpp:129-150 | the flush loop as written (removal and clearing only in the dirty branch) keeps the pool's shape |
| `AsWritten.AsWrittenFlushKeepsClean` | src/buffer.cpp:140-147 | as written, the flush succeeds under the same condition as the documented one, but leaves every clean frame of the file unchanged |
| `AsWritten.FlushDiscrepancy` | src/buffer.cpp:121-147 | when the flush succeeds, a clean page of the file is still valid after the as-written flush, while the documented flush leaves no frame of the file |
| `AsWritten.DisposePageAsWritten` | src/buffer.cpp:159-172 | disposal as written (clearing the uninitialised frame number; deleting only when resident) removes the page from the hash table and keeps the pool's shape |
| `AsWritten.DisposeSkipsDelete` | src/buffer.cpp:161-170 | for a non-resident page, the as-written disposal never asks the file to delete it; the documented disposal does |
| `AsWritten.DisposeClearsWrongFrame` | src/buffer.cpp:160-165 | for a resident page whose frame is not the uninitialised frame number, the as-written disposal breaks the invariant; the documented one keeps it |
| `AsWritten.AllocPageAsWritten` | src/buffer.cpp:109-119 | allocation as written throws BufferExceeded when every frame is pinned, and HashAlreadyPresent when the caller's page number still names a resident page after allocBuf; it throws in no other case, so with a non-resident page number it throws exactly when every frame is pinned. It returns the caller's page-number argument unchanged |
| `AsWritten.AllocPageRejectsPinned` | src/buffer.cpp:112-115 | when the caller's page number names a pinned resident page and some frame is unpinned, the as-written insertion throws HashAlreadyPresent, because allocBuf's victim is unpinned and so is not that page's frame |
| `AsWritten.AllocPageLeavesFrameUnset` | src/buffer.cpp:110-118 | when some frame is unpinned and neither the caller's page number nor the new one is resident, the as-written allocation returns and breaks the invariant (the hash table maps to an empty frame); when the caller's number differs from the new one, the new page is also left unindexed. The documented allocation keeps the invariant and indexes the new page under its number |

## Findings

| source | as written | input that shows it | evidently intended | confidence | as-written member | corrected member |
|---|---|---|---|---|---|---|
| src/buffer.cpp:140-147 | the hash-table entry is removed and the descriptor cleared only inside the `dirty` branch | a file with one valid, clean, unpinned resident page: the flush succeeds and the page stays resident | the doc-comment (lines 122-123) says all pages of the file are removed, dirty or not | not executed | `AsWritten.FlushFromAsWritten`, `AsWritten.FlushDiscrepancy` | `BufferManager.FlushFile` |
| src/buffer.cpp:160-164 | the lookup stores its answer in `frameNo`, so the uninitialised `frameId` is cleared | a resident page whose frame differs from whatever `frameId` holds: that frame stays valid but its entry is removed | clear the frame the lookup returned | not executed; the line does not compile as written | `AsWritten.DisposePageAsWritten`, `AsWritten.DisposeClearsWrongFrame` | `BufferManager.DisposePage` |
| src/buffer.cpp:161-170 | `deletePage` is called only inside the `try`, that is, only when the page is resident | any page not in the pool: it is never deleted from the file | the doc-comment (lines 153-154) deletes the page from the file in every case | not executed | `AsWritten.DisposePageAsWritten`, `AsWritten.DisposeSkipsDelete` | `BufferManager.DisposePage` |
| src/buffer.cpp:110-118 | the descriptor is never Set (`Set` is called on the hash table); the hash table gets the caller's unassigned `pageNo`; neither output is filled in | any allocation while a frame is free: the hash table maps to an empty frame, and the new page is not indexed | Set the frame's descriptor, index the newly allocated page number, return that number and the frame | not executed; line 116 does not compile as written | `AsWritten.AllocPageAsWritten`, `AsWritten.AllocPageLeavesFrameUnset` | `BufferManager.AllocPage` |

## Left out

- Page contents and the buffer pool array (`bufPool`): pages are opaque. `readPage` and `allocPage` return the frame number instead of a page pointer.
- The file collaborator's internals and real disk I/O. Reads, write-backs, allocations and deletions are entries in the log. A read of a page missing from the file (which the file would throw on) is not modelled.
- `allocPage` takes the page number the file allocates as a parameter. It requires that page not to be in the hash table, since the hash table would throw on a duplicate insertion and a freshly allocated page cannot be resident.
- The hash table's internals and its size (`HASHTABLE_SZ`, src/buffer.cpp:22, computed in floating point). The index is an unbounded map, so the capacity-exhausted outcome of insertion does not arise.
- `printSelf`'s output to standard output. Only the count of valid frames is kept (`CountValid`).
- `BufferManager.UnPinPage`: the source body is empty (src/buffer.cpp:99). This minimal release exists so that eviction can be exercised. It follows the unpin protocol the rest of the manager assumes and is not source-backed.
- Exception payloads (file names, flags): each error carries only the frame it names.
- Concurrency: the manager is single-threaded, and the model is sequential.
- The buffer-manager destructor and the members declared in buffer.h but not defined in src/buffer.cpp: buffer.h is not part of this model.
