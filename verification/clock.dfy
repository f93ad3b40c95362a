/** The clock hand and the clock (second-chance) scan that picks the frame
    a new page is loaded into. */
module Clock {
  import opened Frames

  /** `advanceClock`: the hand moves to the next frame, wrapping around.
      The source computes in `std::uint32_t`, so the increment wraps at
      2^32 before the remainder is taken; a zero-frame pool divides by zero
      and is excluded. */
  function AdvanceClock(hand: nat, numBufs: nat): (h: nat)
    requires 0 < numBufs < FrameIdLimit
    requires hand < FrameIdLimit
    ensures h < numBufs
    ensures hand < numBufs ==> h == (if hand + 1 == numBufs then 0 else hand + 1)
  {
    var next := (hand + 1) % FrameIdLimit;
    if hand < numBufs then
      ModOfSmall(hand + 1, FrameIdLimit);
      if hand + 1 < numBufs then
        ModOfSmall(hand + 1, numBufs);
        next % numBufs
      else
        ModOfSelf(numBufs);
        next % numBufs
    else
      next % numBufs
  }

  /** A remainder by a larger divisor leaves the number as it is. */
  lemma ModOfSmall(x: int, n: int)
    requires 0 <= x < n
    ensures x % n == x
  {
  }

  /** A number leaves no remainder by itself. */
  lemma ModOfSelf(n: int)
    requires 0 < n
    ensures n % n == 0
  {
  }

  /** The hand after `k` calls of `advanceClock`. */
  function AdvanceTimes(hand: nat, numBufs: nat, k: nat): nat
    requires 0 < numBufs < FrameIdLimit
    requires hand < numBufs
  {
    if k == 0 then hand else AdvanceClock(AdvanceTimes(hand, numBufs, k - 1), numBufs)
  }

  /** Within one revolution the hand walks the frames in order and wraps
      once; after exactly `numBufs` steps it is back where it started. */
  lemma {:induction false} AdvanceRevolution(hand: nat, numBufs: nat, k: nat)
    requires 0 < numBufs < FrameIdLimit
    requires hand < numBufs
    requires k <= numBufs
    ensures AdvanceTimes(hand, numBufs, k) < numBufs
    ensures AdvanceTimes(hand, numBufs, k) ==
              (if hand + k < numBufs then hand + k else hand + k - numBufs)
    ensures k == numBufs ==> AdvanceTimes(hand, numBufs, k) == hand
  {
    if k > 0 {
      AdvanceRevolution(hand, numBufs, k - 1);
    }
  }

  /** How many steps back from frame `from` frame `to` lies on the clock. */
  function Behind(from: nat, to: nat, n: nat): nat
    requires from < n && to < n
  {
    if to <= from then from - to else from + n - to
  }

  /** One step of the hand moves every other frame one step further behind. */
  lemma BehindAfterStep(hand: nat, h: nat, n: nat)
    requires hand < n && h < n
    requires h == (if hand + 1 == n then 0 else hand + 1)
    ensures forall i :: 0 <= i < n && i != h ==> Behind(h, i, n) == Behind(hand, i, n) + 1
    ensures forall i :: 0 <= i < n ==> Behind(h, i, n) < n
  {
  }

  /** The `run` frames at and behind `hand` are all pinned. */
  predicate PinnedRun(frames: seq<FrameDesc>, hand: nat, run: nat)
    requires hand < |frames|
  {
    forall i :: 0 <= i < |frames| && Behind(hand, i, |frames|) < run ==> Pinned(frames[i])
  }

  /** Meeting one more pinned frame extends the run; a run as long as the
      pool covers every frame. */
  lemma {:induction false} PinnedRunGrows(frames: seq<FrameDesc>, frames': seq<FrameDesc>, hand: nat, h: nat, run: nat)
    requires hand < |frames| && h < |frames| && |frames'| == |frames|
    requires h == (if hand + 1 == |frames| then 0 else hand + 1)
    requires PinnedRun(frames, hand, run)
    requires forall i :: 0 <= i < |frames| ==> Pinned(frames'[i]) == Pinned(frames[i])
    requires Pinned(frames[h])
    ensures PinnedRun(frames', h, run + 1)
    ensures run + 1 >= |frames| ==> forall i :: 0 <= i < |frames| ==> Pinned(frames[i])
  {
    BehindAfterStep(hand, h, |frames|);
    forall i | 0 <= i < |frames| && Behind(h, i, |frames|) < run + 1
      ensures Pinned(frames[i])
    {
      if i != h {
        assert Behind(hand, i, |frames|) < run;
      }
    }
  }

  /** The frames that still carry a reference bit; each step of the scan
      that does not stop either shrinks this set or lengthens the run of
      pinned frames, so the scan ends. */
  function RefSet(frames: seq<FrameDesc>): set<nat> {
    set i | 0 <= i < |frames| && frames[i].refbit
  }

  /** What the clock scan leaves behind: the frames (with the reference
      bits it cleared), the final hand, and whether a frame was found. */
  datatype ScanResult = ScanResult(frames: seq<FrameDesc>, hand: nat, found: bool)

  /** The clock scan of `allocBuf`. Starting after `hand`, every step
      advances the hand and looks at that frame:
      - an empty frame is taken at once;
      - a frame with its reference bit set loses it (its second chance);
      - a pinned frame is skipped;
      - an unpinned page whose bit is clear is taken.
      `run` counts the pinned frames met since the last unpinned one; when
      it covers the whole pool every frame is pinned and the scan gives
      up. The frames `run` steps behind the hand are the pinned ones. */
  function ClockScan(frames: seq<FrameDesc>, hand: nat, run: nat): (r: ScanResult)
    requires 0 < |frames| < FrameIdLimit
    requires hand < |frames|
    requires run < |frames|
    requires PinnedRun(frames, hand, run)
    ensures r.hand < |frames|
    ensures RefbitsOnlyCleared(frames, r.frames)
    ensures r.found ==> Selectable(r.frames[r.hand]) && !Pinned(frames[r.hand])
    ensures !r.found ==> forall i :: 0 <= i < |frames| ==> Pinned(frames[i])
    decreases |RefSet(frames)|, |frames| - run
  {
    var n := |frames|;
    var h := AdvanceClock(hand, n);
    var d := frames[h];
    if !d.valid then
      ScanResult(frames, h, true)
    else if d.refbit then
      var frames' := frames[h := d.(refbit := false)];
      assert RefSet(frames') == RefSet(frames) - {h};
      if d.pinCnt == 0 then
        ClockScan(frames', h, 0)
      else
        PinnedRunGrows(frames, frames', hand, h, run);
        if run + 1 == n then
          ScanResult(frames', h, false)
        else
          ClockScan(frames', h, run + 1)
    else if d.pinCnt == 0 then
      ScanResult(frames, h, true)
    else
      PinnedRunGrows(frames, frames, hand, h, run);
      if run + 1 == n then
        ScanResult(frames, h, false)
      else
        ClockScan(frames, h, run + 1)
  }

  /** The frame the scan settles on is never a pinned one, and the scan
      fails exactly when every frame is pinned. */
  lemma {:induction false} ScanFailsIffAllPinned(frames: seq<FrameDesc>, hand: nat)
    requires 0 < |frames| < FrameIdLimit
    requires hand < |frames|
    ensures !ClockScan(frames, hand, 0).found <==> forall i :: 0 <= i < |frames| ==> Pinned(frames[i])
  {
    var r := ClockScan(frames, hand, 0);
    if r.found {
      assert !Pinned(frames[r.hand]);
    }
  }

  // ---------------------------------------------------------------------
  // Which frame the clock picks

  /** How many advances the hand needs to get from frame `from` to frame
      `to`: between 1 and `n`, and `n` for `from` itself. */
  function Ahead(from: nat, to: nat, n: nat): nat
    requires from < n && to < n
  {
    if from < to then to - from else to + n - from
  }

  /** After one advance every other frame is one step nearer, and the frame
      just left is the farthest. */
  lemma AheadAfterStep(hand: nat, h: nat, n: nat)
    requires hand < n && h < n
    requires h == (if hand + 1 == n then 0 else hand + 1)
    ensures Ahead(hand, h, n) == 1 && Ahead(h, h, n) == n
    ensures forall x :: 0 <= x < n && x != h ==> Ahead(h, x, n) + 1 == Ahead(hand, x, n)
  {
  }

  /** Frame `j` is the first frame after `hand`, in the order the hand
      visits them, whose descriptor satisfies `p`. */
  predicate FirstAfter(frames: seq<FrameDesc>, hand: nat, j: nat, p: FrameDesc -> bool)
    requires hand < |frames| && j < |frames|
  {
    && p(frames[j])
    && forall x :: 0 <= x < |frames| && Ahead(hand, x, |frames|) < Ahead(hand, j, |frames|) ==> !p(frames[x])
  }

  /** The frames the hand passed on its way from `hand` to `j` lost their
      reference bit; every frame beyond `j` is as it was. Frame `j` itself
      is not constrained. */
  predicate PassedCleared(frames: seq<FrameDesc>, frames': seq<FrameDesc>, hand: nat, j: nat)
    requires hand < |frames| && j < |frames|
  {
    && |frames'| == |frames|
    && forall x :: 0 <= x < |frames| && x != j ==>
         frames'[x] == (if Ahead(hand, x, |frames|) < Ahead(hand, j, |frames|) then frames[x].(refbit := false) else frames[x])
  }

  /** If some frame within `k` advances of the hand satisfies `p`, there is
      a first such frame. */
  lemma {:induction false} FirstExists(frames: seq<FrameDesc>, hand: nat, p: FrameDesc -> bool, k: nat)
    requires hand < |frames|
    requires exists x :: 0 <= x < |frames| && p(frames[x]) && Ahead(hand, x, |frames|) <= k
    ensures exists j :: 0 <= j < |frames| && FirstAfter(frames, hand, j, p)
    decreases k
  {
    if exists x :: 0 <= x < |frames| && p(frames[x]) && Ahead(hand, x, |frames|) <= k - 1 {
      FirstExists(frames, hand, p, k - 1);
    } else {
      var x :| 0 <= x < |frames| && p(frames[x]) && Ahead(hand, x, |frames|) <= k;
      assert FirstAfter(frames, hand, x, p);
    }
  }

  /** One step of the scan that does not stop: the hand moves to `h`, the
      frame there loses its reference bit, and the run of pinned frames
      grows or restarts. Either a reference bit went or the run grew. */
  lemma ScanUnfold(frames: seq<FrameDesc>, hand: nat, run: nat)
    requires 0 < |frames| < FrameIdLimit
    requires hand < |frames| && run < |frames|
    requires PinnedRun(frames, hand, run)
    requires ClockScan(frames, hand, run).found
    requires !Selectable(frames[AdvanceClock(hand, |frames|)])
    ensures var h := AdvanceClock(hand, |frames|);
            var d := frames[h];
            var frames' := frames[h := d.(refbit := false)];
            var run' := if Pinned(d) then run + 1 else 0;
            && run' < |frames|
            && PinnedRun(frames', h, run')
            && ClockScan(frames, hand, run) == ClockScan(frames', h, run')
            && ((d.refbit && |RefSet(frames')| < |RefSet(frames)|) || (frames' == frames && run' == run + 1))
  {
    var n := |frames|;
    var h := AdvanceClock(hand, n);
    var d := frames[h];
    var frames' := frames[h := d.(refbit := false)];
    if d.refbit {
      assert RefSet(frames') == RefSet(frames) - {h};
      if d.pinCnt != 0 {
        PinnedRunGrows(frames, frames', hand, h, run);
      }
    } else {
      assert frames' == frames;
      PinnedRunGrows(frames, frames, hand, h, run);
    }
  }

  /** Looking from `h`, one step past `hand`, after the frame at `h` lost
      its reference bit: the first frame satisfying `p` is still `j` when
      `h` did not satisfy it and clearing the bit did not change that, and
      what the rest of the scan does to the frames from `h` is what the
      whole scan does from `hand`. */
  lemma StepKeepsFirst(frames: seq<FrameDesc>, hand: nat, h: nat, j: nat, p: FrameDesc -> bool, rest: seq<FrameDesc>)
    requires hand < |frames| && h < |frames| && j < |frames| && h != j
    requires h == (if hand + 1 == |frames| then 0 else hand + 1)
    requires FirstAfter(frames, hand, j, p)
    ensures FirstAfter(frames[h := frames[h].(refbit := false)], h, j, p)
    ensures PassedCleared(frames[h := frames[h].(refbit := false)], rest, h, j) ==> PassedCleared(frames, rest, hand, j)
  {
    AheadAfterStep(hand, h, |frames|);
  }

  /** Second chance, first pass: when a frame is free to take, the scan
      stops at the first one after the hand, and exactly the frames it
      passed on the way lose their reference bit. */
  lemma {:induction false} ScanTakesFirst(frames: seq<FrameDesc>, hand: nat, run: nat, j: nat)
    requires 0 < |frames| < FrameIdLimit
    requires hand < |frames| && run < |frames|
    requires PinnedRun(frames, hand, run)
    requires j < |frames| && FirstAfter(frames, hand, j, Selectable)
    ensures var r := ClockScan(frames, hand, run);
            && r.found && r.hand == j
            && r.frames[j] == frames[j]
            && PassedCleared(frames, r.frames, hand, j)
    decreases |RefSet(frames)|, |frames| - run
  {
    var n := |frames|;
    var h := AdvanceClock(hand, n);
    var r := ClockScan(frames, hand, run);
    assert r.found by {
      assert !Pinned(frames[j]);
    }
    if h != j {
      AheadAfterStep(hand, h, n);
      var d := frames[h];
      var frames' := frames[h := d.(refbit := false)];
      var run' := if Pinned(d) then run + 1 else 0;
      ScanUnfold(frames, hand, run);
      StepKeepsFirst(frames, hand, h, j, Selectable, r.frames);
      ScanTakesFirst(frames', h, run', j);
    }
  }

  /** Second chance, second pass: when no frame is free to take but some
      page is unpinned, every such page has its reference bit set; the scan
      clears every bit in one revolution and then takes the first unpinned
      frame after the hand. */
  lemma {:induction false} ScanSecondPass(frames: seq<FrameDesc>, hand: nat, run: nat, u: nat)
    requires 0 < |frames| < FrameIdLimit
    requires hand < |frames| && run < |frames|
    requires PinnedRun(frames, hand, run)
    requires forall x :: 0 <= x < |frames| ==> !Selectable(frames[x])
    requires u < |frames| && FirstAfter(frames, hand, u, Unpinned)
    ensures var r := ClockScan(frames, hand, run);
            && r.found && r.hand == u
            && forall x :: 0 <= x < |frames| ==> r.frames[x] == frames[x].(refbit := false)
    decreases |RefSet(frames)|, |frames| - run
  {
    var n := |frames|;
    var h := AdvanceClock(hand, n);
    var r := ClockScan(frames, hand, run);
    assert r.found by {
      assert !Pinned(frames[u]);
    }
    var d := frames[h];
    var frames' := frames[h := d.(refbit := false)];
    var run' := if Pinned(d) then run + 1 else 0;
    ScanUnfold(frames, hand, run);
    AheadAfterStep(hand, h, n);
    if h == u {
      SecondChanceTaken(frames', h);
    } else {
      StepKeepsFirst(frames, hand, h, u, Unpinned, r.frames);
      assert forall x :: 0 <= x < n ==> !Selectable(frames'[x]);
      ScanSecondPass(frames', h, run', u);
    }
  }

  /** The unpinned page at `h` has just lost its reference bit and no
      other frame is free to take: the scan from `h` goes round once,
      clearing every other bit, and comes back to take `h`. */
  lemma SecondChanceTaken(frames: seq<FrameDesc>, h: nat)
    requires 0 < |frames| < FrameIdLimit && h < |frames|
    requires Selectable(frames[h]) && !frames[h].refbit
    requires forall x :: 0 <= x < |frames| && x != h ==> !Selectable(frames[x])
    ensures var r := ClockScan(frames, h, 0);
            && r.found && r.hand == h
            && forall x :: 0 <= x < |frames| ==> r.frames[x] == frames[x].(refbit := false)
  {
    var n := |frames|;
    assert FirstAfter(frames, h, h, Selectable) by {
      forall x | 0 <= x < n && Ahead(h, x, n) < Ahead(h, h, n)
        ensures !Selectable(frames[x])
      {
      }
    }
    ScanTakesFirst(frames, h, 0, h);
    var r := ClockScan(frames, h, 0);
    forall x | 0 <= x < n
      ensures r.frames[x] == frames[x].(refbit := false)
    {
      if x != h {
        assert Ahead(h, x, n) < Ahead(h, h, n);
      }
    }
  }

  /** When every frame is pinned, the scan gives up after `n - run` more
      advances, clearing the reference bits of exactly the frames it
      passed. */
  lemma {:induction false} ScanAllPinned(frames: seq<FrameDesc>, hand: nat, run: nat)
    requires 0 < |frames| < FrameIdLimit
    requires hand < |frames| && run < |frames|
    requires forall i :: 0 <= i < |frames| ==> Pinned(frames[i])
    ensures var r := ClockScan(frames, hand, run);
            && !r.found
            && r.hand < |frames|
            && Ahead(hand, r.hand, |frames|) == |frames| - run
            && |r.frames| == |frames|
            && forall x :: 0 <= x < |frames| ==>
                 r.frames[x] == (if Ahead(hand, x, |frames|) <= |frames| - run then frames[x].(refbit := false) else frames[x])
    decreases |frames| - run
  {
    var n := |frames|;
    var h := AdvanceClock(hand, n);
    AheadAfterStep(hand, h, n);
    var d := frames[h];
    var frames' := frames[h := d.(refbit := false)];
    assert forall i :: 0 <= i < n ==> Pinned(frames'[i]);
    if run + 1 < n {
      if !d.refbit {
        assert frames' == frames;
      }
      assert ClockScan(frames, hand, run) == ClockScan(frames', h, run + 1);
      ScanAllPinned(frames', h, run + 1);
      PinnedStepCleared(frames, hand, h, n - run, ClockScan(frames', h, run + 1).frames);
    }
  }

  /** Clearing the frame at `h`, one step past `hand`, and then the frames
      within `k - 1` steps of `h` clears the frames within `k` steps of
      `hand`. */
  lemma PinnedStepCleared(frames: seq<FrameDesc>, hand: nat, h: nat, k: nat, rest: seq<FrameDesc>)
    requires hand < |frames| && h < |frames| && 1 < k <= |frames|
    requires h == (if hand + 1 == |frames| then 0 else hand + 1)
    requires |rest| == |frames|
    requires forall x :: 0 <= x < |frames| ==>
               rest[x] == (if Ahead(h, x, |frames|) <= k - 1 then frames[h := frames[h].(refbit := false)][x].(refbit := false)
                           else frames[h := frames[h].(refbit := false)][x])
    ensures forall x :: 0 <= x < |frames| ==>
              rest[x] == (if Ahead(hand, x, |frames|) <= k then frames[x].(refbit := false) else frames[x])
  {
    AheadAfterStep(hand, h, |frames|);
  }

  /** With every frame pinned the scan makes exactly one revolution: it
      fails with the hand back where it started and every reference bit
      cleared. */
  lemma FullRevolution(frames: seq<FrameDesc>, hand: nat)
    requires 0 < |frames| < FrameIdLimit && hand < |frames|
    requires forall i :: 0 <= i < |frames| ==> Pinned(frames[i])
    ensures var r := ClockScan(frames, hand, 0);
            && !r.found
            && r.hand == hand
            && forall x :: 0 <= x < |frames| ==> r.frames[x] == frames[x].(refbit := false)
  {
    ScanAllPinned(frames, hand, 0);
  }

  /** The victim the clock selects. If some frame is empty or an unpinned
      page with a clear reference bit, the scan takes the first such frame
      after the hand and clears the bits of exactly the frames it passed.
      Otherwise, if some page is unpinned, the scan goes round once
      clearing every bit and takes the first unpinned frame after the hand
      on its second visit. */
  lemma ScanChoosesVictim(frames: seq<FrameDesc>, hand: nat)
    requires 0 < |frames| < FrameIdLimit
    requires hand < |frames|
    ensures var r := ClockScan(frames, hand, 0);
            && ((exists j :: 0 <= j < |frames| && Selectable(frames[j])) ==>
                  && r.found
                  && FirstAfter(frames, hand, r.hand, Selectable)
                  && r.frames[r.hand] == frames[r.hand]
                  && PassedCleared(frames, r.frames, hand, r.hand))
            && ((forall j :: 0 <= j < |frames| ==> !Selectable(frames[j])) && (exists j :: 0 <= j < |frames| && Unpinned(frames[j])) ==>
                  && r.found
                  && FirstAfter(frames, hand, r.hand, Unpinned)
                  && forall x :: 0 <= x < |frames| ==> r.frames[x] == frames[x].(refbit := false))
  {
    var n := |frames|;
    if exists j :: 0 <= j < n && Selectable(frames[j]) {
      var x :| 0 <= x < n && Selectable(frames[x]);
      assert Ahead(hand, x, n) <= n;
      FirstExists(frames, hand, Selectable, n);
      var j :| 0 <= j < n && FirstAfter(frames, hand, j, Selectable);
      ScanTakesFirst(frames, hand, 0, j);
    } else if exists j :: 0 <= j < n && Unpinned(frames[j]) {
      var x :| 0 <= x < n && Unpinned(frames[x]);
      assert Ahead(hand, x, n) <= n;
      FirstExists(frames, hand, Unpinned, n);
      var u :| 0 <= u < n && FirstAfter(frames, hand, u, Unpinned);
      ScanSecondPass(frames, hand, 0, u);
    }
  }
}
