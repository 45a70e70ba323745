/** The parallel phase as a step of the mark state machine: what GC_mark_some does in the state ROOTS_PUSHED with
    GC_parallel set (boehmgc/src/mark.c). */
module ParallelPhase {
  import opened HeapGraph
  import M = Marker
  import P = ParallelMark
  import R = ParallelRuns

  /** A run of the parallel marker, from the state of a collector until the main thread returns. */
  ghost predicate Phase(m: M.Collector, c: P.Config, run: seq<P.State>)
    reads m
  {
    && c.heap == m.heap && c.globalSize == m.stackSize
    && R.Run(c, run) && R.Start(c, run[0])
    && run[0].stack == P.AsSlots(m.stack) && run[0].marked == m.marked
    && var end := run[|run|-1]; end.threads != [] && end.threads[0].pc.Finished?
  }

  lemma SlotsArePending(c: P.Config, stack: seq<Entry>, p: nat)
    ensures R.OnStack(c, P.AsSlots(stack), p) <==> Pending(c.heap.unit, stack, p)
  {
    assert [] + P.AsSlots(stack) == P.AsSlots(stack);
    R.SlotsHold(c, [], stack, p);
  }

  lemma ClosedEitherWay(h: Heap, bound: set<nat>)
    requires h.WellFormed() && Closed(h, false, bound)
    ensures Closed(h, true, bound * h.Ids())
  {
    forall a, b | a in bound * h.Ids() && Points(h, true, a, b)
      ensures b in bound * h.Ids()
    {
      var p: nat :| h.MustScan(a, p) && h.At(p) == Pointer(b);
      assert h.MayScan(a, p);
      assert Points(h, false, a, b);
    }
  }

  /** What the parallel marker starts from is as its results ask. */
  lemma StartIsListed(m: M.Collector, c: P.Config, s: P.State)
    requires m.Valid() && m.state == M.RootsPushed && c.heap == m.heap
    requires s.stack == P.AsSlots(m.stack) && s.marked == m.marked
    ensures R.Listed(c, s)
  {
    forall o, p: nat | o in s.marked && c.heap.MustScan(o, p) && c.heap.At(p).Pointer?
      ensures c.heap.At(p).obj in s.marked || R.OnStack(c, s.stack, p)
    {
      assert M.Scanned(m.heap, m.Now(), {}, o);
      assert M.Covered(m.heap, m.Now(), {}, p);
      SlotsArePending(c, m.stack, p);
    }
  }

  lemma StartIsBounded(m: M.Collector, c: P.Config, s: P.State)
    requires m.Valid() && c.heap == m.heap && R.Start(c, s)
    requires s.stack == P.AsSlots(m.stack) && s.marked == m.marked
    ensures R.AllBounded(c, m.bound * m.heap.Ids(), s)
  {
    forall o | o in R.From(c, s)
      ensures o in m.bound * m.heap.Ids()
    {
      if o !in s.marked {
        var p: nat :| R.OnStack(c, s.stack, p) && c.heap.At(p) == Pointer(o);
        SlotsArePending(c, m.stack, p);
      }
    }
    R.BoundHolds(c, s, m.bound * m.heap.Ids());
  }

  /** The marks stay within those of any mark phase, however the run ends. */
  lemma EndIsBounded(m: M.Collector, c: P.Config, run: seq<P.State>)
    requires m.Valid() && m.state == M.RootsPushed && Phase(m, c, run)
    ensures m.marked <= run[|run|-1].marked <= m.bound * m.heap.Ids()
  {
    ClosedEitherWay(m.heap, m.bound);
    StartIsListed(m, c, run[0]);
    StartIsBounded(m, c, run[0]);
    R.RunKeepsWork(c, m.bound * m.heap.Ids(), run);
    R.RunMarksMore(c, run);
  }

  /** If no stack overflowed they are complete. */
  lemma EndIsComplete(m: M.Collector, c: P.Config, run: seq<P.State>)
    requires m.Valid() && m.state == M.RootsPushed && Phase(m, c, run) && !run[|run|-1].invalid
    ensures Closed(m.heap, true, run[|run|-1].marked)
    ensures forall p: nat :: m.RootWord(true, p) && m.heap.At(p).Pointer? ==> m.heap.At(p).obj in run[|run|-1].marked
  {
    StartIsListed(m, c, run[0]);
    R.ParallelMarkIsComplete(c, run);
    var from := R.From(c, run[0]);
    ReachableIsClosed(m.heap, true, from);
    EndIsBounded(m, c, run);
    assert run[|run|-1].marked == Reachable(m.heap, true, from);
    forall p: nat | m.RootWord(true, p) && m.heap.At(p).Pointer?
      ensures m.heap.At(p).obj in from
    {
      assert M.Covered(m.heap, m.Now(), {}, p);
      SlotsArePending(c, m.stack, p);
    }
  }

  /** GC_mark_some in the state ROOTS_PUSHED, with GC_parallel, where the run shows what the markers do.  If no stack
      overflowed the mark phase is finished; otherwise the state is INVALID, from which the marker goes on. */
  method MarkInParallel(m: M.Collector, c: P.Config, ghost run: seq<P.State>, end: P.State) returns (done: bool)
    requires m.Valid() && m.state == M.RootsPushed && Phase(m, c, run) && end == run[|run|-1]
    modifies m
    ensures m.Valid() && old(m.marked) <= m.marked
    ensures done <==> !end.invalid
    ensures done ==> m.state == M.None && m.Complete()
    ensures !done ==> m.state == M.Invalid && m.stack == []
    ensures |m.asked| == old(|m.asked|) + if old(m.tooSmall) || end.tooSmall then 1 else 0
    ensures !m.tooSmall && (!done ==> |m.asked| == old(|m.asked|) + 1)
  {
    EndIsBounded(m, c, run);
    R.RunIsValidIfRoom(c, run);
    if !end.invalid {
      EndIsComplete(m, c, run);
    }
    m.marked, m.stack, m.tooSmall := end.marked, [], m.tooSmall || end.tooSmall;
    m.state := if end.invalid then M.Invalid else m.state;
    if m.tooSmall {
      m.GrowMarkStack();
    }
    done := m.state == M.RootsPushed;
    if done {
      m.state := M.None;
    }
  }

  /** However the parallel phase ends, with the rescan that follows an overflow the marks are complete. */
  method MarkAndRescan(m: M.Collector, c: P.Config, ghost run: seq<P.State>, end: P.State, ghost start: set<nat>)
    requires m.Valid() && m.state == M.RootsPushed && Phase(m, c, run) && end == run[|run|-1]
    requires start == m.marked + m.RootTargets()
    modifies m
    ensures m.Valid() && m.state == M.None && m.Complete()
    ensures forall o :: Reaches(m.heap, true, start, o) ==> o in m.marked
    ensures m.marked <= m.bound
  {
    var done := MarkInParallel(m, c, run, end);
    Finish(m, done, start);
  }

  /** The rescan, if there is one. */
  method Finish(m: M.Collector, done: bool, ghost start: set<nat>)
    requires m.Valid() && start <= m.marked + m.RootTargets()
    requires if done then m.state == M.None && m.Complete() else m.state == M.Invalid
    modifies m
    ensures m.Valid() && m.state == M.None && m.Complete()
    ensures forall o :: Reaches(m.heap, true, start, o) ==> o in m.marked
    ensures m.marked <= m.bound
  {
    if !done {
      ghost var from := m.marked + m.RootTargets();
      m.StoppedMark(from);
    }
    RootsAreMarked(m, start);
    ClosedHoldsReachable(m.heap, true, m.marked, start);
  }

  lemma RootsAreMarked(m: M.Collector, start: set<nat>)
    requires m.Complete() && start <= m.marked + m.RootTargets()
    ensures start <= m.marked
  {
    forall o | o in m.RootTargets()
      ensures o in m.marked
    {
      var p: nat :| m.RootWord(true, p) && m.heap.At(p) == Pointer(o);
    }
  }
}
