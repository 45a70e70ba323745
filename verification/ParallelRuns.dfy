/** Runs of the parallel marker: no work is lost under any interleaving, marking ends with nothing
    left anywhere, and threads never wait for a notification that does not come. */
module ParallelRuns {
  import opened HeapGraph
  import opened ParallelMark

  /** Work held by a thread: it will look at p, or found the object p refers to, or will push the object p
      belongs to. */
  ghost predicate Holds(c: Config, th: Thread, p: nat) {
    || Pending(c.heap.unit, th.local, p)
    || (th.cur.Some? && Examines(c.heap.unit, th.cur.value, p))
    || p in th.hand
    || (th.testing.Some? && c.heap.At(p) == Pointer(th.testing.value))
    || (th.pushing.Some? && c.heap.MustScan(th.pushing.value, p))
  }

  ghost predicate OnStack(c: Config, stack: seq<Slot>, p: nat) {
    exists i :: 0 <= i < |stack| && stack[i].Full? && Examines(c.heap.unit, stack[i].entry, p)
  }

  /** The word at p is no pointer, its object is marked, or somebody still has to look at it. */
  ghost predicate Covered(c: Config, s: State, p: nat) {
    c.heap.At(p).Pointer? ==>
      || c.heap.At(p).obj in s.marked
      || OnStack(c, s.stack, p)
      || exists t :: 0 <= t < |s.threads| && Holds(c, s.threads[t], p)
  }

  /** Unless the mark state is invalid, no word of the initial work or of a marked object is forgotten. */
  ghost predicate Lossless(c: Config, initial: seq<Slot>, s: State) {
    !s.invalid ==>
      && (forall p: nat :: OnStack(c, initial, p) ==> Covered(c, s, p))
      && (forall o, p: nat :: o in s.marked && c.heap.MustScan(o, p) ==> Covered(c, s, p))
  }

  /** Thread t replaces th by th' and the stack by stack' without forgetting anything. */
  ghost predicate Passes(c: Config, s: State, s': State, t: nat)
    requires t < |s.threads| && |s'.threads| == |s.threads|
  {
    && s.marked <= s'.marked
    && (forall u :: 0 <= u < |s.threads| && u != t ==> Same(s.threads[u], s'.threads[u]))
    && (forall p: nat :: OnStack(c, s.stack, p) ==> OnStack(c, s'.stack, p) || Holds(c, s'.threads[t], p))
    && (forall p: nat :: Holds(c, s.threads[t], p) && c.heap.At(p).Pointer? && c.heap.At(p).obj !in s'.marked ==>
          Holds(c, s'.threads[t], p) || OnStack(c, s'.stack, p))
    && (forall o, p: nat :: o in s'.marked && o !in s.marked && c.heap.MustScan(o, p) ==> Holds(c, s'.threads[t], p))
  }

  lemma CoverageKept(c: Config, s: State, s': State, t: nat, p: nat)
    requires t < |s.threads| && |s'.threads| == |s.threads|
    requires Passes(c, s, s', t) && Covered(c, s, p)
    ensures Covered(c, s', p)
  {
    if c.heap.At(p).Pointer? && c.heap.At(p).obj !in s'.marked {
      if !OnStack(c, s.stack, p) {
        var u :| 0 <= u < |s.threads| && Holds(c, s.threads[u], p);
        if u != t {
          WakeKeeps(s.threads[u]);
          assert Holds(c, s'.threads[u], p);
        }
      }
    }
  }

  lemma LosslessKept(c: Config, initial: seq<Slot>, s: State, s': State, t: nat)
    requires t < |s.threads| && |s'.threads| == |s.threads|
    requires Lossless(c, initial, s) && (s'.invalid || (!s.invalid && Passes(c, s, s', t)))
    ensures Lossless(c, initial, s')
  {
    if !s'.invalid {
      forall p: nat | OnStack(c, initial, p)
        ensures Covered(c, s', p)
      {
        CoverageKept(c, s, s', t, p);
      }
      forall o, p: nat | o in s'.marked && c.heap.MustScan(o, p)
        ensures Covered(c, s', p)
      {
        if o in s.marked {
          CoverageKept(c, s, s', t, p);
        } else {
          assert Holds(c, s'.threads[t], p);
        }
      }
    }
  }

  // ---- Every action passes its work on ----

  predicate SameWork(a: Thread, b: Thread) {
    a.local == b.local && a.cur == b.cur && a.hand == b.hand && a.testing == b.testing && a.pushing == b.pushing
  }

  /** Actions that only move control. */
  predicate Control(a: Action) {
    || a.Join? || a.Enter? || a.ReadFirst? || a.TryCas? || a.ReadStackTop? || a.Recheck? || a.Reevaluate?
    || a.StealRead? || a.StealEnd? || a.LocalDone? || a.TryShare? || a.ReadGuard? || a.NotifyAll? || a.WakeMain?
    || a.StopHelp? || a.CheckHelpers?
  }

  lemma ControlKeepsWork(c: Config, s: State, t: nat, a: Action)
    requires Enabled(c, s, t, a) && Control(a)
    ensures var s' := Do(c, s, t, a);
            && s'.stack == s.stack && s'.marked == s.marked && s'.invalid == s.invalid
            && |s'.threads| == |s.threads| && SameWork(s.threads[t], s'.threads[t])
            && (forall u :: 0 <= u < |s.threads| && u != t ==> Same(s.threads[u], s'.threads[u]))
  {
    if a.Recheck? || a.NotifyAll? || a.WakeMain? {
      WakingKeepsWork(c, s, t, a);
    }
  }

  lemma WakingKeepsWork(c: Config, s: State, t: nat, a: Action)
    requires Enabled(c, s, t, a) && (a.Recheck? || a.NotifyAll? || a.WakeMain?)
    ensures var s' := Do(c, s, t, a);
            && s'.stack == s.stack && s'.marked == s.marked && s'.invalid == s.invalid
            && |s'.threads| == |s.threads| && SameWork(s.threads[t], s'.threads[t])
            && (forall u :: 0 <= u < |s.threads| && u != t ==> Same(s.threads[u], s'.threads[u]))
  {
    WakeKeeps(s.threads[t]);
  }

  lemma ControlPasses(c: Config, s: State, t: nat, a: Action)
    requires Enabled(c, s, t, a) && Control(a)
    ensures |Do(c, s, t, a).threads| == |s.threads| && Passes(c, s, Do(c, s, t, a), t)
  {
    ControlKeepsWork(c, s, t, a);
    var s' := Do(c, s, t, a);
    forall p: nat | Holds(c, s.threads[t], p)
      ensures Holds(c, s'.threads[t], p)
    {
    }
  }

  lemma StealWritePasses(c: Config, s: State, t: nat)
    requires Enabled(c, s, t, StealWrite) && ThreadOk(c, s, t)
    ensures |Do(c, s, t, StealWrite).threads| == |s.threads| && Passes(c, s, Do(c, s, t, StealWrite), t)
  {
    var s' := Do(c, s, t, StealWrite);
    var th, th' := s.threads[t], s'.threads[t];
    PendingPush(c.heap.unit, th.local, th.pc.got);
    forall p: nat | OnStack(c, s.stack, p)
      ensures OnStack(c, s'.stack, p) || Holds(c, th', p)
    {
      var i :| 0 <= i < |s.stack| && s.stack[i].Full? && Examines(c.heap.unit, s.stack[i].entry, p);
      if i != th.pc.at {
        assert s'.stack[i] == s.stack[i];
      }
    }
  }

  lemma TakeTopPasses(c: Config, s: State, t: nat)
    requires Enabled(c, s, t, TakeTop)
    ensures |Do(c, s, t, TakeTop).threads| == |s.threads| && Passes(c, s, Do(c, s, t, TakeTop), t)
  {
    var local := s.threads[t].local;
    PendingPush(c.heap.unit, local[..|local|-1], local[|local|-1]);
    assert local == local[..|local|-1] + [local[|local|-1]];
  }

  /** Sharing a range neither leaves out nor adds a position. */
  lemma HalvesCover(unit: nat, e: Entry, p: nat)
    requires unit >= 1 && e.descr.Length? && e.descr.units >= SPLIT_RANGE_WORDS * unit
    ensures Examines(unit, e, p) <==> Examines(unit, Halves(unit, e).0, p) || Examines(unit, Halves(unit, e).1, p)
  {
    assert 0 <= (e.descr.units / 2) % unit < unit;
  }

  lemma ShareHalfPasses(c: Config, s: State, t: nat)
    requires Enabled(c, s, t, ShareHalf)
    ensures |Do(c, s, t, ShareHalf).threads| == |s.threads| && Passes(c, s, Do(c, s, t, ShareHalf), t)
  {
    var th := s.threads[t];
    var e := th.cur.value;
    PendingPush(c.heap.unit, th.local, Halves(c.heap.unit, e).0);
    forall p: nat | Examines(c.heap.unit, e, p)
      ensures Examines(c.heap.unit, Halves(c.heap.unit, e).0, p) || Examines(c.heap.unit, Halves(c.heap.unit, e).1, p)
    {
      HalvesCover(c.heap.unit, e, p);
    }
  }

  lemma SplitRangePasses(c: Config, s: State, t: nat)
    requires Enabled(c, s, t, SplitRange) && ThreadOk(c, s, t)
    ensures |Do(c, s, t, SplitRange).threads| == |s.threads| && Passes(c, s, Do(c, s, t, SplitRange), t)
  {
    var th := s.threads[t];
    PendingPush(c.heap.unit, th.local, Split(c.heap.unit, th.cur.value).1);
    forall p: nat | Examines(c.heap.unit, th.cur.value, p)
      ensures Holds(c, Do(c, s, t, SplitRange).threads[t], p)
    {
    }
  }

  lemma PushObjectPasses(c: Config, s: State, t: nat)
    requires Enabled(c, s, t, PushObject) && c.heap.unit >= 1
    ensures var s' := Do(c, s, t, PushObject);
            |s'.threads| == |s.threads| && (s'.invalid || (!s.invalid && Passes(c, s, s', t)))
  {
    var th := s.threads[t];
    PendingPush(c.heap.unit, th.local, c.heap.EntryOf(th.pushing.value));
  }

  /** Entries given back are found on the shared stack. */
  lemma SlotsHold(c: Config, stack: seq<Slot>, entries: seq<Entry>, p: nat)
    ensures OnStack(c, stack + AsSlots(entries), p) <==> OnStack(c, stack, p) || Pending(c.heap.unit, entries, p)
  {
    var longer := stack + AsSlots(entries);
    if Pending(c.heap.unit, entries, p) {
      var i :| 0 <= i < |entries| && Examines(c.heap.unit, entries[i], p);
      assert longer[|stack| + i] == Full(entries[i]);
    }
    if OnStack(c, stack, p) {
      var i :| 0 <= i < |stack| && stack[i].Full? && Examines(c.heap.unit, stack[i].entry, p);
      assert longer[i] == stack[i];
    }
  }

  lemma ReturnPasses(c: Config, s: State, t: nat, entries: seq<Entry>, keep: seq<Entry>)
    requires t < |s.threads| && s.threads[t].local == entries + keep
    ensures var s' := Return(c, s, t, entries, keep);
            |s'.threads| == |s.threads| && (s'.invalid || (!s.invalid && Passes(c, s, s', t)))
  {
    forall p: nat
      ensures OnStack(c, s.stack + AsSlots(entries), p) <==> OnStack(c, s.stack, p) || Pending(c.heap.unit, entries, p)
      ensures Pending(c.heap.unit, entries + keep, p) ==>
                Pending(c.heap.unit, entries, p) || Pending(c.heap.unit, keep, p)
    {
      SlotsHold(c, s.stack, entries, p);
      if Pending(c.heap.unit, entries + keep, p) {
        var i :| 0 <= i < |entries + keep| && Examines(c.heap.unit, (entries + keep)[i], p);
        if i >= |entries| {
          assert keep[i - |entries|] == (entries + keep)[i];
        } else {
          assert entries[i] == (entries + keep)[i];
        }
      }
    }
  }

  /** No step loses work. */
  lemma KeepsLossless(c: Config, initial: seq<Slot>, s: State, t: nat, a: Action)
    requires c.heap.unit >= 1 && Inv(c, s) && Enabled(c, s, t, a) && Lossless(c, initial, s)
    ensures Lossless(c, initial, Do(c, s, t, a))
  {
    var s' := Do(c, s, t, a);
    assert ThreadOk(c, s, t);
    if Control(a) {
      ControlKeepsWork(c, s, t, a);
      ControlPasses(c, s, t, a);
    } else {
      WorkPasses(c, s, t, a);
    }
    LosslessKept(c, initial, s, s', t);
  }

  lemma WorkPasses(c: Config, s: State, t: nat, a: Action)
    requires c.heap.unit >= 1 && Enabled(c, s, t, a) && ThreadOk(c, s, t) && !Control(a)
    ensures var s' := Do(c, s, t, a);
            |s'.threads| == |s.threads| && (s'.invalid || (!s.invalid && Passes(c, s, s', t)))
  {
    match a
    case StealWrite => StealWritePasses(c, s, t);
    case TakeTop => TakeTopPasses(c, s, t);
    case ShareHalf => ShareHalfPasses(c, s, t);
    case SplitRange => SplitRangePasses(c, s, t);
    case PushObject => PushObjectPasses(c, s, t);
    case ReturnAll =>
      assert s.threads[t].local == s.threads[t].local + [];
      ReturnPasses(c, s, t, s.threads[t].local, []);
    case ReturnHalf =>
      var local := s.threads[t].local;
      assert local == local[..(|local| - 1) / 2] + local[(|local| - 1) / 2..];
      ReturnPasses(c, s, t, local[..(|local| - 1) / 2], local[(|local| - 1) / 2..]);
    case _ =>
  }

  // ---- None but reachable objects is marked ----

  /** All that thread th works on lies within the bound. */
  ghost predicate Bounded(c: Config, bound: set<nat>, th: Thread) {
    && (forall p: nat :: (Pending(c.heap.unit, th.local, p) || p in th.hand) && c.heap.At(p).Pointer? ==>
          c.heap.At(p).obj in bound)
    && (th.cur.Some? ==> EntryBounded(c, bound, th.cur.value))
    && (th.pc.Take? ==> EntryBounded(c, bound, th.pc.got))
    && (th.testing.Some? ==> th.testing.value in bound)
    && (th.pushing.Some? ==> th.pushing.value in bound)
  }

  ghost predicate EntryBounded(c: Config, bound: set<nat>, e: Entry) {
    forall p: nat :: Examines(c.heap.unit, e, p) && c.heap.At(p).Pointer? ==> c.heap.At(p).obj in bound
  }

  ghost predicate AllBounded(c: Config, bound: set<nat>, s: State) {
    && s.marked <= bound
    && (forall i :: 0 <= i < |s.stack| && s.stack[i].Full? ==> EntryBounded(c, bound, s.stack[i].entry))
    && (forall t :: 0 <= t < |s.threads| ==> Bounded(c, bound, s.threads[t]))
  }

  lemma EntryOfBounded(c: Config, bound: set<nat>, o: nat)
    requires Closed(c.heap, true, bound) && o in bound
    requires o < |c.heap.objects| && c.heap.objects[o].block < |c.heap.blocks|
    ensures EntryBounded(c, bound, c.heap.EntryOf(o))
  {
    forall p: nat | Examines(c.heap.unit, c.heap.EntryOf(o), p) && c.heap.At(p).Pointer?
      ensures c.heap.At(p).obj in bound
    {
      assert c.heap.MustScan(o, p);
      assert Points(c.heap, true, o, c.heap.At(p).obj);
    }
  }

  lemma ControlBounded(c: Config, bound: set<nat>, s: State, t: nat, a: Action)
    requires Enabled(c, s, t, a) && Control(a) && AllBounded(c, bound, s)
    ensures Bounded(c, bound, Do(c, s, t, a).threads[t])
  {
    ControlKeepsWork(c, s, t, a);
    if a.StealRead? {
      var i := s.threads[t].pc.at;
      assert s.stack[i].Full? ==> EntryBounded(c, bound, s.stack[i].entry);
    } else {
      assert !Do(c, s, t, a).threads[t].pc.Take?;
    }
  }

  lemma StealWriteBounded(c: Config, bound: set<nat>, s: State, t: nat)
    requires Enabled(c, s, t, StealWrite) && Bounded(c, bound, s.threads[t])
    ensures Bounded(c, bound, Do(c, s, t, StealWrite).threads[t])
  {
    PendingPush(c.heap.unit, s.threads[t].local, s.threads[t].pc.got);
  }

  lemma TakeTopBounded(c: Config, bound: set<nat>, s: State, t: nat)
    requires Enabled(c, s, t, TakeTop) && Bounded(c, bound, s.threads[t])
    ensures Bounded(c, bound, Do(c, s, t, TakeTop).threads[t])
  {
    var local := s.threads[t].local;
    PendingPush(c.heap.unit, local[..|local|-1], local[|local|-1]);
    assert local == local[..|local|-1] + [local[|local|-1]];
  }

  lemma ShareHalfBounded(c: Config, bound: set<nat>, s: State, t: nat)
    requires Enabled(c, s, t, ShareHalf) && Bounded(c, bound, s.threads[t])
    ensures Bounded(c, bound, Do(c, s, t, ShareHalf).threads[t])
  {
    PendingPush(c.heap.unit, s.threads[t].local, Halves(c.heap.unit, s.threads[t].cur.value).0);
    forall p: nat
      ensures Examines(c.heap.unit, s.threads[t].cur.value, p) <==>
                Examines(c.heap.unit, Halves(c.heap.unit, s.threads[t].cur.value).0, p) ||
                Examines(c.heap.unit, Halves(c.heap.unit, s.threads[t].cur.value).1, p)
    {
      HalvesCover(c.heap.unit, s.threads[t].cur.value, p);
    }
  }

  lemma SplitRangeBounded(c: Config, bound: set<nat>, s: State, t: nat)
    requires Enabled(c, s, t, SplitRange) && Bounded(c, bound, s.threads[t])
    ensures Bounded(c, bound, Do(c, s, t, SplitRange).threads[t])
  {
    var e := s.threads[t].cur.value;
    PendingPush(c.heap.unit, s.threads[t].local, Split(c.heap.unit, e).1);
    forall p: nat
      ensures Examines(c.heap.unit, e, p) <==>
                Examines(c.heap.unit, Split(c.heap.unit, e).0, p) || Examines(c.heap.unit, Split(c.heap.unit, e).1, p)
    {
    }
  }

  lemma PushObjectBounded(c: Config, bound: set<nat>, s: State, t: nat)
    requires Enabled(c, s, t, PushObject) && Bounded(c, bound, s.threads[t]) && Closed(c.heap, true, bound)
    ensures Bounded(c, bound, Do(c, s, t, PushObject).threads[t])
  {
    var local := s.threads[t].local;
    var e := c.heap.EntryOf(s.threads[t].pushing.value);
    EntryOfBounded(c, bound, s.threads[t].pushing.value);
    PendingPush(c.heap.unit, local, e);
    if c.discards <= |local| {
      PendingDrop(c.heap.unit, local, |local| - c.discards);
      PendingPush(c.heap.unit, local[..|local| - c.discards], e);
    }
    PendingPush(c.heap.unit, [], e);
  }

  lemma ReturnBounded(c: Config, bound: set<nat>, s: State, t: nat, entries: seq<Entry>, keep: seq<Entry>)
    requires t < |s.threads| && s.threads[t].local == entries + keep && AllBounded(c, bound, s)
    ensures AllBounded(c, bound, Return(c, s, t, entries, keep))
  {
    var local := s.threads[t].local;
    var s' := Return(c, s, t, entries, keep);
    assert Bounded(c, bound, s.threads[t]);
    forall i | 0 <= i < |local|
      ensures EntryBounded(c, bound, local[i])
    {
      forall p: nat | Examines(c.heap.unit, local[i], p) && c.heap.At(p).Pointer?
        ensures c.heap.At(p).obj in bound
      {
        assert Pending(c.heap.unit, local, p);
      }
    }
    forall i | 0 <= i < |s'.stack| && s'.stack[i].Full?
      ensures EntryBounded(c, bound, s'.stack[i].entry)
    {
      if i >= |s.stack| {
        assert s'.stack[i].entry == local[i - |s.stack|];
      }
    }
    forall p: nat | Pending(c.heap.unit, keep, p)
      ensures Pending(c.heap.unit, local, p)
    {
      var i :| 0 <= i < |keep| && Examines(c.heap.unit, keep[i], p);
      assert keep[i] == local[|entries| + i];
    }
  }

  /** Marks stay within any closed set that holds the initial work. */
  lemma KeepsBounded(c: Config, bound: set<nat>, s: State, t: nat, a: Action)
    requires c.heap.unit >= 1 && Closed(c.heap, true, bound)
    requires Enabled(c, s, t, a) && AllBounded(c, bound, s)
    ensures AllBounded(c, bound, Do(c, s, t, a))
  {
    if a.ReturnAll? {
      assert s.threads[t].local == s.threads[t].local + [];
      ReturnBounded(c, bound, s, t, s.threads[t].local, []);
    } else if a.ReturnHalf? {
      var local := s.threads[t].local;
      assert local == local[..(|local| - 1) / 2] + local[(|local| - 1) / 2..];
      ReturnBounded(c, bound, s, t, local[..(|local| - 1) / 2], local[(|local| - 1) / 2..]);
    } else {
      var s' := Do(c, s, t, a);
      SelfBounded(c, bound, s, t, a);
      NotReturned(c, s, t, a);
      forall u | 0 <= u < |s'.threads|
        ensures Bounded(c, bound, s'.threads[u])
      {
        if u != t {
          WakeKeeps(s.threads[u]);
          assert Bounded(c, bound, s.threads[u]);
        }
      }
    }
  }

  lemma NotReturned(c: Config, s: State, t: nat, a: Action)
    requires Enabled(c, s, t, a) && !a.ReturnAll? && !a.ReturnHalf?
    ensures var s' := Do(c, s, t, a);
            && |s'.threads| == |s.threads| && |s'.stack| == |s.stack|
            && (forall u :: 0 <= u < |s.threads| && u != t ==> Same(s.threads[u], s'.threads[u]))
            && (forall i :: 0 <= i < |s.stack| ==> s'.stack[i] == s.stack[i] || s'.stack[i] == Empty)
            && s'.marked == if a.MarkObject? then s.marked + {s.threads[t].testing.value} else s.marked
  {
    if Control(a) {
      ControlKeepsWork(c, s, t, a);
    }
  }

  lemma SelfBounded(c: Config, bound: set<nat>, s: State, t: nat, a: Action)
    requires c.heap.unit >= 1 && Closed(c.heap, true, bound)
    requires Enabled(c, s, t, a) && AllBounded(c, bound, s) && !a.ReturnAll? && !a.ReturnHalf?
    ensures Bounded(c, bound, Do(c, s, t, a).threads[t])
  {
    assert Bounded(c, bound, s.threads[t]);
    if Control(a) {
      ControlBounded(c, bound, s, t, a);
    } else {
      WorkBounded(c, bound, s, t, a);
    }
  }

  lemma WorkBounded(c: Config, bound: set<nat>, s: State, t: nat, a: Action)
    requires c.heap.unit >= 1 && Closed(c.heap, true, bound) && Enabled(c, s, t, a) && Bounded(c, bound, s.threads[t])
    requires !Control(a) && !a.ReturnAll? && !a.ReturnHalf?
    ensures Bounded(c, bound, Do(c, s, t, a).threads[t])
  {
    match a
    case StealWrite => StealWriteBounded(c, bound, s, t);
    case TakeTop => TakeTopBounded(c, bound, s, t);
    case ShareHalf => ShareHalfBounded(c, bound, s, t);
    case SplitRange => SplitRangeBounded(c, bound, s, t);
    case PushObject => PushObjectBounded(c, bound, s, t);
    case _ => HandBounded(c, bound, s, t, a);
  }

  lemma HandBounded(c: Config, bound: set<nat>, s: State, t: nat, a: Action)
    requires Enabled(c, s, t, a) && Bounded(c, bound, s.threads[t])
    requires a.Lookup? || a.BeginScan? || a.Look? || a.MarkObject?
    ensures Bounded(c, bound, Do(c, s, t, a).threads[t])
  {
  }

  // ---- Nobody waits in vain ----

  /** A sleeping thread has a reason to sleep, or some thread is about to wake all. */
  ghost predicate Wakeful(s: State) {
    && |s.threads| > 0 && !s.threads[0].pc.Out?
    && (forall t :: 0 <= t < |s.threads| && s.threads[t].pc == Waiting(true) ==>
          (s.active > 0 && s.firstNonempty >= |s.stack|) || SomeNotify(s))
    && (forall t :: 0 <= t < |s.threads| && s.threads[t].pc == AwaitHelpers(true) ==>
          s.helpers > 0 || SomeNotifyLast(s))
  }

  ghost predicate SomeNotify(s: State) {
    exists u :: 0 <= u < |s.threads| && s.threads[u].pc.Notify?
  }

  ghost predicate SomeNotifyLast(s: State) {
    exists u :: 0 <= u < |s.threads| && s.threads[u].pc.NotifyLast?
  }

  /** After a step that wakes all, nobody sleeps. */
  predicate WakesAll(s: State, t: nat, a: Action)
    requires t < |s.threads|
  {
    a.NotifyAll? || a.WakeMain? || (a.Recheck? && s.active == 1 && s.threads[t].my == |s.stack|)
  }

  lemma OthersStay(c: Config, s: State, t: nat, a: Action)
    requires Enabled(c, s, t, a) && !WakesAll(s, t, a)
    ensures OthersSame(s, Do(c, s, t, a), t)
  {
    if !Control(a) {
      OthersStayAtWork(c, s, t, a);
    }
  }

  lemma OthersStayAtWork(c: Config, s: State, t: nat, a: Action)
    requires Enabled(c, s, t, a) && !Control(a)
    ensures OthersSame(s, Do(c, s, t, a), t)
  {
  }

  ghost predicate OthersSame(s: State, s': State, t: nat) {
    |s'.threads| == |s.threads| && forall u :: 0 <= u < |s.threads| && u != t ==> s'.threads[u] == s.threads[u]
  }

  /** What a step of thread t does to the reasons for sleeping. */
  ghost predicate ReasonsKept(s: State, s': State, t: nat)
    requires t < |s.threads|
  {
    && |s'.threads| == |s.threads|
    && (s.active > 0 && s.firstNonempty >= |s.stack| ==>
          (s'.active > 0 && s'.firstNonempty >= |s'.stack|) || s'.threads[t].pc.Notify?)
    && (s.helpers > 0 ==> s'.helpers > 0 || s'.threads[t].pc.NotifyLast?)
    && !s.threads[t].pc.Notify? && !s.threads[t].pc.NotifyLast?
    && !s'.threads[t].pc.Out?
    && (s'.threads[t].pc == Waiting(true) ==> s'.active > 0 && s'.firstNonempty >= |s'.stack|)
    && (s'.threads[t].pc == AwaitHelpers(true) ==> s'.helpers > 0)
  }

  lemma ControlReasons(c: Config, s: State, t: nat, a: Action)
    requires Enabled(c, s, t, a) && !WakesAll(s, t, a) && Control(a)
    requires s.firstNonempty <= |s.stack| && (s.threads[t].pc.Cas? ==> s.threads[t].pc.seen < s.threads[t].my)
    ensures ReasonsKept(s, Do(c, s, t, a), t)
  {
    if a.Recheck? || a.Reevaluate? {
      WaitReasons(c, s, t, a);
    }
  }

  lemma WaitReasons(c: Config, s: State, t: nat, a: Action)
    requires Enabled(c, s, t, a) && !WakesAll(s, t, a) && (a.Recheck? || a.Reevaluate?)
    ensures ReasonsKept(s, Do(c, s, t, a), t)
  {
  }

  lemma ReasonsStay(c: Config, s: State, t: nat, a: Action)
    requires Enabled(c, s, t, a) && !WakesAll(s, t, a) && Base(c, s) && ThreadOk(c, s, t)
    ensures ReasonsKept(s, Do(c, s, t, a), t)
  {
    if Control(a) {
      ControlReasons(c, s, t, a);
    }
  }

  ghost predicate Awake(s: State, s': State) {
    && |s'.threads| == |s.threads|
    && forall u :: 0 <= u < |s.threads| ==>
         s'.threads[u].pc != Waiting(true) && s'.threads[u].pc != AwaitHelpers(true) &&
         (s.threads[u].pc.Out? <==> s'.threads[u].pc.Out?)
  }

  lemma AwakeFrom(s: State, s': State, threads: seq<Thread>, t: nat)
    requires t < |s.threads| && |threads| == |s.threads| && s'.threads == WakeAll(threads)
    requires forall u :: 0 <= u < |s.threads| && u != t ==> threads[u] == s.threads[u]
    requires threads[t].pc.Out? <==> s.threads[t].pc.Out?
    ensures Awake(s, s')
  {
  }

  lemma AllAwake(c: Config, s: State, t: nat, a: Action)
    requires Enabled(c, s, t, a) && WakesAll(s, t, a)
    ensures Awake(s, Do(c, s, t, a))
  {
    var th, s' := s.threads[t], Do(c, s, t, a);
    match a
    case Recheck => AwakeFrom(s, s', s.threads[t := th.(pc := Waiting(false))], t);
    case NotifyAll => AwakeFrom(s, s', s.threads[t := th.(pc := if th.local == [] then Top else Local(false))], t);
    case WakeMain => AwakeFrom(s, s', s.threads[t := th.(pc := Gone)], t);
  }

  lemma WakefulFrom(s: State, s': State, t: nat)
    requires t < |s.threads| && Wakeful(s) && OthersSame(s, s', t) && ReasonsKept(s, s', t)
    ensures Wakeful(s')
  {
    forall u | 0 <= u < |s'.threads| && s'.threads[u].pc == Waiting(true)
      ensures (s'.active > 0 && s'.firstNonempty >= |s'.stack|) || SomeNotify(s')
    {
      if u != t && SomeNotify(s) {
        var v :| 0 <= v < |s.threads| && s.threads[v].pc.Notify?;
        assert s'.threads[v].pc.Notify?;
      }
    }
    forall u | 0 <= u < |s'.threads| && s'.threads[u].pc == AwaitHelpers(true)
      ensures s'.helpers > 0 || SomeNotifyLast(s')
    {
      if u != t && SomeNotifyLast(s) {
        var v :| 0 <= v < |s.threads| && s.threads[v].pc.NotifyLast?;
        assert s'.threads[v].pc.NotifyLast?;
      }
    }
  }

  lemma KeepsWakeful(c: Config, s: State, t: nat, a: Action)
    requires Inv(c, s) && Enabled(c, s, t, a) && Wakeful(s)
    ensures Wakeful(Do(c, s, t, a))
  {
    assert ThreadOk(c, s, t);
    if WakesAll(s, t, a) {
      AllAwake(c, s, t, a);
    } else {
      OthersStay(c, s, t, a);
      ReasonsStay(c, s, t, a);
      WakefulFrom(s, Do(c, s, t, a), t);
    }
  }

  /** Objects about to be pushed exist, and pointers lead to objects. */
  ghost predicate Sane(c: Config, s: State) {
    && c.heap.WellFormed()
    && (forall t :: 0 <= t < |s.threads| ==>
          (s.threads[t].testing.Some? ==> s.threads[t].testing.value < |c.heap.objects|) &&
          (s.threads[t].pushing.Some? ==> s.threads[t].pushing.value < |c.heap.objects|))
  }

  lemma KeepsSane(c: Config, s: State, t: nat, a: Action)
    requires Enabled(c, s, t, a) && Sane(c, s)
    ensures Sane(c, Do(c, s, t, a))
  {
    var s' := Do(c, s, t, a);
    if Control(a) {
      ControlKeepsWork(c, s, t, a);
      forall u | 0 <= u < |s.threads|
        ensures s'.threads[u].testing == s.threads[u].testing && s'.threads[u].pushing == s.threads[u].pushing
      {
        WakeKeeps(s.threads[u]);
      }
    } else {
      OthersStayAtWork(c, s, t, a);
      SaneAtWork(c, s, t, a);
    }
  }

  lemma SaneAtWork(c: Config, s: State, t: nat, a: Action)
    requires Enabled(c, s, t, a) && Sane(c, s) && !Control(a) && OthersSame(s, Do(c, s, t, a), t)
    ensures Sane(c, Do(c, s, t, a))
  {
  }

  /** An active thread always has something to do. */
  lemma ActiveCanStep(c: Config, s: State, t: nat) returns (a: Action)
    requires t < |s.threads| && Base(c, s) && ThreadOk(c, s, t) && Sane(c, s) && s.threads[t].Active()
    ensures Enabled(c, s, t, a) && !a.Join?
  {
    var th := s.threads[t];
    match th.pc
    case Top => a := ReadFirst;
    case Cas(_) => a := TryCas;
    case ReadTop => a := ReadStackTop;
    case Check => a := Recheck;
    case Steal(at, high, taken, max) => a := if at <= high && taken <= max then StealRead else StealEnd;
    case Take(_, _, _, _, _) => a := StealWrite;
    case Notify => a := NotifyAll;
    case Local(_) => a := LocalCanStep(c, s, t);
    case Sharing(step, _) => a := if step < 4 then ReadGuard else ReturnHalf;
  }

  lemma LocalCanStep(c: Config, s: State, t: nat) returns (a: Action)
    requires t < |s.threads| && ThreadOk(c, s, t) && Sane(c, s) && s.threads[t].pc.Local?
    ensures Enabled(c, s, t, a) && !a.Join?
  {
    var th := s.threads[t];
    if th.testing.Some? {
      a := MarkObject;
    } else if th.pushing.Some? {
      assert c.heap.objects[th.pushing.value].block < |c.heap.blocks|;
      a := PushObject;
    } else if th.cur.Some? {
      var e := th.cur.value;
      a := if e.descr.PerObject? then Lookup
           else if c.Shares(th, e) then ShareHalf
           else if c.Long(e) then SplitRange
           else BeginScan;
    } else if th.hand != {} {
      var p :| p in th.hand;
      a := Look(p);
    } else {
      a := if th.local == [] then LocalDone else TakeTop;
    }
  }

  /** Until the main thread returns, some thread already taking part can go on. */
  lemma NoDeadlock(c: Config, s: State) returns (t: nat, a: Action)
    requires Inv(c, s) && Sane(c, s) && Wakeful(s) && !s.threads[0].pc.Finished?
    ensures Enabled(c, s, t, a) && !a.Join?
  {
    if u: nat :| u < |s.threads| && s.threads[u].Active() {
      t := u;
      a := ActiveCanStep(c, s, u);
    } else {
      assert ActiveSet(s.threads) == {};
      assert !SomeNotify(s);
      if u: nat :| u < |s.threads| && s.threads[u].Engaged() {
        t := u;
        a := if s.threads[u].pc.Joining? then Enter else Reevaluate;
      } else if u: nat :| u < |s.threads| && s.threads[u].pc.NotifyLast? {
        t, a := u, WakeMain;
      } else {
        assert EngagedSet(s.threads) == {};
        assert !SomeNotifyLast(s);
        t := 0;
        a := if s.threads[0].pc.Gone? then StopHelp else CheckHelpers;
      }
    }
  }

  // ---- Whole runs ----

  /** GC_do_parallel_mark has just opened the phase. */
  ghost predicate Start(c: Config, s: State) {
    && c.heap.WellFormed() && c.localSize >= ENTRIES_TO_GET + 1 && c.discards >= 1
    && |s.threads| > 0
    && s.firstNonempty == 0 && s.active == 0 && s.helpers == 1 && s.helpWanted && !s.invalid
    && (forall t :: 0 <= t < |s.threads| ==>
          s.threads[t].Idle() && s.threads[t].pc == if t == 0 then Joining else Out)
  }

  /** As the sequential marker leaves it: what marked objects point to is marked or on the stack. */
  ghost predicate Listed(c: Config, s: State) {
    forall o, p: nat :: o in s.marked && c.heap.MustScan(o, p) && c.heap.At(p).Pointer? ==>
      c.heap.At(p).obj in s.marked || OnStack(c, s.stack, p)
  }

  ghost predicate Run(c: Config, run: seq<State>)
    decreases |run|
  {
    && |run| > 0
    && (|run| > 1 ==>
          && Run(c, run[..|run|-1])
          && Step(c, run[|run|-2], run[|run|-1]))
  }

  ghost predicate Step(c: Config, s: State, s': State) {
    exists t: nat, a {:trigger Enabled(c, s, t, a)} :: Enabled(c, s, t, a) && s' == Do(c, s, t, a)
  }

  lemma StartInv(c: Config, s: State)
    requires Start(c, s)
    ensures Inv(c, s) && Sane(c, s) && Wakeful(s)
  {
    assert ActiveSet(s.threads) == {};
    assert EngagedSet(s.threads) == {0};
  }

  lemma {:induction false} RunIsSafe(c: Config, run: seq<State>)
    requires Run(c, run) && Start(c, run[0])
    ensures Safe(c, run[|run|-1])
    decreases |run|
  {
    if |run| == 1 {
      StartInv(c, run[0]);
    } else {
      RunIsSafe(c, run[..|run|-1]);
      StepIsSafe(c, run[|run|-2], run[|run|-1]);
    }
  }

  lemma StepIsSafe(c: Config, s: State, s': State)
    requires Step(c, s, s') && Safe(c, s)
    ensures Safe(c, s')
  {
    var t: nat, a :| Enabled(c, s, t, a) && s' == Do(c, s, t, a);
    KeepsInv(c, s, t, a);
    KeepsSane(c, s, t, a);
    KeepsWakeful(c, s, t, a);
  }

  ghost predicate Safe(c: Config, s: State) {
    Inv(c, s) && Sane(c, s) && Wakeful(s)
  }

  /** In no run do all threads that take part wait for each other. */
  lemma RunNeverStuck(c: Config, run: seq<State>) returns (t: nat, a: Action)
    requires Run(c, run) && Start(c, run[0])
    requires run[|run|-1].threads != [] ==> !run[|run|-1].threads[0].pc.Finished?
    ensures Enabled(c, run[|run|-1], t, a) && !a.Join?
  {
    RunIsSafe(c, run);
    t, a := NoDeadlock(c, run[|run|-1]);
  }

  lemma {:induction false} RunKeepsWork(c: Config, bound: set<nat>, run: seq<State>)
    requires Run(c, run) && Start(c, run[0]) && Listed(c, run[0])
    requires Closed(c.heap, true, bound) && AllBounded(c, bound, run[0])
    ensures var s := run[|run|-1]; Lossless(c, run[0].stack, s) && AllBounded(c, bound, s)
    decreases |run|
  {
    if |run| > 1 {
      var before := run[..|run|-1];
      assert before[0] == run[0] && before[|before|-1] == run[|run|-2];
      RunKeepsWork(c, bound, before);
      RunIsSafe(c, before);
      StepKeepsWork(c, bound, run[0].stack, run[|run|-2], run[|run|-1]);
    } else {
      FirstIsLossless(c, run[0]);
    }
  }

  lemma FirstIsLossless(c: Config, s: State)
    requires Listed(c, s)
    ensures Lossless(c, s.stack, s)
  {
  }

  lemma StepKeepsWork(c: Config, bound: set<nat>, initial: seq<Slot>, s: State, s': State)
    requires Step(c, s, s') && Safe(c, s) && Closed(c.heap, true, bound)
    requires Lossless(c, initial, s) && AllBounded(c, bound, s)
    ensures Lossless(c, initial, s') && AllBounded(c, bound, s')
  {
    var t: nat, a :| Enabled(c, s, t, a) && s' == Do(c, s, t, a);
    KeepsLossless(c, initial, s, t, a);
    KeepsBounded(c, bound, s, t, a);
  }

  // ---- Overflow, and sharing the load ----

  /** Thread t has room on its own stack for one more entry, and the shared stack for all that it holds. */
  predicate HasRoom(c: Config, s: State, t: nat)
    requires t < |s.threads|
  {
    |s.threads[t].local| < c.localSize && |s.stack| + |s.threads[t].local| <= c.globalSize
  }

  predicate AllHaveRoom(c: Config, s: State) {
    forall t :: 0 <= t < |s.threads| ==> HasRoom(c, s, t)
  }

  /** A step makes the mark state invalid only if there is no room, and then has the mark stack grow. */
  lemma InvalidOnlyIfFull(c: Config, s: State, t: nat, a: Action)
    requires Enabled(c, s, t, a)
    ensures var s' := Do(c, s, t, a);
            && (HasRoom(c, s, t) ==> s'.invalid == s.invalid && s'.tooSmall == s.tooSmall)
            && (s'.invalid && !s.invalid ==> s'.tooSmall) && (s.tooSmall ==> s'.tooSmall)
            && (s'.tooSmall && !s.tooSmall ==> s'.invalid) && (s.invalid ==> s'.invalid)
  {
  }

  /** If there always was room the marks are valid; and if they are not the mark stack will grow. */
  lemma {:induction false} RunIsValidIfRoom(c: Config, run: seq<State>)
    requires Run(c, run) && Start(c, run[0])
    ensures var s := run[|run|-1];
            && ((forall i :: 0 <= i < |run| ==> AllHaveRoom(c, run[i])) ==> !s.invalid)
            && (s.invalid ==> s.tooSmall)
    decreases |run|
  {
    if |run| > 1 {
      var before := run[..|run|-1];
      assert before[0] == run[0] && before[|before|-1] == run[|run|-2];
      RunIsValidIfRoom(c, before);
      StepIsValidIfRoom(c, run[|run|-2], run[|run|-1]);
    }
  }

  lemma StepIsValidIfRoom(c: Config, s: State, s': State)
    requires Step(c, s, s')
    ensures AllHaveRoom(c, s) && !s.invalid ==> !s'.invalid
    ensures (s.invalid ==> s.tooSmall) ==> (s'.invalid ==> s'.tooSmall)
  {
    var t: nat, a :| Enabled(c, s, t, a) && s' == Do(c, s, t, a);
    InvalidOnlyIfFull(c, s, t, a);
  }

  /** After it has taken an entry a thread keeps working, and once its hands are free again it may give entries back:
      all if its stack is half full, else some if other threads need them. */
  lemma WorkIsFollowedBySharing(c: Config, s: State, t: nat, a: Action)
    requires Enabled(c, s, t, a) && ThreadOk(c, s, t) && Works(a)
    requires a.TakeTop? || s.threads[t].pc == Local(true)
    ensures var s' := Do(c, s, t, a);
            && t < |s'.threads| && s'.threads[t].pc == Local(true)
            && (s'.threads[t].HandsFree() && |s'.threads[t].local| > 2 ==>
                  && (Enabled(c, s', t, ReturnAll) <==> |s'.threads[t].local| > c.localSize / 2)
                  && (Enabled(c, s', t, TryShare) <==> |s'.threads[t].local| <= c.localSize / 2))
  {
    WorkStaysLocal(c, s, t, a);
  }

  /** Where the four reads that decide about sharing lead if nothing changes in between. */
  function Decision(s: State, step: nat, read: int): Pc
    decreases 4 - step
  {
    var pc := GuardRead(s, step, read);
    if pc.Sharing? && step < pc.step < 4 then Decision(s, pc.step, pc.read) else pc
  }

  ghost predicate SomeWaits(threads: seq<Thread>) {
    exists u :: 0 <= u < |threads| && threads[u].Engaged() && !threads[u].Active()
  }

  lemma WaitersCounted(threads: seq<Thread>)
    ensures |ActiveSet(threads)| < |EngagedSet(threads)| <==> SomeWaits(threads)
  {
    var active, engaged := ActiveSet(threads), EngagedSet(threads);
    assert active <= engaged;
    assert engaged == active + (engaged - active);
    if SomeWaits(threads) {
      var u :| 0 <= u < |threads| && threads[u].Engaged() && !threads[u].Active();
      assert u in engaged - active;
    } else {
      assert engaged - active == {};
    }
  }

  lemma DecisionIs(s: State)
    ensures Decision(s, 0, 0) ==
            if |s.stack| <= s.firstNonempty && s.active < s.helpers then Sharing(4, 0) else Local(false)
  {
    assert GuardRead(s, 0, 0) == Sharing(1, |s.stack|);
    assert GuardRead(s, 2, 0) == Sharing(3, s.active);
  }

  /** The load is shared if no entry is left for others to take, and one of the threads that take part has nothing to
      do. */
  lemma SharesWhenOthersWait(c: Config, s: State)
    requires Inv(c, s)
    ensures Decision(s, 0, 0) ==
            if s.firstNonempty == |s.stack| && SomeWaits(s.threads) then Sharing(4, 0) else Local(false)
  {
    DecisionIs(s);
    WaitersCounted(s.threads);
  }

  lemma WorkStaysLocal(c: Config, s: State, t: nat, a: Action)
    requires Enabled(c, s, t, a) && ThreadOk(c, s, t) && Works(a)
    requires a.TakeTop? || s.threads[t].pc == Local(true)
    ensures t < |Do(c, s, t, a).threads| && Do(c, s, t, a).threads[t].pc == Local(true)
  {
  }

  /** Under every interleaving: when the main thread returns, no entry is left in the shared stack, in any
      local stack or in any thread's hands, and, unless a stack overflowed, the marked set is exactly the
      closure of what was marked or listed at the start. */
  lemma ParallelMarkIsComplete(c: Config, run: seq<State>)
    requires Run(c, run) && Start(c, run[0]) && Listed(c, run[0])
    requires run[0].marked <= c.heap.Ids()
    requires run[|run|-1].threads != [] && run[|run|-1].threads[0].pc.Finished?
    ensures var s := run[|run|-1];
            && Quiet(s) && s.active == 0 && s.helpers == 0
            && (!s.invalid ==> forall o :: o in s.marked <==> Reaches(c.heap, true, From(c, run[0]), o))
  {
    var bound := Reachable(c.heap, true, From(c, run[0]));
    ReachableIsClosed(c.heap, true, From(c, run[0]));
    BoundHolds(c, run[0], bound);
    RunIsSafe(c, run);
    RunKeepsWork(c, bound, run);
    AtTheEnd(c, bound, run[0], run[|run|-1]);
    RunMarksMore(c, run);
    if !run[|run|-1].invalid {
      ReachableReaches(c.heap, true, From(c, run[0]), run[|run|-1].marked);
    }
  }

  lemma AtTheEnd(c: Config, bound: set<nat>, first: State, s: State)
    requires Inv(c, s) && s.threads[0].pc.Finished?
    requires Lossless(c, first.stack, s) && AllBounded(c, bound, s)
    ensures Quiet(s) && s.active == 0 && s.helpers == 0
    ensures !s.invalid && first.marked <= s.marked ==>
              && s.marked <= bound
              && forall o :: Reaches(c.heap, true, From(c, first), o) ==> o in s.marked
  {
    assert Returned(s.threads[0]);
    NoneActive(c, s);
    if !s.invalid && first.marked <= s.marked {
      NothingCoveredButMarked(c, first.stack, s);
      ClosedHoldsReachable(c.heap, true, s.marked, From(c, first));
    }
  }

  lemma {:induction false} RunMarksMore(c: Config, run: seq<State>)
    requires Run(c, run)
    ensures run[0].marked <= run[|run|-1].marked
    decreases |run|
  {
    if |run| > 1 {
      RunMarksMore(c, run[..|run|-1]);
      var s := run[|run|-2];
      var t: nat, a :| Enabled(c, s, t, a) && run[|run|-1] == Do(c, s, t, a);
      StepMarksMore(c, s, t, a);
    }
  }

  lemma StepMarksMore(c: Config, s: State, t: nat, a: Action)
    requires Enabled(c, s, t, a)
    ensures s.marked <= Do(c, s, t, a).marked
  {
  }

  /** What the phase starts from: marked objects and those that stack entries refer to. */
  ghost function From(c: Config, s: State): set<nat> {
    set o | o in c.heap.Ids() &&
            (o in s.marked || exists p: nat :: OnStack(c, s.stack, p) && c.heap.At(p) == Pointer(o))
  }

  lemma NoneActive(c: Config, s: State)
    requires Inv(c, s) && s.helpers == 0
    ensures s.active == 0
  {
    assert ActiveSet(s.threads) <= EngagedSet(s.threads);
    assert EngagedSet(s.threads) == {};
    assert ActiveSet(s.threads) == {};
  }

  lemma NothingCoveredButMarked(c: Config, initial: seq<Slot>, s: State)
    requires Quiet(s) && Lossless(c, initial, s) && !s.invalid
    ensures Closed(c.heap, true, s.marked)
    ensures forall p: nat :: OnStack(c, initial, p) && c.heap.At(p).Pointer? ==> c.heap.At(p).obj in s.marked
  {
    forall p: nat | Covered(c, s, p) && c.heap.At(p).Pointer?
      ensures c.heap.At(p).obj in s.marked
    {
      assert !OnStack(c, s.stack, p);
      forall t | 0 <= t < |s.threads|
        ensures !Holds(c, s.threads[t], p)
      {
        assert s.threads[t].Idle();
      }
    }
    forall a, b | a in s.marked && Points(c.heap, true, a, b)
      ensures b in s.marked
    {
      var p: nat :| c.heap.MustScan(a, p) && c.heap.At(p) == Pointer(b);
      assert Covered(c, s, p);
    }
  }

  lemma BoundHolds(c: Config, s: State, bound: set<nat>)
    requires Start(c, s) && s.marked <= c.heap.Ids() && From(c, s) <= bound
    ensures AllBounded(c, bound, s)
  {
    forall i | 0 <= i < |s.stack| && s.stack[i].Full?
      ensures EntryBounded(c, bound, s.stack[i].entry)
    {
      forall p: nat | Examines(c.heap.unit, s.stack[i].entry, p) && c.heap.At(p).Pointer?
        ensures c.heap.At(p).obj in bound
      {
        assert OnStack(c, s.stack, p);
        assert c.heap.At(p).obj in From(c, s);
      }
    }
  }
}
