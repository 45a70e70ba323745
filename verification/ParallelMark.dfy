/** The parallel marker as a step system: a shared mark stack from which threads steal, local mark
    stacks, and termination detection by counting active threads (boehmgc/src/mark.c, PARALLEL_MARK).

    Each action is one step of one thread.  What the original does while holding the mark lock is one
    action; reads and writes of shared data outside the lock are actions of their own, so that any
    interleaving of them is a run.  Memory is sequentially consistent. */
module ParallelMark {
  import opened HeapGraph

  datatype Option<T> = None | Some(value: T)

  /** An entry of the shared stack; Empty means that its descriptor was zeroed. */
  datatype Slot = Empty | Full(entry: Entry)

  /** Where a thread is. */
  datatype Pc =
    | Out                                     // not called upon in this phase
    | Joining                                 // counted as helper, not yet active
    | Top                                     // start of the loop of GC_mark_local
    | Cas(seen: nat)                          // about to advance GC_first_nonempty
    | ReadTop                                 // about to read GC_mark_stack_top
    | Check                                   // found nothing, about to look again holding the lock
    | Waiting(asleep: bool)                   // inactive; asleep in GC_wait_marker
    | Steal(at: nat, high: int, taken: nat, max: nat)
    | Take(at: nat, high: int, taken: nat, max: nat, got: Entry)
    | Local(worked: bool)                     // marking from the local stack; worked since it last looked around
    | Sharing(step: nat, read: int)           // reading whether to share the load, without the lock
    | Notify                                  // gave entries back, about to wake the others
    | NotifyLast                              // last helper, about to wake the main thread
    | Gone                                    // returned from GC_mark_local
    | AwaitHelpers(asleep: bool)              // main thread, after GC_help_wanted = FALSE
    | Finished                                // main thread returns from GC_do_parallel_mark

  /** A marking thread.  Besides its local stack it may hold an entry taken off it (`cur`), positions to
      look at (`hand`), an object found unmarked (`testing`) or one just marked (`pushing`). */
  datatype Thread = Thread(pc: Pc, my: nat, local: seq<Entry>, cur: Option<Entry>, hand: set<nat>,
                           testing: Option<nat>, pushing: Option<nat>)
  {
    predicate Active() {
      pc.Top? || pc.Cas? || pc.ReadTop? || pc.Check? || pc.Steal? || pc.Take? || pc.Local? || pc.Sharing?
      || pc.Notify?
    }

    /** Counted in GC_helper_count. */
    predicate Engaged() {
      Active() || pc.Joining? || pc.Waiting?
    }

    predicate HandsFree() {
      cur.None? && hand == {} && testing.None? && pushing.None?
    }

    predicate Idle() {
      local == [] && HandsFree()
    }
  }

  /** Sizes of the local and global mark stacks, GC_MARK_STACK_DISCARDS, ALIGNMENT, the length from which
      ranges are shared (in units), and the number of markers. */
  datatype Config = Config(heap: Heap, localSize: nat, globalSize: nat, discards: nat, alignment: nat,
                           share: nat, markers: nat)
  {
    predicate Long(e: Entry) {
      e.descr.Length? && e.descr.units >= SPLIT_RANGE_WORDS * heap.unit
    }

    /** Whether a range is shared rather than split. */
    predicate Shares(th: Thread, e: Entry) {
      Long(e) && e.descr.units > share && |th.local| + 1 < localSize
    }
  }

  datatype State = State(stack: seq<Slot>, firstNonempty: nat, active: int, helpers: int, helpWanted: bool,
                         invalid: bool, tooSmall: bool, marked: set<nat>, threads: seq<Thread>)

  datatype Action =
    | Join | Enter | ReadFirst | TryCas | ReadStackTop | Recheck | Reevaluate
    | StealRead | StealWrite | StealEnd
    | TakeTop | Lookup | ShareHalf | SplitRange | BeginScan | Look(p: nat) | MarkObject | PushObject
    | LocalDone | ReturnAll | TryShare | ReadGuard | ReturnHalf | NotifyAll | WakeMain | StopHelp | CheckHelpers

  const ENTRIES_TO_GET := 5
  const SPLIT_RANGE_WORDS := 128

  function StealLimit(onStack: nat): nat {
    if onStack < 2 * ENTRIES_TO_GET then 1 else ENTRIES_TO_GET
  }

  /** What one stolen entry adds to the count: big objects count as size/256 + 1 objects. */
  function Worth(c: Config, e: Entry): nat {
    match e.descr
    case Length(n) => 1 + n * c.alignment / 256
    case _ => 1
  }

  function Wake(th: Thread): Thread {
    match th.pc
    case Waiting(_) => th.(pc := Waiting(false))
    case AwaitHelpers(_) => th.(pc := AwaitHelpers(false))
    case _ => th
  }

  /** GC_notify_all_marker. */
  function WakeAll(threads: seq<Thread>): (r: seq<Thread>)
    ensures |r| == |threads| && forall i :: 0 <= i < |r| ==> r[i] == Wake(threads[i])
  {
    seq(|threads|, i requires 0 <= i < |threads| => Wake(threads[i]))
  }

  /** When thread t can do action a. */
  ghost predicate Enabled(c: Config, s: State, t: nat, a: Action) {
    && t < |s.threads|
    && var th := s.threads[t];
       match a
       case Join => th.pc.Out? && s.helpWanted && s.helpers < c.markers
       case Enter => th.pc.Joining?
       case ReadFirst => th.pc.Top?
       case TryCas => th.pc.Cas?
       case ReadStackTop => th.pc.ReadTop?
       case Recheck => th.pc.Check?
       case Reevaluate => th.pc.Waiting? && !th.pc.asleep
       case StealRead => th.pc.Steal? && th.pc.at <= th.pc.high && th.pc.taken <= th.pc.max && th.pc.at < |s.stack|
       case StealWrite => th.pc.Take? && th.pc.at < |s.stack|
       case StealEnd => th.pc.Steal? && !(th.pc.at <= th.pc.high && th.pc.taken <= th.pc.max)
       case TakeTop => th.pc.Local? && th.HandsFree() && th.local != []
       case Lookup => th.cur.Some? && th.cur.value.descr.PerObject?
       case ShareHalf => th.cur.Some? && c.Shares(th, th.cur.value) && c.heap.unit >= 1
       case SplitRange => th.cur.Some? && c.Long(th.cur.value) && !c.Shares(th, th.cur.value) && c.heap.unit >= 1
       case BeginScan => th.cur.Some? && !th.cur.value.descr.PerObject? && !c.Long(th.cur.value)
       case Look(p) => p in th.hand && th.testing.None? && th.pushing.None?
       case MarkObject => th.testing.Some?
       case PushObject => th.pushing.Some? && th.pushing.value < |c.heap.objects|
                          && c.heap.objects[th.pushing.value].block < |c.heap.blocks|
       case LocalDone => th.pc.Local? && th.Idle()
       case ReturnAll => th.pc.Local? && th.pc.worked && th.HandsFree() && th.local != []
                         && |th.local| - 1 >= c.localSize / 2
       case TryShare => th.pc.Local? && th.pc.worked && th.HandsFree() && 2 < |th.local| <= c.localSize / 2
       case ReadGuard => th.pc.Sharing? && th.pc.step < 4
       case ReturnHalf => th.pc.Sharing? && th.pc.step == 4 && 2 < |th.local|
       case NotifyAll => th.pc.Notify?
       case WakeMain => th.pc.NotifyLast?
       case StopHelp => t == 0 && th.pc.Gone?
       case CheckHelpers => th.pc.AwaitHelpers? && !th.pc.asleep
  }

  /** GC_return_mark_stack of the given entries, up to the notification: if there is no room they are
      dropped, which makes the mark state invalid. */
  ghost function Return(c: Config, s: State, t: nat, entries: seq<Entry>, keep: seq<Entry>): State
    requires t < |s.threads|
  {
    var full := |s.stack| + |entries| > c.globalSize;
    s.(stack := if full then s.stack else s.stack + AsSlots(entries),
       invalid := s.invalid || full, tooSmall := s.tooSmall || full,
       threads := s.threads[t := s.threads[t].(pc := Notify, local := keep)])
  }

  function AsSlots(entries: seq<Entry>): (slots: seq<Slot>)
    ensures |slots| == |entries| && forall i :: 0 <= i < |slots| ==> slots[i] == Full(entries[i])
  {
    seq(|entries|, i requires 0 <= i < |entries| => Full(entries[i]))
  }

  /** The state after thread t did action a. */
  ghost function Do(c: Config, s: State, t: nat, a: Action): State
    requires Enabled(c, s, t, a)
  {
    var th := s.threads[t];
    match a
    case Join => s.(helpers := s.helpers + 1, threads := s.threads[t := th.(pc := Joining)])
    case Enter =>
      s.(active := s.active + 1, threads := s.threads[t := th.(pc := Top, my := s.firstNonempty)])
    case ReadFirst =>
      var g := s.firstNonempty;
      s.(threads := s.threads[t := if th.my < g then th.(pc := ReadTop, my := g)
                                   else if g < th.my then th.(pc := Cas(g))
                                   else th.(pc := ReadTop)])
    case TryCas =>
      s.(firstNonempty := if s.firstNonempty == th.pc.seen then th.my else s.firstNonempty,
         threads := s.threads[t := th.(pc := ReadTop)])
    case ReadStackTop =>
      s.(threads := s.threads[t := th.(pc := if |s.stack| == th.my then Check else StartSteal(s, th))])
    case Recheck =>
      if |s.stack| == th.my then
        var threads := s.threads[t := th.(pc := Waiting(false))];
        s.(active := s.active - 1, threads := if s.active - 1 == 0 then WakeAll(threads) else threads)
      else
        s.(threads := s.threads[t := th.(pc := StartSteal(s, th))])
    case Reevaluate =>
      if s.active > 0 && s.firstNonempty >= |s.stack| then
        s.(threads := s.threads[t := th.(pc := Waiting(true))])
      else if s.active == 0 && s.firstNonempty >= |s.stack| then
        s.(helpers := s.helpers - 1,
           threads := s.threads[t := th.(pc := if s.helpers - 1 == 0 then NotifyLast else Gone)])
      else
        s.(active := s.active + 1, threads := s.threads[t := th.(pc := Top)])
    case StealRead =>
      s.(threads := s.threads[t := match s.stack[th.pc.at]
                                   case Empty => th.(pc := Steal(th.pc.at + 1, th.pc.high, th.pc.taken, th.pc.max))
                                   case Full(e) => th.(pc := Take(th.pc.at, th.pc.high, th.pc.taken, th.pc.max, e))])
    case StealWrite =>
      s.(stack := s.stack[th.pc.at := Empty],
         threads := s.threads[t := th.(local := th.local + [th.pc.got],
                                       pc := Steal(th.pc.at + 1, th.pc.high, th.pc.taken + Worth(c, th.pc.got),
                                                   th.pc.max))])
    case StealEnd =>
      s.(threads := s.threads[t := th.(pc := Local(false), my := th.pc.at)])
    case TakeTop =>
      s.(threads := s.threads[t := th.(pc := Local(true), cur := Some(th.local[|th.local|-1]),
                                       local := th.local[..|th.local|-1])])
    case Lookup =>
      s.(threads := s.threads[t := th.(cur := Some(Entry(th.cur.value.start, th.cur.value.descr.actual)))])
    case ShareHalf =>
      var (first, second) := Halves(c.heap.unit, th.cur.value);
      s.(threads := s.threads[t := th.(local := th.local + [first], cur := Some(second))])
    case SplitRange =>
      var (first, second) := Split(c.heap.unit, th.cur.value);
      s.(threads := s.threads[t := th.(local := th.local + [second], cur := None,
                                       hand := Positions(c.heap.unit, first))])
    case BeginScan =>
      s.(threads := s.threads[t := th.(cur := None, hand := Positions(c.heap.unit, th.cur.value))])
    case Look(p) =>
      var w := c.heap.At(p);
      s.(threads := s.threads[t := th.(hand := th.hand - {p},
                                       testing := if w.Pointer? && w.obj !in s.marked then Some(w.obj) else None)])
    case MarkObject =>
      s.(marked := s.marked + {th.testing.value},
         threads := s.threads[t := th.(testing := None, pushing := th.testing)])
    case PushObject =>
      var e := c.heap.EntryOf(th.pushing.value);
      var full := e.descr != Length(0) && |th.local| >= c.localSize;
      s.(invalid := s.invalid || full, tooSmall := s.tooSmall || full,
         threads := s.threads[t := th.(pushing := None, local := PushLocal(c, th.local, e))])
    case LocalDone =>
      s.(threads := s.threads[t := th.(pc := Top)])
    case ReturnAll =>
      Return(c, s, t, th.local, [])
    case TryShare =>
      s.(threads := s.threads[t := th.(pc := Sharing(0, 0))])
    case ReadGuard =>
      s.(threads := s.threads[t := th.(pc := GuardRead(s, th.pc.step, th.pc.read))])
    case ReturnHalf =>
      var bottom := (|th.local| - 1) / 2;
      Return(c, s, t, th.local[..bottom], th.local[bottom..])
    case NotifyAll =>
      s.(threads := WakeAll(s.threads[t := th.(pc := if th.local == [] then Top else Local(false))]))
    case WakeMain =>
      s.(threads := WakeAll(s.threads[t := th.(pc := Gone)]))
    case StopHelp =>
      s.(helpWanted := false, threads := s.threads[t := th.(pc := AwaitHelpers(false))])
    case CheckHelpers =>
      s.(threads := s.threads[t := th.(pc := if s.helpers > 0 then AwaitHelpers(true) else Finished)])
  }

  /** One more of the values that decide whether to share the load: GC_mark_stack_top, GC_first_nonempty,
      GC_active_count and GC_helper_count, each read at a time of its own. */
  function GuardRead(s: State, step: nat, read: int): Pc {
    match step
    case 0 => Sharing(1, |s.stack|)
    case 1 => if read <= s.firstNonempty then Sharing(2, 0) else Local(false)
    case 2 => Sharing(3, s.active)
    case _ => if read < s.helpers then Sharing(4, 0) else Local(false)
  }

  function StartSteal(s: State, th: Thread): Pc {
    Steal(th.my, |s.stack| - 1, 0, StealLimit(if th.my <= |s.stack| then |s.stack| - th.my else 0))
  }

  /** PUSH_OBJ on a local stack. */
  function PushLocal(c: Config, local: seq<Entry>, e: Entry): seq<Entry> {
    if e.descr == Length(0) then local
    else if |local| < c.localSize then local + [e]
    else if c.discards <= |local| then local[..|local| - c.discards] + [e]
    else [e]
  }

  /** The two ranges into which a long range is shared; they overlap by a word. */
  function Halves(unit: nat, e: Entry): (Entry, Entry)
    requires unit >= 1 && e.descr.Length?
  {
    var n := e.descr.units;
    var size := n / 2 - (n / 2) % unit;
    (Entry(e.start, Length(size + unit)), Entry(e.start + size, Length(n - size)))
  }

  /** The first SPLIT_RANGE_WORDS - 1 words (with pointers that start in them), and the rest. */
  function Split(unit: nat, e: Entry): (Entry, Entry)
    requires unit >= 1 && e.descr.Length? && e.descr.units >= SPLIT_RANGE_WORDS * unit
  {
    var first := (SPLIT_RANGE_WORDS - 1) * unit;
    (Entry(e.start, Length(first + unit - 1)), Entry(e.start + first, Length(e.descr.units - first)))
  }

  // ---- Invariants ----

  ghost function ActiveSet(threads: seq<Thread>): set<nat> {
    set t: nat | t < |threads| && threads[t].Active()
  }

  ghost function EngagedSet(threads: seq<Thread>): set<nat> {
    set t: nat | t < |threads| && threads[t].Engaged()
  }

  /** Thread-local consistency. */
  ghost predicate ThreadOk(c: Config, s: State, t: nat)
    requires t < |s.threads|
  {
    var th := s.threads[t];
    && |th.local| <= c.localSize && (th.cur.Some? ==> |th.local| < c.localSize)
    && (!th.pc.Local? ==> th.HandsFree())
    && (th.cur.Some? ==> th.hand == {} && th.testing.None? && th.pushing.None?)
    && (th.testing.Some? ==> th.pushing.None?)
    && (!(th.pc.Local? || th.pc.Sharing? || th.pc.Notify? || th.pc.Steal? || th.pc.Take?) ==> th.local == [])
    && (th.Active() || th.pc.Waiting? ==> th.my <= |s.stack| && EmptyBelow(s, th.my))
    && (th.pc.Cas? ==> th.pc.seen < th.my)
    && (th.pc.Sharing? ==> th.pc.step <= 4 && 2 < |th.local|)
    && (th.pc.Steal? || th.pc.Take? ==>
          && th.pc.at <= |s.stack| && th.pc.high < |s.stack| && EmptyBelow(s, th.pc.at)
          && th.my <= th.pc.at && (th.my == th.pc.at ==> th.pc.at <= th.pc.high && th.pc.taken <= th.pc.max)
          && th.pc.max <= ENTRIES_TO_GET && |th.local| <= th.pc.taken
          && |th.local| <= ENTRIES_TO_GET + 1)
    && (th.pc.Take? ==> th.pc.at <= th.pc.high && th.pc.taken <= th.pc.max
                        && s.stack[th.pc.at] in {Empty, Full(th.pc.got)})
    && (th.pc.AwaitHelpers? || th.pc.Finished? ==> t == 0)
  }

  /** Every entry below index n of the shared stack is zero. */
  ghost predicate EmptyBelow(s: State, n: nat) {
    forall i :: 0 <= i < n && i < |s.stack| ==> s.stack[i] == Empty
  }

  /** Nobody has anything left to do. */
  ghost predicate Quiet(s: State) {
    && EmptyBelow(s, |s.stack|)
    && forall t :: 0 <= t < |s.threads| ==> s.threads[t].Idle() && !s.threads[t].pc.Take?
  }

  ghost predicate Returned(th: Thread) {
    th.pc.Gone? || th.pc.NotifyLast? || th.pc.AwaitHelpers? || th.pc.Finished?
  }

  /** The part of the invariant that concerns no thread in particular, or the main thread. */
  ghost predicate Base(c: Config, s: State) {
    && c.localSize >= ENTRIES_TO_GET + 1 && c.discards >= 1
    && |s.threads| > 0
    && s.firstNonempty <= |s.stack| && EmptyBelow(s, s.firstNonempty)
    && (s.threads[0].pc.AwaitHelpers? || s.threads[0].pc.Finished? ==> !s.helpWanted)
    && (s.threads[0].pc.Finished? ==> s.helpers == 0)
  }

  ghost predicate Inv(c: Config, s: State) {
    && Base(c, s)
    && s.active == |ActiveSet(s.threads)|
    && s.helpers == |EngagedSet(s.threads)|
    && (forall t :: 0 <= t < |s.threads| ==> ThreadOk(c, s, t))
    && (forall t :: 0 <= t < |s.threads| && Returned(s.threads[t]) ==> Quiet(s))
  }

  // ---- One step changes one thread, and the shared stack only by zeroing or appending ----

  lemma WakeKeeps(th: Thread)
    ensures Wake(th).Active() == th.Active() && Wake(th).Engaged() == th.Engaged()
    ensures Wake(th) == th.(pc := Wake(th).pc)
    ensures || Wake(th).pc == th.pc
            || (th.pc.Waiting? && Wake(th).pc.Waiting?)
            || (th.pc.AwaitHelpers? && Wake(th).pc.AwaitHelpers?)
  {
  }

  /** v is u, except that it may have been woken up. */
  ghost predicate Same(u: Thread, v: Thread) {
    v == u || v == Wake(u)
  }

  ghost predicate Near(s: State, s': State, t: nat) {
    && |s'.threads| == |s.threads| && t < |s.threads|
    && (forall u :: 0 <= u < |s.threads| && u != t ==> Same(s.threads[u], s'.threads[u]))
    && |s.stack| <= |s'.stack|
    && (forall i :: 0 <= i < |s.stack| ==> s'.stack[i] == s.stack[i] || s'.stack[i] == Empty)
  }

  lemma CountWithout(s: set<nat>, t: nat)
    ensures |s| == |s - {t}| + (if t in s then 1 else 0)
  {
    assert s == (s - {t}) + (if t in s then {t} else {});
  }

  lemma CountActive(threads: seq<Thread>, threads': seq<Thread>, t: nat)
    requires |threads'| == |threads| && t < |threads|
    requires forall u :: 0 <= u < |threads| && u != t ==> threads'[u].Active() == threads[u].Active()
    ensures |ActiveSet(threads')| - |ActiveSet(threads)| ==
            (if threads'[t].Active() then 1 else 0) - (if threads[t].Active() then 1 else 0)
  {
    assert ActiveSet(threads') - {t} == ActiveSet(threads) - {t};
    CountWithout(ActiveSet(threads), t);
    CountWithout(ActiveSet(threads'), t);
  }

  lemma CountEngaged(threads: seq<Thread>, threads': seq<Thread>, t: nat)
    requires |threads'| == |threads| && t < |threads|
    requires forall u :: 0 <= u < |threads| && u != t ==> threads'[u].Engaged() == threads[u].Engaged()
    ensures |EngagedSet(threads')| - |EngagedSet(threads)| ==
            (if threads'[t].Engaged() then 1 else 0) - (if threads[t].Engaged() then 1 else 0)
  {
    assert EngagedSet(threads') - {t} == EngagedSet(threads) - {t};
    CountWithout(EngagedSet(threads), t);
    CountWithout(EngagedSet(threads'), t);
  }

  lemma OthersOk(c: Config, s: State, s': State, t: nat, u: nat)
    requires Near(s, s', t) && u < |s.threads| && u != t
    requires ThreadOk(c, s, u)
    ensures ThreadOk(c, s', u)
  {
    WakeKeeps(s.threads[u]);
    assert forall n: nat :: n <= |s.stack| && EmptyBelow(s, n) ==> EmptyBelow(s', n);
  }

  function One(b: bool): int {
    if b then 1 else 0
  }

  /** What is left to check of a step of thread t, once the other threads are known to be the same. */
  ghost predicate GoodStep(c: Config, s: State, s': State, t: nat)
    requires |s'.threads| == |s.threads| && t < |s.threads|
  {
    && ThreadOk(c, s', t)
    && s'.active - s.active == One(s'.threads[t].Active()) - One(s.threads[t].Active())
    && s'.helpers - s.helpers == One(s'.threads[t].Engaged()) - One(s.threads[t].Engaged())
    && s'.firstNonempty <= |s'.stack| && EmptyBelow(s', s'.firstNonempty)
    && (Quiet(s) ==> EmptyBelow(s', |s'.stack|) && s'.threads[t].Idle() && !s'.threads[t].pc.Take?)
    && (Returned(s'.threads[t]) ==> Quiet(s'))
    && (s'.helpWanted ==> s.helpWanted)
    && (t == 0 && (s'.threads[t].pc.AwaitHelpers? || s'.threads[t].pc.Finished?) ==> !s'.helpWanted)
    && (t == 0 && s'.threads[t].pc.Finished? ==> s'.helpers == 0)
    && (s'.helpers > s.helpers ==> s.helpWanted && !(t == 0 && s'.threads[t].pc.Finished?))
  }

  lemma Assemble(c: Config, s: State, s': State, t: nat)
    requires Inv(c, s) && Near(s, s', t) && GoodStep(c, s, s', t)
    ensures Inv(c, s')
  {
    forall u | 0 <= u < |s.threads|
      ensures ThreadOk(c, s', u)
      ensures u != t ==> s'.threads[u].Active() == s.threads[u].Active()
      ensures u != t ==> s'.threads[u].Engaged() == s.threads[u].Engaged()
      ensures u != t ==> Returned(s'.threads[u]) == Returned(s.threads[u])
      ensures u != t && Quiet(s) ==> s'.threads[u].Idle() && !s'.threads[u].pc.Take?
    {
      if u != t {
        WakeKeeps(s.threads[u]);
        OthersOk(c, s, s', t, u);
      }
    }
    CountActive(s.threads, s'.threads, t);
    CountEngaged(s.threads, s'.threads, t);
    if u :| 0 <= u < |s'.threads| && Returned(s'.threads[u]) {
      if u != t {
        assert Quiet(s);
      }
    }
    if t != 0 {
      WakeKeeps(s.threads[0]);
    }
  }

  lemma KeepsJoin(c: Config, s: State, t: nat)
    requires Inv(c, s) && Enabled(c, s, t, Join)
    ensures Inv(c, Do(c, s, t, Join))
  {
    assert ThreadOk(c, s, t);
    Assemble(c, s, Do(c, s, t, Join), t);
  }

  lemma KeepsEnter(c: Config, s: State, t: nat)
    requires Inv(c, s) && Enabled(c, s, t, Enter)
    ensures Inv(c, Do(c, s, t, Enter))
  {
    assert ThreadOk(c, s, t);
    Assemble(c, s, Do(c, s, t, Enter), t);
  }

  lemma GoodReadFirst(c: Config, s: State, t: nat)
    requires Base(c, s) && Enabled(c, s, t, ReadFirst) && ThreadOk(c, s, t)
    ensures Near(s, Do(c, s, t, ReadFirst), t) && GoodStep(c, s, Do(c, s, t, ReadFirst), t)
  {
  }

  lemma KeepsReadFirst(c: Config, s: State, t: nat)
    requires Inv(c, s) && Enabled(c, s, t, ReadFirst)
    ensures Inv(c, Do(c, s, t, ReadFirst))
  {
    GoodReadFirst(c, s, t);
    Assemble(c, s, Do(c, s, t, ReadFirst), t);
  }

  lemma KeepsTryCas(c: Config, s: State, t: nat)
    requires Inv(c, s) && Enabled(c, s, t, TryCas)
    ensures Inv(c, Do(c, s, t, TryCas))
  {
    assert ThreadOk(c, s, t);
    Assemble(c, s, Do(c, s, t, TryCas), t);
  }

  lemma GoodReadStackTop(c: Config, s: State, t: nat)
    requires Base(c, s) && Enabled(c, s, t, ReadStackTop) && ThreadOk(c, s, t)
    ensures Near(s, Do(c, s, t, ReadStackTop), t) && GoodStep(c, s, Do(c, s, t, ReadStackTop), t)
  {
  }

  lemma KeepsReadStackTop(c: Config, s: State, t: nat)
    requires Inv(c, s) && Enabled(c, s, t, ReadStackTop)
    ensures Inv(c, Do(c, s, t, ReadStackTop))
  {
    GoodReadStackTop(c, s, t);
    Assemble(c, s, Do(c, s, t, ReadStackTop), t);
  }

  lemma GoodRecheck(c: Config, s: State, t: nat)
    requires Base(c, s) && Enabled(c, s, t, Recheck) && ThreadOk(c, s, t)
    ensures Near(s, Do(c, s, t, Recheck), t) && GoodStep(c, s, Do(c, s, t, Recheck), t)
  {
    if |s.stack| == s.threads[t].my {
      GoodWait(c, s, t);
    } else {
      GoodSteal(c, s, t);
    }
  }

  lemma GoodWait(c: Config, s: State, t: nat)
    requires Base(c, s) && Enabled(c, s, t, Recheck) && ThreadOk(c, s, t) && |s.stack| == s.threads[t].my
    ensures Near(s, Do(c, s, t, Recheck), t) && GoodStep(c, s, Do(c, s, t, Recheck), t)
  {
  }

  lemma GoodSteal(c: Config, s: State, t: nat)
    requires Base(c, s) && Enabled(c, s, t, Recheck) && ThreadOk(c, s, t) && |s.stack| != s.threads[t].my
    ensures Near(s, Do(c, s, t, Recheck), t) && GoodStep(c, s, Do(c, s, t, Recheck), t)
  {
  }

  lemma KeepsRecheck(c: Config, s: State, t: nat)
    requires Inv(c, s) && Enabled(c, s, t, Recheck)
    ensures Inv(c, Do(c, s, t, Recheck))
  {
    GoodRecheck(c, s, t);
    Assemble(c, s, Do(c, s, t, Recheck), t);
  }

  lemma GoodReevaluate(c: Config, s: State, t: nat)
    requires Base(c, s) && Enabled(c, s, t, Reevaluate) && ThreadOk(c, s, t)
    requires s.active == 0 && s.firstNonempty >= |s.stack| ==> Quiet(Do(c, s, t, Reevaluate))
    ensures Near(s, Do(c, s, t, Reevaluate), t) && GoodStep(c, s, Do(c, s, t, Reevaluate), t)
  {
  }

  lemma KeepsReevaluate(c: Config, s: State, t: nat)
    requires Inv(c, s) && Enabled(c, s, t, Reevaluate)
    ensures Inv(c, Do(c, s, t, Reevaluate))
  {
    if s.active == 0 && s.firstNonempty >= |s.stack| {
      QuietWhenNoneActive(c, s);
    }
    GoodReevaluate(c, s, t);
    Assemble(c, s, Do(c, s, t, Reevaluate), t);
  }

  /** A thread that returns saw no active thread and an empty stack, while holding the lock. */
  lemma QuietWhenNoneActive(c: Config, s: State)
    requires Inv(c, s) && s.active == 0 && s.firstNonempty >= |s.stack|
    ensures Quiet(s)
  {
    forall u | 0 <= u < |s.threads|
      ensures s.threads[u].Idle() && !s.threads[u].pc.Take?
    {
      assert u !in ActiveSet(s.threads);
      assert ThreadOk(c, s, u);
    }
  }

  lemma GoodStealRead(c: Config, s: State, t: nat)
    requires Base(c, s) && Enabled(c, s, t, StealRead) && ThreadOk(c, s, t)
    ensures Near(s, Do(c, s, t, StealRead), t) && GoodStep(c, s, Do(c, s, t, StealRead), t)
  {
  }

  lemma KeepsStealRead(c: Config, s: State, t: nat)
    requires Inv(c, s) && Enabled(c, s, t, StealRead)
    ensures Inv(c, Do(c, s, t, StealRead))
  {
    GoodStealRead(c, s, t);
    Assemble(c, s, Do(c, s, t, StealRead), t);
  }

  lemma GoodStealWrite(c: Config, s: State, t: nat)
    requires Base(c, s) && Enabled(c, s, t, StealWrite) && ThreadOk(c, s, t)
    ensures Near(s, Do(c, s, t, StealWrite), t) && GoodStep(c, s, Do(c, s, t, StealWrite), t)
  {
  }

  lemma KeepsStealWrite(c: Config, s: State, t: nat)
    requires Inv(c, s) && Enabled(c, s, t, StealWrite)
    ensures Inv(c, Do(c, s, t, StealWrite))
  {
    GoodStealWrite(c, s, t);
    Assemble(c, s, Do(c, s, t, StealWrite), t);
  }

  lemma KeepsStealEnd(c: Config, s: State, t: nat)
    requires Inv(c, s) && Enabled(c, s, t, StealEnd)
    ensures Inv(c, Do(c, s, t, StealEnd))
  {
    assert ThreadOk(c, s, t);
    Assemble(c, s, Do(c, s, t, StealEnd), t);
  }

  lemma KeepsTakeTop(c: Config, s: State, t: nat)
    requires Inv(c, s) && Enabled(c, s, t, TakeTop)
    ensures Inv(c, Do(c, s, t, TakeTop))
  {
    assert ThreadOk(c, s, t);
    Assemble(c, s, Do(c, s, t, TakeTop), t);
  }

  lemma KeepsLookup(c: Config, s: State, t: nat)
    requires Inv(c, s) && Enabled(c, s, t, Lookup)
    ensures Inv(c, Do(c, s, t, Lookup))
  {
    assert ThreadOk(c, s, t);
    Assemble(c, s, Do(c, s, t, Lookup), t);
  }

  lemma KeepsShareHalf(c: Config, s: State, t: nat)
    requires Inv(c, s) && Enabled(c, s, t, ShareHalf)
    ensures Inv(c, Do(c, s, t, ShareHalf))
  {
    assert ThreadOk(c, s, t);
    Assemble(c, s, Do(c, s, t, ShareHalf), t);
  }

  lemma KeepsSplitRange(c: Config, s: State, t: nat)
    requires Inv(c, s) && Enabled(c, s, t, SplitRange)
    ensures Inv(c, Do(c, s, t, SplitRange))
  {
    assert ThreadOk(c, s, t);
    Assemble(c, s, Do(c, s, t, SplitRange), t);
  }

  lemma KeepsBeginScan(c: Config, s: State, t: nat)
    requires Inv(c, s) && Enabled(c, s, t, BeginScan)
    ensures Inv(c, Do(c, s, t, BeginScan))
  {
    assert ThreadOk(c, s, t);
    Assemble(c, s, Do(c, s, t, BeginScan), t);
  }

  lemma KeepsLook(c: Config, s: State, t: nat, p: nat)
    requires Inv(c, s) && Enabled(c, s, t, Look(p))
    ensures Inv(c, Do(c, s, t, Look(p)))
  {
    assert ThreadOk(c, s, t);
    Assemble(c, s, Do(c, s, t, Look(p)), t);
  }

  lemma KeepsMarkObject(c: Config, s: State, t: nat)
    requires Inv(c, s) && Enabled(c, s, t, MarkObject)
    ensures Inv(c, Do(c, s, t, MarkObject))
  {
    assert ThreadOk(c, s, t);
    Assemble(c, s, Do(c, s, t, MarkObject), t);
  }

  lemma GoodPushObject(c: Config, s: State, t: nat)
    requires Base(c, s) && Enabled(c, s, t, PushObject) && ThreadOk(c, s, t)
    ensures Near(s, Do(c, s, t, PushObject), t) && GoodStep(c, s, Do(c, s, t, PushObject), t)
  {
  }

  lemma KeepsPushObject(c: Config, s: State, t: nat)
    requires Inv(c, s) && Enabled(c, s, t, PushObject)
    ensures Inv(c, Do(c, s, t, PushObject))
  {
    GoodPushObject(c, s, t);
    Assemble(c, s, Do(c, s, t, PushObject), t);
  }

  lemma KeepsLocalDone(c: Config, s: State, t: nat)
    requires Inv(c, s) && Enabled(c, s, t, LocalDone)
    ensures Inv(c, Do(c, s, t, LocalDone))
  {
    assert ThreadOk(c, s, t);
    Assemble(c, s, Do(c, s, t, LocalDone), t);
  }

  lemma GoodReturnAll(c: Config, s: State, t: nat)
    requires Base(c, s) && Enabled(c, s, t, ReturnAll) && ThreadOk(c, s, t)
    ensures Near(s, Do(c, s, t, ReturnAll), t) && GoodStep(c, s, Do(c, s, t, ReturnAll), t)
  {
  }

  lemma KeepsReturnAll(c: Config, s: State, t: nat)
    requires Inv(c, s) && Enabled(c, s, t, ReturnAll)
    ensures Inv(c, Do(c, s, t, ReturnAll))
  {
    GoodReturnAll(c, s, t);
    Assemble(c, s, Do(c, s, t, ReturnAll), t);
  }

  lemma KeepsTryShare(c: Config, s: State, t: nat)
    requires Inv(c, s) && Enabled(c, s, t, TryShare)
    ensures Inv(c, Do(c, s, t, TryShare))
  {
    assert ThreadOk(c, s, t);
    Assemble(c, s, Do(c, s, t, TryShare), t);
  }

  lemma KeepsReadGuard(c: Config, s: State, t: nat)
    requires Inv(c, s) && Enabled(c, s, t, ReadGuard)
    ensures Inv(c, Do(c, s, t, ReadGuard))
  {
    assert ThreadOk(c, s, t);
    Assemble(c, s, Do(c, s, t, ReadGuard), t);
  }

  lemma GoodReturnHalf(c: Config, s: State, t: nat)
    requires Base(c, s) && Enabled(c, s, t, ReturnHalf) && ThreadOk(c, s, t)
    ensures Near(s, Do(c, s, t, ReturnHalf), t) && GoodStep(c, s, Do(c, s, t, ReturnHalf), t)
  {
  }

  lemma KeepsReturnHalf(c: Config, s: State, t: nat)
    requires Inv(c, s) && Enabled(c, s, t, ReturnHalf)
    ensures Inv(c, Do(c, s, t, ReturnHalf))
  {
    GoodReturnHalf(c, s, t);
    Assemble(c, s, Do(c, s, t, ReturnHalf), t);
  }

  lemma KeepsNotifyAll(c: Config, s: State, t: nat)
    requires Inv(c, s) && Enabled(c, s, t, NotifyAll)
    ensures Inv(c, Do(c, s, t, NotifyAll))
  {
    assert ThreadOk(c, s, t);
    Assemble(c, s, Do(c, s, t, NotifyAll), t);
  }

  lemma GoodWakeMain(c: Config, s: State, t: nat)
    requires Base(c, s) && Enabled(c, s, t, WakeMain) && ThreadOk(c, s, t) && (Returned(s.threads[t]) ==> Quiet(s))
    ensures Near(s, Do(c, s, t, WakeMain), t) && GoodStep(c, s, Do(c, s, t, WakeMain), t)
  {
  }

  lemma KeepsWakeMain(c: Config, s: State, t: nat)
    requires Inv(c, s) && Enabled(c, s, t, WakeMain)
    ensures Inv(c, Do(c, s, t, WakeMain))
  {
    GoodWakeMain(c, s, t);
    Assemble(c, s, Do(c, s, t, WakeMain), t);
  }

  lemma KeepsStopHelp(c: Config, s: State, t: nat)
    requires Inv(c, s) && Enabled(c, s, t, StopHelp)
    ensures Inv(c, Do(c, s, t, StopHelp))
  {
    assert ThreadOk(c, s, t);
    Assemble(c, s, Do(c, s, t, StopHelp), t);
  }

  lemma KeepsCheckHelpers(c: Config, s: State, t: nat)
    requires Inv(c, s) && Enabled(c, s, t, CheckHelpers)
    ensures Inv(c, Do(c, s, t, CheckHelpers))
  {
    assert ThreadOk(c, s, t);
    Assemble(c, s, Do(c, s, t, CheckHelpers), t);
  }

  /** Actions on the local stack and what is taken off it. */
  predicate Works(a: Action) {
    || a.TakeTop? || a.Lookup? || a.ShareHalf? || a.SplitRange? || a.BeginScan? || a.Look? || a.MarkObject?
    || a.PushObject?
  }

  lemma KeepsInvAtWork(c: Config, s: State, t: nat, a: Action)
    requires Inv(c, s) && Enabled(c, s, t, a) && Works(a)
    ensures Inv(c, Do(c, s, t, a))
  {
    match a
    case TakeTop => KeepsTakeTop(c, s, t);
    case Lookup => KeepsLookup(c, s, t);
    case ShareHalf => KeepsShareHalf(c, s, t);
    case SplitRange => KeepsSplitRange(c, s, t);
    case BeginScan => KeepsBeginScan(c, s, t);
    case Look(p) => KeepsLook(c, s, t, p);
    case MarkObject => KeepsMarkObject(c, s, t);
    case PushObject => KeepsPushObject(c, s, t);
  }

  /** The counters and the quiet end are kept by every step. */
  lemma KeepsInv(c: Config, s: State, t: nat, a: Action)
    requires Inv(c, s) && Enabled(c, s, t, a)
    ensures Inv(c, Do(c, s, t, a))
  {
    match a
    case Join => KeepsJoin(c, s, t);
    case Enter => KeepsEnter(c, s, t);
    case ReadFirst => KeepsReadFirst(c, s, t);
    case TryCas => KeepsTryCas(c, s, t);
    case ReadStackTop => KeepsReadStackTop(c, s, t);
    case Recheck => KeepsRecheck(c, s, t);
    case Reevaluate => KeepsReevaluate(c, s, t);
    case StealRead => KeepsStealRead(c, s, t);
    case StealWrite => KeepsStealWrite(c, s, t);
    case StealEnd => KeepsStealEnd(c, s, t);
    case LocalDone => KeepsLocalDone(c, s, t);
    case ReturnAll => KeepsReturnAll(c, s, t);
    case TryShare => KeepsTryShare(c, s, t);
    case ReadGuard => KeepsReadGuard(c, s, t);
    case ReturnHalf => KeepsReturnHalf(c, s, t);
    case NotifyAll => KeepsNotifyAll(c, s, t);
    case WakeMain => KeepsWakeMain(c, s, t);
    case StopHelp => KeepsStopHelp(c, s, t);
    case CheckHelpers => KeepsCheckHelpers(c, s, t);
    case _ => KeepsInvAtWork(c, s, t, a);
  }
}
