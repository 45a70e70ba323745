/** The parallel marker ends: under every interleaving each step of each thread brings the end of the phase closer, so
    that no run goes on for ever, and one that cannot go on has finished. */
module ParallelProgress {
  import opened Arithmetic
  import opened HeapGraph
  import opened ParallelMark
  import opened ParallelRuns

  // ---- What one thread has yet to do ----

  /** How far a thread is from leaving the phase; it never goes back. */
  function Stage(th: Thread): nat {
    if th.pc.Out? then 6
    else if th.pc.Joining? then 5
    else if th.Engaged() then 4
    else if th.pc.NotifyLast? then 3
    else if th.pc.Gone? then 2
    else if th.pc.AwaitHelpers? then 1
    else 0
  }

  /** The first entry of the shared stack at which thread th has not looked. */
  function Place(th: Thread): nat {
    if th.pc.Steal? || th.pc.Take? then th.pc.at else th.my
  }

  function Behind(limit: nat, th: Thread): nat {
    if Place(th) < limit then limit - Place(th) else 0
  }

  /** A bound on the steps it takes to look at all positions of an entry; sharing or splitting a long range makes it
      less. */
  ghost function EntryWork(unit: nat, e: Entry): nat
    decreases e.descr
  {
    match e.descr
    case PerObject(d) => 1 + EntryWork(unit, Entry(e.start, d))
    case Length(n) => 4 * n + 1 - (if n >= 64 * unit then 63 * unit else 0)
    case _ => 1 + 2 * |Positions(unit, e)|
  }

  ghost function LocalWork(unit: nat, local: seq<Entry>): nat {
    if local == [] then 0 else LocalWork(unit, local[..|local|-1]) + EntryWork(unit, local[|local|-1]) + 1
  }

  ghost function PushWork(heap: Heap, o: nat): nat {
    if o < |heap.objects| && heap.objects[o].block < |heap.blocks| then EntryWork(heap.unit, heap.EntryOf(o)) + 2 else 2
  }

  /** An object that two threads found unmarked is pushed by both; only for the first of them is that new. */
  ghost function TestWork(heap: Heap, marked: set<nat>, o: nat): nat {
    if o in marked then PushWork(heap, o) + 1 else 1
  }

  /** What a thread holds. */
  ghost function Work(heap: Heap, marked: set<nat>, th: Thread): nat {
    LocalWork(heap.unit, th.local) + (if th.cur.Some? then EntryWork(heap.unit, th.cur.value) else 0) + 2 * |th.hand|
    + (if th.testing.Some? then TestWork(heap, marked, th.testing.value) else 0)
    + (if th.pushing.Some? then PushWork(heap, th.pushing.value) else 0)
  }

  /** How often a thread can wake the others before it has looked at another entry or advanced GC_first_nonempty. */
  function Wakes(first: nat, size: nat, th: Thread): nat {
    match th.pc
    case Notify => 2
    case Local(_) => 1
    case Sharing(_, _) => 1
    case Steal(at, _, _, _) => if th.my < at then 1 else 0
    case Take(at, _, _, _, _) => if th.my < at then 1 else 0
    case Top => if first < size then 0 else 1
    case Cas(seen) => if seen != first && th.my == size then 1 else 0
    case ReadTop => if th.my == size then 1 else 0
    case Check => if th.my == size then 1 else 0
    case _ => 0
  }

  /** The order of the remaining steps. */
  function Moves(th: Thread): nat {
    match th.pc
    case Steal(at, _, _, _) => if th.my < at then 19 else 5
    case Take(at, _, _, _, _) => if th.my < at then 18 else 4
    case Local(worked) => if worked then 17 else 10
    case Sharing(step, _) => if step <= 4 then 16 - step else 12
    case Waiting(asleep) => if asleep then 0 else 10
    case Top => 9
    case Cas(_) => 8
    case ReadTop => 7
    case Check => 6
    case AwaitHelpers(asleep) => if asleep then 0 else 1
    case _ => 0
  }

  // ---- What all have yet to do ----

  ghost function Sum(q: seq<nat>): nat {
    if q == [] then 0 else Sum(q[..|q|-1]) + q[|q|-1]
  }

  lemma {:induction false} SumChange(q: seq<nat>, q': seq<nat>, t: nat)
    requires |q| == |q'| && t < |q| && forall u :: 0 <= u < |q| && u != t ==> q'[u] == q[u]
    ensures Sum(q') + q[t] == Sum(q) + q'[t]
    decreases |q|
  {
    if t == |q| - 1 {
      assert q[..|q|-1] == q'[..|q|-1];
    } else {
      SumChange(q[..|q|-1], q'[..|q|-1], t);
    }
  }

  /** The larger of the size of the shared stack and what is on it. */
  function Limit(c: Config, s: State): nat {
    if |s.stack| <= c.globalSize then c.globalSize else |s.stack|
  }

  ghost function Stages(s: State): seq<nat> {
    seq(|s.threads|, t requires 0 <= t < |s.threads| => Stage(s.threads[t]))
  }

  ghost function Behinds(c: Config, s: State): seq<nat> {
    seq(|s.threads|, t requires 0 <= t < |s.threads| => Behind(Limit(c, s), s.threads[t]))
  }

  ghost function Works(c: Config, s: State): seq<nat> {
    seq(|s.threads|, t requires 0 <= t < |s.threads| => Work(c.heap, s.marked, s.threads[t]))
  }

  ghost function AllWakes(s: State): seq<nat> {
    seq(|s.threads|, t requires 0 <= t < |s.threads| => Wakes(s.firstNonempty, |s.stack|, s.threads[t]))
  }

  ghost function AllMoves(s: State): seq<nat> {
    seq(|s.threads|, t requires 0 <= t < |s.threads| => Moves(s.threads[t]))
  }

  /** What is left of a phase, the weightiest part first. */
  datatype Rank = Rank(unmarked: nat, stages: nat, room: nat, behind: nat, work: nat, ahead: nat, wakes: nat,
                       moves: nat)

  ghost function RankOf(c: Config, s: State): Rank {
    Rank(|c.heap.Ids() - s.marked|, Sum(Stages(s)), Limit(c, s) - |s.stack|, Sum(Behinds(c, s)), Sum(Works(c, s)),
         if s.firstNonempty <= Limit(c, s) then Limit(c, s) - s.firstNonempty else 0, Sum(AllWakes(s)),
         Sum(AllMoves(s)))
  }

  predicate Less(a: Rank, b: Rank) {
    || a.unmarked < b.unmarked
    || (a.unmarked == b.unmarked &&
        (|| a.stages < b.stages
         || (a.stages == b.stages && (a.room < b.room || (a.room == b.room && LessWork(a, b))))))
  }

  predicate LessWork(a: Rank, b: Rank) {
    || a.behind < b.behind
    || (a.behind == b.behind &&
        (|| a.work < b.work
         || (a.work == b.work && (a.ahead < b.ahead || (a.ahead == b.ahead && LessMoves(a, b))))))
  }

  predicate LessMoves(a: Rank, b: Rank) {
    a.wakes < b.wakes || (a.wakes == b.wakes && a.moves < b.moves)
  }

  // ---- A step changes what one thread has to do ----

  /** Thread t went from th to th'; the others were at most woken up. */
  ghost predicate StepOf(c: Config, s: State, s': State, t: nat) {
    && |s'.threads| == |s.threads| && t < |s.threads| && Limit(c, s') == Limit(c, s)
    && (forall u :: 0 <= u < |s.threads| && u != t ==> Same(s.threads[u], s'.threads[u]))
  }

  lemma StagesChange(c: Config, s: State, s': State, t: nat)
    requires StepOf(c, s, s', t)
    ensures Sum(Stages(s')) + Stage(s.threads[t]) == Sum(Stages(s)) + Stage(s'.threads[t])
  {
    SumChange(Stages(s), Stages(s'), t);
  }

  lemma BehindsChange(c: Config, s: State, s': State, t: nat)
    requires StepOf(c, s, s', t)
    ensures Sum(Behinds(c, s')) + Behind(Limit(c, s), s.threads[t])
            == Sum(Behinds(c, s)) + Behind(Limit(c, s), s'.threads[t])
  {
    SumChange(Behinds(c, s), Behinds(c, s'), t);
  }

  lemma WorksChange(c: Config, s: State, s': State, t: nat)
    requires StepOf(c, s, s', t) && s'.marked == s.marked
    ensures Sum(Works(c, s')) + Work(c.heap, s.marked, s.threads[t])
            == Sum(Works(c, s)) + Work(c.heap, s.marked, s'.threads[t])
  {
    SumChange(Works(c, s), Works(c, s'), t);
  }

  lemma WakesChange(c: Config, s: State, s': State, t: nat)
    requires StepOf(c, s, s', t) && s'.firstNonempty == s.firstNonempty && |s'.stack| == |s.stack|
    ensures Sum(AllWakes(s')) + Wakes(s.firstNonempty, |s.stack|, s.threads[t])
            == Sum(AllWakes(s)) + Wakes(s.firstNonempty, |s.stack|, s'.threads[t])
  {
    SumChange(AllWakes(s), AllWakes(s'), t);
  }

  lemma MovesChange(s: State, s': State, t: nat)
    requires t < |s.threads| && OthersSame(s, s', t)
    ensures Sum(AllMoves(s')) + Moves(s.threads[t]) == Sum(AllMoves(s)) + Moves(s'.threads[t])
  {
    SumChange(AllMoves(s), AllMoves(s'), t);
  }

  ghost predicate MarksNew(c: Config, s: State, s': State) {
    s.marked <= s'.marked && (s'.marked - s.marked) * c.heap.Ids() != {}
  }

  /** The step of thread t brings the end closer. */
  ghost predicate Closer(c: Config, s: State, s': State, t: nat) {
    t < |s.threads| && t < |s'.threads| &&
    var th, th' := s.threads[t], s'.threads[t];
    || MarksNew(c, s, s')
    || (s'.marked == s.marked &&
        (|| Stage(th') < Stage(th)
         || (Stage(th') == Stage(th) &&
             (|s'.stack| > |s.stack| || (|s'.stack| == |s.stack| && CloserWork(c, s, s', t))))))
  }

  ghost predicate CloserWork(c: Config, s: State, s': State, t: nat)
    requires t < |s.threads| && t < |s'.threads|
  {
    var th, th' := s.threads[t], s'.threads[t];
    var limit := Limit(c, s);
    || Behind(limit, th') < Behind(limit, th)
    || (Behind(limit, th') == Behind(limit, th) &&
        (|| Work(c.heap, s.marked, th') < Work(c.heap, s.marked, th)
         || (Work(c.heap, s.marked, th') == Work(c.heap, s.marked, th) &&
             (|| s.firstNonempty < s'.firstNonempty <= limit
              || (s'.firstNonempty == s.firstNonempty && CloserMoves(s, s', t))))))
  }

  ghost predicate CloserMoves(s: State, s': State, t: nat)
    requires t < |s.threads| && t < |s'.threads|
  {
    var before := Wakes(s.firstNonempty, |s.stack|, s.threads[t]);
    var after := Wakes(s.firstNonempty, |s.stack|, s'.threads[t]);
    after < before || (after == before && OthersSame(s, s', t) && Moves(s'.threads[t]) < Moves(s.threads[t]))
  }

  lemma FewerUnmarked(ids: set<nat>, marked: set<nat>, marked': set<nat>)
    requires marked <= marked' && (marked' - marked) * ids != {}
    ensures |ids - marked'| < |ids - marked|
  {
    var o :| o in marked' && o !in marked && o in ids;
    assert ids - marked' <= (ids - marked) - {o};
    Fewer(ids - marked', (ids - marked) - {o});
  }

  lemma Fewer(a: set<nat>, b: set<nat>)
    requires a <= b
    ensures |a| <= |b|
  {
    assert b == a + (b - a);
  }

  lemma RankFalls(c: Config, s: State, s': State, t: nat)
    requires StepOf(c, s, s', t) && Closer(c, s, s', t)
    ensures Less(RankOf(c, s'), RankOf(c, s))
  {
    if MarksNew(c, s, s') {
      FewerUnmarked(c.heap.Ids(), s.marked, s'.marked);
    } else {
      StagesChange(c, s, s', t);
      if Stage(s'.threads[t]) == Stage(s.threads[t]) && |s'.stack| == |s.stack| {
        WorkFalls(c, s, s', t);
      }
    }
  }

  lemma WorkFalls(c: Config, s: State, s': State, t: nat)
    requires StepOf(c, s, s', t) && s'.marked == s.marked && |s'.stack| == |s.stack| && CloserWork(c, s, s', t)
    ensures LessWork(RankOf(c, s'), RankOf(c, s))
  {
    BehindsChange(c, s, s', t);
    WorksChange(c, s, s', t);
    if s'.firstNonempty == s.firstNonempty && CloserMoves(s, s', t) {
      WakesChange(c, s, s', t);
      if OthersSame(s, s', t) {
        MovesChange(s, s', t);
      }
    }
  }

  // ---- Every step does ----

  lemma LocalWorkPush(unit: nat, local: seq<Entry>, e: Entry)
    ensures LocalWork(unit, local + [e]) == LocalWork(unit, local) + EntryWork(unit, e) + 1
  {
    assert (local + [e])[..|local|] == local;
  }

  lemma {:induction false} LocalWorkAppend(unit: nat, a: seq<Entry>, b: seq<Entry>)
    ensures LocalWork(unit, a + b) == LocalWork(unit, a) + LocalWork(unit, b)
    ensures a != [] ==> LocalWork(unit, a) > 0
    decreases |b|
  {
    if b == [] {
      assert a + b == a;
    } else {
      LocalWorkAppend(unit, a, b[..|b|-1]);
      assert (a + b)[..|a + b|-1] == a + b[..|b|-1];
    }
  }

  lemma {:induction false} RangeSize(lo: nat, hi: int)
    ensures |Range(lo, hi)| == if lo < hi then hi - lo else 0
    decreases hi - lo
  {
    if lo < hi {
      RangeSize(lo, hi - 1);
      assert Between(lo, hi - 1, hi);
      assert forall a: nat :: a in Range(lo, hi) <==> a in Range(lo, hi - 1) + {hi - 1} by {
        assert forall a: nat :: Between(lo, a, hi) <==> Between(lo, a, hi - 1) || a == hi - 1;
      }
      assert Range(lo, hi) == Range(lo, hi - 1) + {hi - 1};
    } else {
      assert Range(lo, hi) == {};
    }
  }

  lemma TakeTopCloser(c: Config, s: State, t: nat)
    requires Enabled(c, s, t, TakeTop) && ThreadOk(c, s, t)
    ensures Closer(c, s, Do(c, s, t, TakeTop), t)
  {
  }

  lemma LookupCloser(c: Config, s: State, t: nat)
    requires Enabled(c, s, t, Lookup) && ThreadOk(c, s, t)
    ensures Closer(c, s, Do(c, s, t, Lookup), t)
  {
  }

  lemma HalvesAreLess(unit: nat, e: Entry)
    requires unit >= 1 && e.descr.Length? && e.descr.units >= SPLIT_RANGE_WORDS * unit
    ensures EntryWork(unit, Halves(unit, e).0) + EntryWork(unit, Halves(unit, e).1) + 1 < EntryWork(unit, e)
  {
    assert 0 <= (e.descr.units / 2) % unit < unit;
  }

  lemma ShareHalfCloser(c: Config, s: State, t: nat)
    requires Enabled(c, s, t, ShareHalf) && ThreadOk(c, s, t)
    ensures Closer(c, s, Do(c, s, t, ShareHalf), t)
  {
    var th := s.threads[t];
    HalvesAreLess(c.heap.unit, th.cur.value);
    LocalWorkPush(c.heap.unit, th.local, Halves(c.heap.unit, th.cur.value).0);
  }

  lemma SplitIsLess(unit: nat, e: Entry)
    requires unit >= 1 && e.descr.Length? && e.descr.units >= SPLIT_RANGE_WORDS * unit
    ensures 2 * |Positions(unit, Split(unit, e).0)| + EntryWork(unit, Split(unit, e).1) + 1 < EntryWork(unit, e)
  {
    var first := Split(unit, e).0;
    RangeSize(first.start, first.start + first.descr.units - unit + 1);
    assert Positions(unit, first) == Range(first.start, first.start + first.descr.units - unit + 1);
  }

  lemma SplitRangeCloser(c: Config, s: State, t: nat)
    requires Enabled(c, s, t, SplitRange) && ThreadOk(c, s, t)
    ensures Closer(c, s, Do(c, s, t, SplitRange), t)
  {
    var th := s.threads[t];
    var (first, second) := Split(c.heap.unit, th.cur.value);
    SplitIsLess(c.heap.unit, th.cur.value);
    LocalWorkPush(c.heap.unit, th.local, second);
    var th' := th.(local := th.local + [second], cur := None, hand := Positions(c.heap.unit, first));
    assert Work(c.heap, s.marked, th') < Work(c.heap, s.marked, th);
    assert Do(c, s, t, SplitRange) == s.(threads := s.threads[t := th']);
  }

  lemma BeginScanCloser(c: Config, s: State, t: nat)
    requires Enabled(c, s, t, BeginScan) && ThreadOk(c, s, t) && c.heap.unit >= 1
    ensures Closer(c, s, Do(c, s, t, BeginScan), t)
  {
    var e := s.threads[t].cur.value;
    if e.descr.Length? {
      RangeSize(e.start, e.start + e.descr.units - c.heap.unit + 1);
      assert Positions(c.heap.unit, e) == Range(e.start, e.start + e.descr.units - c.heap.unit + 1);
    }
  }

  lemma LookCloser(c: Config, s: State, t: nat, p: nat)
    requires Enabled(c, s, t, Look(p)) && ThreadOk(c, s, t)
    ensures Closer(c, s, Do(c, s, t, Look(p)), t)
  {
  }

  /** Marking an object that another thread has marked in the meantime brings the push of it closer. */
  lemma MarkObjectCloser(c: Config, s: State, t: nat)
    requires Enabled(c, s, t, MarkObject) && ThreadOk(c, s, t) && Sane(c, s)
    ensures Closer(c, s, Do(c, s, t, MarkObject), t)
  {
    var o := s.threads[t].testing.value;
    if o in s.marked {
      assert s.marked + {o} == s.marked;
    } else {
      assert o in (s.marked + {o} - s.marked) * c.heap.Ids();
    }
  }

  lemma LocalWorkDrop(unit: nat, local: seq<Entry>, n: nat)
    requires n <= |local|
    ensures LocalWork(unit, local[..n]) <= LocalWork(unit, local)
  {
    assert local == local[..n] + local[n..];
    LocalWorkAppend(unit, local[..n], local[n..]);
  }

  lemma PushIsLess(c: Config, local: seq<Entry>, e: Entry)
    ensures LocalWork(c.heap.unit, PushLocal(c, local, e))
            <= LocalWork(c.heap.unit, local) + EntryWork(c.heap.unit, e) + 1
  {
    var rest := if c.discards <= |local| then local[..|local| - c.discards] else [];
    if c.discards <= |local| {
      LocalWorkDrop(c.heap.unit, local, |local| - c.discards);
    }
    LocalWorkPush(c.heap.unit, local, e);
    LocalWorkPush(c.heap.unit, rest, e);
    assert [] + [e] == [e];
    assert PushLocal(c, local, e) in {local, local + [e], rest + [e]};
  }

  lemma PushObjectCloser(c: Config, s: State, t: nat)
    requires Enabled(c, s, t, PushObject) && ThreadOk(c, s, t)
    ensures Closer(c, s, Do(c, s, t, PushObject), t)
  {
    PushIsLess(c, s.threads[t].local, c.heap.EntryOf(s.threads[t].pushing.value));
  }

  /** Giving entries back fills the shared stack or, where they are dropped, leaves fewer. */
  lemma ReturnCloser(c: Config, s: State, t: nat, entries: seq<Entry>, keep: seq<Entry>)
    requires t < |s.threads| && s.threads[t].local == entries + keep && entries != []
    requires s.threads[t].Active() && !s.threads[t].pc.Steal? && !s.threads[t].pc.Take?
    ensures Closer(c, s, Return(c, s, t, entries, keep), t)
  {
    LocalWorkAppend(c.heap.unit, entries, keep);
  }

  lemma ReturnAllCloser(c: Config, s: State, t: nat)
    requires Enabled(c, s, t, ReturnAll)
    ensures Closer(c, s, Do(c, s, t, ReturnAll), t)
  {
    assert s.threads[t].local == s.threads[t].local + [];
    ReturnCloser(c, s, t, s.threads[t].local, []);
  }

  lemma ReturnHalfCloser(c: Config, s: State, t: nat)
    requires Enabled(c, s, t, ReturnHalf)
    ensures Closer(c, s, Do(c, s, t, ReturnHalf), t)
  {
    var local := s.threads[t].local;
    var bottom := (|local| - 1) / 2;
    assert local == local[..bottom] + local[bottom..];
    ReturnCloser(c, s, t, local[..bottom], local[bottom..]);
  }

  /** Stealing: each entry of the shared stack is looked at once. */
  lemma StealCloser(c: Config, s: State, t: nat, a: Action)
    requires Enabled(c, s, t, a) && ThreadOk(c, s, t) && (a.StealRead? || a.StealWrite? || a.StealEnd?)
    ensures Closer(c, s, Do(c, s, t, a), t)
  {
  }

  lemma WorkCloser(c: Config, s: State, t: nat, a: Action)
    requires Enabled(c, s, t, a) && ThreadOk(c, s, t) && Sane(c, s) && !Control(a)
    ensures Closer(c, s, Do(c, s, t, a), t)
  {
    match a
    case TakeTop => TakeTopCloser(c, s, t);
    case Lookup => LookupCloser(c, s, t);
    case ShareHalf => ShareHalfCloser(c, s, t);
    case SplitRange => SplitRangeCloser(c, s, t);
    case BeginScan => BeginScanCloser(c, s, t);
    case Look(p) => LookCloser(c, s, t, p);
    case MarkObject => MarkObjectCloser(c, s, t);
    case PushObject => PushObjectCloser(c, s, t);
    case ReturnAll => ReturnAllCloser(c, s, t);
    case ReturnHalf => ReturnHalfCloser(c, s, t);
    case StealWrite => StealCloser(c, s, t, a);
  }

  /** Looking at GC_first_nonempty and at GC_mark_stack_top. */
  lemma LookAroundCloser(c: Config, s: State, t: nat, a: Action)
    requires Enabled(c, s, t, a) && ThreadOk(c, s, t) && s.firstNonempty <= |s.stack|
    requires a.ReadFirst? || a.TryCas? || a.ReadStackTop?
    ensures Closer(c, s, Do(c, s, t, a), t)
  {
  }

  lemma RecheckCloser(c: Config, s: State, t: nat)
    requires Enabled(c, s, t, Recheck) && ThreadOk(c, s, t)
    ensures Closer(c, s, Do(c, s, t, Recheck), t)
  {
    if s.threads[t].my == |s.stack| {
      var th' := s.threads[t].(pc := Waiting(false));
      assert Wake(th') == th';
      assert Do(c, s, t, Recheck).threads[t] == th';
    }
  }

  lemma GoOnCloser(c: Config, s: State, t: nat)
    requires Enabled(c, s, t, Reevaluate) && s.active >= 0 && s.firstNonempty < |s.stack|
    ensures Closer(c, s, Do(c, s, t, Reevaluate), t)
  {
  }

  lemma SleepCloser(c: Config, s: State, t: nat)
    requires Enabled(c, s, t, Reevaluate) && s.active > 0 && s.firstNonempty >= |s.stack|
    ensures Closer(c, s, Do(c, s, t, Reevaluate), t)
  {
  }

  lemma LeaveCloser(c: Config, s: State, t: nat)
    requires Enabled(c, s, t, Reevaluate) && s.active == 0 && s.firstNonempty >= |s.stack|
    ensures Closer(c, s, Do(c, s, t, Reevaluate), t)
  {
  }

  lemma ReevaluateCloser(c: Config, s: State, t: nat)
    requires Enabled(c, s, t, Reevaluate) && s.active >= 0
    ensures Closer(c, s, Do(c, s, t, Reevaluate), t)
  {
    if s.firstNonempty < |s.stack| {
      GoOnCloser(c, s, t);
    } else if s.active > 0 {
      SleepCloser(c, s, t);
    } else {
      LeaveCloser(c, s, t);
    }
  }

  /** Entering and leaving the phase. */
  lemma StageCloser(c: Config, s: State, t: nat, a: Action)
    requires Enabled(c, s, t, a) && ThreadOk(c, s, t)
    requires a.Join? || a.Enter? || a.StopHelp? || a.CheckHelpers?
    ensures Closer(c, s, Do(c, s, t, a), t)
  {
  }

  lemma ShareCloser(c: Config, s: State, t: nat, a: Action)
    requires Enabled(c, s, t, a) && ThreadOk(c, s, t)
    requires a.LocalDone? || a.TryShare? || a.ReadGuard?
    ensures Closer(c, s, Do(c, s, t, a), t)
  {
  }

  lemma NotifyCloser(c: Config, s: State, t: nat)
    requires Enabled(c, s, t, NotifyAll) && ThreadOk(c, s, t)
    ensures Closer(c, s, Do(c, s, t, NotifyAll), t)
  {
    var th := s.threads[t];
    var th' := th.(pc := if th.local == [] then Top else Local(false));
    assert Wake(th') == th';
    assert Do(c, s, t, NotifyAll).threads[t] == th';
  }

  lemma WakeMainCloser(c: Config, s: State, t: nat)
    requires Enabled(c, s, t, WakeMain)
    ensures Closer(c, s, Do(c, s, t, WakeMain), t)
  {
    var th' := s.threads[t].(pc := Gone);
    assert Wake(th') == th';
    assert Do(c, s, t, WakeMain).threads[t] == th';
  }

  lemma WaitCloser(c: Config, s: State, t: nat, a: Action)
    requires Enabled(c, s, t, a) && ThreadOk(c, s, t) && s.active >= 0
    requires a.Recheck? || a.Reevaluate? || a.NotifyAll? || a.WakeMain?
    ensures Closer(c, s, Do(c, s, t, a), t)
  {
    match a
    case Recheck => RecheckCloser(c, s, t);
    case Reevaluate => ReevaluateCloser(c, s, t);
    case NotifyAll => NotifyCloser(c, s, t);
    case WakeMain => WakeMainCloser(c, s, t);
  }

  lemma ControlCloser(c: Config, s: State, t: nat, a: Action)
    requires Enabled(c, s, t, a) && ThreadOk(c, s, t) && Control(a)
    requires s.firstNonempty <= |s.stack| && s.active >= 0
    ensures Closer(c, s, Do(c, s, t, a), t)
  {
    if a.StealRead? || a.StealEnd? {
      StealCloser(c, s, t, a);
    } else if a.Recheck? || a.Reevaluate? || a.NotifyAll? || a.WakeMain? {
      WaitCloser(c, s, t, a);
    } else if a.ReadFirst? || a.TryCas? || a.ReadStackTop? {
      LookAroundCloser(c, s, t, a);
    } else if a.Join? || a.Enter? || a.StopHelp? || a.CheckHelpers? {
      StageCloser(c, s, t, a);
    } else {
      ShareCloser(c, s, t, a);
    }
  }

  lemma IsStepOf(c: Config, s: State, t: nat, a: Action)
    requires Enabled(c, s, t, a)
    ensures StepOf(c, s, Do(c, s, t, a), t)
  {
    if a.ReturnAll? || a.ReturnHalf? {
      OthersStayAtWork(c, s, t, a);
    } else {
      NotReturned(c, s, t, a);
    }
  }

  /** Every step of every thread brings the end of the phase closer. */
  lemma StepComesCloser(c: Config, s: State, t: nat, a: Action)
    requires Inv(c, s) && Sane(c, s) && Enabled(c, s, t, a)
    ensures Less(RankOf(c, Do(c, s, t, a)), RankOf(c, s))
  {
    assert ThreadOk(c, s, t);
    IsStepOf(c, s, t, a);
    if Control(a) {
      ControlCloser(c, s, t, a);
    } else {
      WorkCloser(c, s, t, a);
    }
    RankFalls(c, s, Do(c, s, t, a), t);
  }

  // ---- Runs end ----

  /** None but threads that do not take part yet can do anything. */
  ghost predicate Stuck(c: Config, s: State) {
    forall t: nat, a :: Enabled(c, s, t, a) ==> a.Join?
  }

  /** The next state of a run that goes on as long as it can. */
  ghost predicate Goes(c: Config, s: State, s': State) {
    Step(c, s, s') || (Stuck(c, s) && s' == s)
  }

  lemma SafeStep(c: Config, s: State, s': State)
    requires Safe(c, s) && Step(c, s, s')
    ensures Safe(c, s') && Less(RankOf(c, s'), RankOf(c, s))
  {
    var t: nat, a :| Enabled(c, s, t, a) && s' == Do(c, s, t, a);
    StepComesCloser(c, s, t, a);
    StepIsSafe(c, s, s');
  }

  lemma {:induction false} AlwaysSafe(c: Config, run: nat -> State, n: nat)
    requires Start(c, run(0)) && forall k: nat :: Goes(c, run(k), run(k + 1))
    ensures Safe(c, run(n))
  {
    if n == 0 {
      StartInv(c, run(0));
    } else {
      AlwaysSafe(c, run, n - 1);
      assert Goes(c, run(n - 1), run(n - 1 + 1));
      if run(n) != run(n - 1) {
        StepIsSafe(c, run(n - 1), run(n));
      }
    }
  }

  /** Ranks cannot fall for ever. */
  lemma Descent(rank: nat -> Rank, n: nat, r: Rank)
    requires rank(n) == r && forall k: nat :: Less(rank(k + 1), rank(k))
    ensures false
    decreases r.unmarked, r.stages, r.room, r.behind, r.work, r.ahead, r.wakes, r.moves
  {
    Descent(rank, n + 1, rank(n + 1));
  }

  /** There is no endless run. */
  lemma NoEndlessRun(c: Config, run: nat -> State)
    requires Start(c, run(0))
    ensures exists i: nat :: !Step(c, run(i), run(i + 1))
  {
    if forall i: nat :: Step(c, run(i), run(i + 1)) {
      var rank := (n: nat) => RankOf(c, run(n));
      forall k: nat
        ensures Less(rank(k + 1), rank(k))
      {
        AlwaysSafe(c, run, k);
        SafeStep(c, run(k), run(k + 1));
      }
      Descent(rank, 0, rank(0));
    }
  }

  lemma MovesOn(c: Config, s: State, s': State)
    requires Safe(c, s) && Goes(c, s, s') && !s.threads[0].pc.Finished?
    ensures Step(c, s, s')
  {
    var t, a := NoDeadlock(c, s);
    assert !Stuck(c, s);
  }

  /** Under every interleaving, and however late other threads come to help: a run that goes on as long as a thread
      taking part can do something gets to where the main thread returns. */
  lemma PhaseEnds(c: Config, run: nat -> State)
    requires Start(c, run(0)) && forall n: nat :: Goes(c, run(n), run(n + 1))
    ensures exists i: nat :: run(i).threads != [] && run(i).threads[0].pc.Finished?
  {
    if forall i: nat :: run(i).threads == [] || !run(i).threads[0].pc.Finished? {
      forall i: nat
        ensures Step(c, run(i), run(i + 1))
      {
        AlwaysSafe(c, run, i);
        MovesOn(c, run(i), run(i + 1));
      }
      NoEndlessRun(c, run);
    }
  }
}
