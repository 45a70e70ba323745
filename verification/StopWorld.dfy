/** Stopping and starting the world by signals (boehmgc/src/pthread_stop_world.c), as a step system: the thread
    that holds the allocation lock against the suspend handlers of all others.

    Each action is one access to shared state by one thread, or the arrival of a signal.  Signals are not queued.
    The suspend handler masks both signals; sigsuspend lets the restart signal through.  Signals are not resent
    (GC_retry_signals is false), and threads block, finish or start only while the allocation lock is free. */
module StopWorld {

  /** Vanished is a thread that pthread_kill does not find (ESRCH), though it is not marked as finished. */
  datatype Status = Running | Blocked | Finished | Vanished

  /** Where a thread is in GC_suspend_handler_inner, and its my_stop_count. */
  datatype Pc =
    | Outside
    | Entered                   // before GC_stop_count is read
    | Counted(my: nat)          // before the test for a duplicate signal
    | Posting(my: nat)          // before sem_post
    | Recording(my: nat)        // before last_stop_count is set
    | Suspended(my: nat)        // in sigsuspend
    | Looking(my: nat)          // before GC_world_is_stopped is read
    | Comparing(my: nat)        // before GC_stop_count is read again

  datatype Thread = Thread(status: Status, suspend: bool, restart: bool, last: nat, pc: Pc)

  /** Where the thread that holds the allocation lock is, if one does. */
  datatype Control =
    | Free
    | Raised                            // GC_stop_count is incremented
    | Signalling(i: nat, n: nat)        // in GC_suspend_all, n signals sent
    | Awaiting(i: nat, n: nat)          // i of n acknowledgements received
    | Stopped                           // after GC_stop_world
    | Restarting(i: nat)                // in GC_start_world, GC_world_is_stopped is cleared
  {
    predicate Halting() {
      Signalling? || Awaiting?
    }
  }

  /** Besides the shared variables, what happened since GC_stop_count was last incremented: the threads that were
      signalled, and how often each posted. */
  datatype State = State(stopCount: nat, worldStopped: bool, sem: nat, threads: seq<Thread>, ctl: Control,
                         self: nat, signalled: set<nat>, posts: multiset<nat>)

  datatype Action =
    | Begin(self: nat) | Raise | Signal | SignalsSent | Await | AllAwaited | Clear | Restart | Release
    | Change(status: Status, replaced: bool)
    | Deliver | Ignore | ReadCount | TestDuplicate | Post | Record | Restarted | Spurious | Look | Compare

  function Skips(s: State, i: nat): bool
    requires i < |s.threads|
  {
    var p := s.threads[i];
    i == s.self || p.status.Finished? || p.last == s.stopCount || p.status.Blocked?
  }

  /** When an action can happen, on thread t where it is about one. */
  ghost predicate Enabled(s: State, t: nat, a: Action) {
    && t < |s.threads|
    && var th := s.threads[t];
       match a
       case Begin(self) => s.ctl.Free? && self == t && th.status.Running? && th.pc.Outside? && !th.suspend
       case Raise => s.ctl.Raised?
       case Signal => s.ctl.Signalling? && s.ctl.i < |s.threads|
       case SignalsSent => s.ctl.Signalling? && s.ctl.i >= |s.threads|
       case Await => s.ctl.Awaiting? && s.ctl.i < s.ctl.n && s.sem > 0
       case AllAwaited => s.ctl.Awaiting? && s.ctl.i >= s.ctl.n
       case Clear => s.ctl.Stopped?
       case Restart => s.ctl.Restarting? && s.ctl.i < |s.threads|
       case Release => s.ctl.Restarting? && s.ctl.i >= |s.threads|
       case Change(_, _) => s.ctl.Free? && th.pc.Outside? && !th.suspend
       case Deliver => th.suspend && th.pc.Outside?
       case Ignore => th.restart && th.pc.Outside?
       case ReadCount => th.pc.Entered?
       case TestDuplicate => th.pc.Counted?
       case Post => th.pc.Posting?
       case Record => th.pc.Recording?
       case Restarted => th.pc.Suspended? && th.restart
       case Spurious => th.pc.Suspended?
       case Look => th.pc.Looking?
       case Compare => th.pc.Comparing?
  }

  function Set(s: State, t: nat, th: Thread): State
    requires t < |s.threads|
  {
    s.(threads := s.threads[t := th])
  }

  ghost function Do(s: State, t: nat, a: Action): State
    requires Enabled(s, t, a)
  {
    var th := s.threads[t];
    match a
    case Begin(self) =>
      s.(stopCount := s.stopCount + 1, ctl := Raised, self := self, signalled := {}, posts := multiset{})
    case Raise => s.(worldStopped := true, ctl := Signalling(0, 0))
    case Signal =>
      var i := s.ctl.i;
      if Skips(s, i) || s.threads[i].status.Vanished? then
        s.(ctl := Signalling(i + 1, s.ctl.n))
      else
        Set(s, i, s.threads[i].(suspend := true)).(ctl := Signalling(i + 1, s.ctl.n + 1),
          signalled := s.signalled + {i})
    case SignalsSent => s.(ctl := Awaiting(0, s.ctl.n))
    case Await => s.(sem := s.sem - 1, ctl := Awaiting(s.ctl.i + 1, s.ctl.n))
    case AllAwaited => s.(ctl := Stopped)
    case Clear => s.(worldStopped := false, ctl := Restarting(0))
    case Restart =>
      var i := s.ctl.i;
      var p := s.threads[i];
      if i == s.self || p.status.Finished? || p.status.Blocked? || p.status.Vanished? then
        s.(ctl := Restarting(i + 1))
      else
        Set(s, i, p.(restart := true)).(ctl := Restarting(i + 1))
    case Release => s.(ctl := Free)
    case Change(status, replaced) => Set(s, t, th.(status := status, last := if replaced then 0 else th.last))
    case Deliver => Set(s, t, th.(suspend := false, pc := Entered))
    case Ignore => Set(s, t, th.(restart := false))
    case ReadCount => Set(s, t, th.(pc := Counted(s.stopCount)))
    case TestDuplicate => Set(s, t, th.(pc := if th.last == th.pc.my then Outside else Posting(th.pc.my)))
    case Post =>
      Set(s, t, th.(pc := Recording(th.pc.my))).(sem := s.sem + 1, posts := s.posts + multiset{t})
    case Record => Set(s, t, th.(last := th.pc.my, pc := Suspended(th.pc.my)))
    case Restarted => Set(s, t, th.(restart := false, pc := Looking(th.pc.my)))
    case Spurious => Set(s, t, th.(pc := Looking(th.pc.my)))
    case Look => Set(s, t, th.(pc := if s.worldStopped then Comparing(th.pc.my) else Outside))
    case Compare => Set(s, t, th.(pc := if s.stopCount == th.pc.my then Looking(th.pc.my) else Outside))
  }

  ghost predicate Init(s: State) {
    && s.stopCount == 0 && !s.worldStopped && s.sem == 0 && s.ctl.Free?
    && s.signalled == {} && s.posts == multiset{}
    && forall t :: 0 <= t < |s.threads| ==>
         var th := s.threads[t]; !th.suspend && !th.restart && th.last == 0 && th.pc.Outside?
  }

  // ---- Invariants ----

  /** From its post to its return from the handler. */
  predicate Posted(pc: Pc) {
    pc.Recording? || pc.Suspended? || pc.Looking? || pc.Comparing?
  }

  /** In the handler, before its post. */
  predicate Early(pc: Pc) {
    pc.Entered? || pc.Counted? || pc.Posting?
  }

  /** Thread t was signalled in this round and has yet to post. */
  predicate Due(s: State, t: nat) {
    t in s.signalled && s.posts[t] == 0 && s.ctl.Halting()
  }

  /** The restart signal for a thread in the handler has yet to be sent. */
  predicate RestartAhead(s: State, t: nat, my: nat) {
    my == s.stopCount && (s.ctl.Halting() || s.ctl.Stopped? || (s.ctl.Restarting? && s.ctl.i <= t))
  }

  ghost predicate ThreadOk(s: State, t: nat)
    requires t < |s.threads|
  {
    var th := s.threads[t];
    && th.last <= s.stopCount && (!s.ctl.Free? && th.last == s.stopCount ==> s.posts[t] == 1)
    && s.posts[t] <= 1 && (s.posts[t] == 1 ==> t in s.signalled)
    && (th.suspend ==> Due(s, t) && (th.pc.Outside? || (Posted(th.pc) && th.pc.my < s.stopCount)))
    && (Early(th.pc) ==> Due(s, t) && !th.suspend)
    && (th.pc.Counted? || th.pc.Posting? ==> th.pc.my == s.stopCount)
    && (Posted(th.pc) ==> th.pc.my <= s.stopCount && (th.pc.my == s.stopCount ==> s.posts[t] == 1))
    && (Posted(th.pc) && !th.pc.Recording? ==> th.last == th.pc.my)
    && (Due(s, t) ==> th.suspend || Early(th.pc))
    && (s.posts[t] == 1 && (s.ctl.Halting() || s.ctl.Stopped?) ==> Posted(th.pc) && th.pc.my == s.stopCount)
    && (th.pc.Recording? || th.pc.Suspended? ==> th.restart || RestartAhead(s, t, th.pc.my))
    && (t in s.signalled && !s.ctl.Free? ==> th.status.Running? && t != s.self)
  }

  /** Thread t has to be stopped. */
  ghost predicate ToStop(s: State, t: nat) {
    t < |s.threads| && t != s.self && s.threads[t].status.Running?
  }

  /** The first i threads have been signalled as far as they have to be stopped. */
  ghost predicate Sent(s: State, i: nat) {
    && (forall t :: t in s.signalled ==> t < i <= |s.threads|)
    && forall t: nat {:trigger ToStop(s, t)} :: ToStop(s, t) && t < i ==> t in s.signalled
  }

  /** Signals sent, posts and waits balance. */
  ghost predicate Balanced(s: State) {
    match s.ctl
    case Free => s.sem == 0
    case Raised => s.sem == 0 && s.posts == multiset{} && s.signalled == {}
    case Signalling(i, n) => i <= |s.threads| && Sent(s, i) && n == |s.signalled| && s.sem == |s.posts|
    case Awaiting(i, n) => Sent(s, |s.threads|) && n == |s.signalled| && s.sem + i == |s.posts|
    case Stopped => Sent(s, |s.threads|) && s.sem == 0 && |s.posts| == |s.signalled|
    case Restarting(i) => i <= |s.threads| && s.sem == 0 && |s.posts| == |s.signalled|
  }

  ghost predicate Inv(s: State) {
    && (s.worldStopped <==> s.ctl.Halting() || s.ctl.Stopped?)
    && (!s.ctl.Free? ==> s.self < |s.threads|)
    && (forall t :: t in s.posts ==> t < |s.threads|)
    && Balanced(s)
    && forall t: nat {:trigger ThreadOk(s, t)} :: t < |s.threads| ==> ThreadOk(s, t)
  }

  lemma InitInv(s: State)
    requires Init(s)
    ensures Inv(s)
  {
  }

  /** Each signalled thread posts at most once, so no more posts than signals. */
  lemma PostsAreSignals(s: State)
    requires Inv(s)
    ensures s.posts <= multiset(s.signalled) && |s.posts| <= |s.signalled|
    ensures |s.posts| == |s.signalled| ==> s.posts == multiset(s.signalled)
  {
    forall t | t in s.posts
      ensures t in s.signalled && s.posts[t] == 1
    {
      assert ThreadOk(s, t);
    }
    AtMostOnce(s.posts, s.signalled);
  }

  lemma {:induction false} AtMostOnce(p: multiset<nat>, q: set<nat>)
    requires forall t :: t in p ==> t in q && p[t] == 1
    ensures p <= multiset(q) && |p| <= |q| && (|p| == |q| ==> p == multiset(q))
  {
    if q != {} {
      var t :| t in q;
      assert multiset(q) == multiset(q - {t}) + multiset{t};
      if t in p {
        var p' := p - multiset{t};
        AtMostOnce(p', q - {t});
        assert p == p' + multiset{t};
      } else {
        AtMostOnce(p, q - {t});
      }
    } else {
      assert p == multiset{};
    }
  }

  // ---- Every step keeps the invariant ----

  /** Steps of one thread that change nothing but that thread. */
  lemma Assemble(s: State, s': State, t: nat)
    requires Inv(s) && t < |s.threads| && |s'.threads| == |s.threads|
    requires forall u :: 0 <= u < |s.threads| && u != t ==> s'.threads[u] == s.threads[u]
    requires s' == s.(threads := s'.threads) && s'.threads[t].status == s.threads[t].status
    requires ThreadOk(s', t)
    ensures Inv(s')
  {
    forall u: nat | u < |s'.threads|
      ensures ThreadOk(s', u)
    {
      assert ThreadOk(s, u);
    }
    assert forall u: nat {:trigger ToStop(s', u)} :: ToStop(s', u) ==> ToStop(s, u);
  }

  lemma KeepsThread(s: State, t: nat, a: Action)
    requires Inv(s) && Enabled(s, t, a)
    requires a.Deliver? || a.Ignore? || a.ReadCount? || a.TestDuplicate? || a.Record? || a.Restarted? || a.Spurious?
             || a.Look? || a.Compare?
    ensures Inv(Do(s, t, a))
  {
    assert ThreadOk(s, t);
    Assemble(s, Do(s, t, a), t);
  }

  lemma KeepsPost(s: State, t: nat)
    requires Inv(s) && Enabled(s, t, Post)
    ensures Inv(Do(s, t, Post))
  {
    var s' := Do(s, t, Post);
    assert ThreadOk(s, t);
    forall u: nat | u < |s'.threads|
      ensures ThreadOk(s', u)
    {
      assert ThreadOk(s, u);
    }
    assert forall u: nat {:trigger ToStop(s', u)} :: ToStop(s', u) ==> ToStop(s, u);
  }

  lemma KeepsBegin(s: State, t: nat)
    requires Inv(s) && Enabled(s, t, Begin(t))
    ensures Inv(Do(s, t, Begin(t)))
  {
    var s' := Do(s, t, Begin(t));
    forall u: nat | u < |s'.threads|
      ensures ThreadOk(s', u)
    {
      assert ThreadOk(s, u);
    }
  }

  lemma KeepsSignal(s: State, t: nat)
    requires Inv(s) && Enabled(s, t, Signal)
    ensures Inv(Do(s, t, Signal))
  {
    var s' := Do(s, t, Signal);
    assert ThreadOk(s, s.ctl.i);
    forall u: nat | u < |s'.threads|
      ensures ThreadOk(s', u)
    {
      assert ThreadOk(s, u);
    }
    forall u: nat | ToStop(s', u) && u < s.ctl.i + 1
      ensures u in s'.signalled
    {
      assert ToStop(s, u);
    }
  }

  lemma KeepsAllAwaited(s: State, t: nat)
    requires Inv(s) && Enabled(s, t, AllAwaited)
    ensures Inv(Do(s, t, AllAwaited))
  {
    var s' := Do(s, t, AllAwaited);
    PostsAreSignals(s);
    forall u: nat | u < |s'.threads|
      ensures ThreadOk(s', u)
    {
      assert ThreadOk(s, u);
    }
    assert forall u: nat {:trigger ToStop(s', u)} :: ToStop(s', u) ==> ToStop(s, u);
  }

  lemma KeepsControl(s: State, t: nat, a: Action)
    requires Inv(s) && Enabled(s, t, a)
    requires a.Raise? || a.SignalsSent? || a.Await? || a.Clear? || a.Restart? || a.Release? || a.Change?
    ensures Inv(Do(s, t, a))
  {
    var s' := Do(s, t, a);
    PostsAreSignals(s);
    forall u: nat | u < |s'.threads|
      ensures ThreadOk(s', u)
    {
      assert ThreadOk(s, u);
    }
    assert forall u: nat {:trigger ToStop(s', u)} :: ToStop(s', u) && !a.Change? ==> ToStop(s, u);
  }

  lemma KeepsInv(s: State, t: nat, a: Action)
    requires Inv(s) && Enabled(s, t, a)
    ensures Inv(Do(s, t, a))
  {
    match a
    case Begin(_) => KeepsBegin(s, t);
    case Signal => KeepsSignal(s, t);
    case AllAwaited => KeepsAllAwaited(s, t);
    case Post => KeepsPost(s, t);
    case Raise | SignalsSent | Await | Clear | Restart | Release | Change(_, _) => KeepsControl(s, t, a);
    case _ => KeepsThread(s, t, a);
  }

  // ---- Runs ----

  /** A run: each state follows from the one before by a step of some thread, whichever. */
  ghost predicate Run(run: seq<State>) {
    && |run| >= 1
    && (|run| > 1 ==>
          && Run(run[..|run|-1])
          && Step(run[|run|-2], run[|run|-1]))
  }

  ghost predicate Step(s: State, s': State) {
    exists t: nat, a {:trigger Enabled(s, t, a)} :: Enabled(s, t, a) && s' == Do(s, t, a)
  }

  lemma {:induction false} RunIsSafe(run: seq<State>)
    requires Run(run) && Init(run[0])
    ensures Inv(run[|run|-1])
  {
    if |run| == 1 {
      InitInv(run[0]);
    } else {
      RunIsSafe(run[..|run|-1]);
      var s, s' := run[|run|-2], run[|run|-1];
      var t: nat, a :| Enabled(s, t, a) && s' == Do(s, t, a);
      KeepsInv(s, t, a);
    }
  }

  /** Thread t is in the suspend handler for the current GC_stop_count, its stack pointer saved, having posted. */
  predicate Halted(s: State, t: nat) {
    t < |s.threads| && Posted(s.threads[t].pc) && s.threads[t].pc.my == s.stopCount
  }

  /** When GC_stop_world has returned, and until GC_start_world clears the flag, each signalled thread has posted
      exactly once and is in its handler; these are all threads, other than the one that stops the world, that
      could run; and the semaphore is 0 again. */
  lemma WorldIsStopped(run: seq<State>)
    requires Run(run) && Init(run[0]) && run[|run|-1].ctl.Stopped?
    ensures var s := run[|run|-1];
            && s.worldStopped && s.sem == 0 && s.posts == multiset(s.signalled)
            && (forall t :: t in s.signalled ==> Halted(s, t))
            && forall t: nat :: ToStop(s, t) <==> t in s.signalled
  {
    var s := run[|run|-1];
    RunIsSafe(run);
    PostsAreSignals(s);
    forall t | t in s.signalled
      ensures Halted(s, t) && ToStop(s, t)
    {
      assert ThreadOk(s, t);
    }
  }

  /** While the world is stopped every step leaves every signalled thread where it was stopped. */
  lemma NoneLeaves(s: State, t: nat, a: Action, u: nat)
    requires Inv(s) && s.ctl.Stopped? && Enabled(s, t, a) && u in s.signalled
    ensures var s' := Do(s, t, a);
            && u < |s.threads| && Halted(s, u) && Halted(s', u)
            && s'.signalled == s.signalled && s'.stopCount == s.stopCount
            && (s'.ctl.Stopped? || (a.Clear? && !s'.worldStopped))
  {
    PostsAreSignals(s);
    assert ThreadOk(s, u);
    KeepsInv(s, t, a);
    assert ThreadOk(Do(s, t, a), u);
  }

  /** The semaphore is 0 except while acknowledgements are collected. */
  lemma SemaphoreIsZero(run: seq<State>)
    requires Run(run) && Init(run[0]) && !run[|run|-1].ctl.Halting()
    ensures run[|run|-1].sem == 0
  {
    RunIsSafe(run);
  }

  /** No suspend signal is a duplicate, and GC_suspend_all skips no thread as already stopped. */
  lemma NoDuplicates(s: State, t: nat)
    requires Inv(s) && t < |s.threads|
    ensures s.threads[t].pc.Counted? ==> s.threads[t].last != s.threads[t].pc.my
    ensures s.ctl.Signalling? && s.ctl.i <= t ==> s.threads[t].last != s.stopCount
  {
    assert ThreadOk(s, t);
  }

  // ---- The wait for acknowledgements ends ----

  /** How many steps of its own a signalled thread takes at most before it posts. */
  function Rank(th: Thread): nat {
    (match th.pc
     case Recording(_) => 12
     case Suspended(_) => 11
     case Looking(_) => 10
     case Comparing(_) => 9
     case Outside => 7
     case Entered => 4
     case Counted(_) => 3
     case Posting(_) => 2)
    + (if th.restart then 1 else 0)
  }

  /** The step that a thread that has yet to post can take, even if it is late in the handler of an earlier
      round. */
  function NextStep(th: Thread): Action {
    match th.pc
    case Outside => Deliver
    case Entered => ReadCount
    case Counted(_) => TestDuplicate
    case Posting(_) => Post
    case Recording(_) => Record
    case Suspended(_) => Restarted
    case Looking(_) => Look
    case Comparing(_) => Compare
  }

  lemma DueCanStep(s: State, t: nat)
    requires Inv(s) && Due(s, t)
    ensures t < |s.threads| && Enabled(s, t, NextStep(s.threads[t]))
  {
    SignalledIsThread(s, t);
    assert ThreadOk(s, t);
  }

  lemma SignalledIsThread(s: State, t: nat)
    requires Inv(s) && t in s.signalled && s.ctl.Halting()
    ensures t < |s.threads|
  {
  }

  /** Each step of a thread that has yet to post brings it closer, and no step of another takes it back. */
  lemma DueComesCloser(s: State, t: nat, a: Action, u: nat)
    requires Inv(s) && Due(s, u) && Enabled(s, t, a)
    ensures u < |s.threads| && |Do(s, t, a).threads| == |s.threads|
    ensures var s' := Do(s, t, a);
            || (Due(s', u) && Rank(s'.threads[u]) <= Rank(s.threads[u])
                && (t == u && Moves(a) ==> Rank(s'.threads[u]) < Rank(s.threads[u])))
            || (t == u && a.Post? && s'.sem == s.sem + 1)
  {
    SignalledIsThread(s, u);
    PostsAreSignals(s);
    assert ThreadOk(s, u);
  }

  /** Steps of the suspend handler and signal arrivals. */
  predicate Moves(a: Action) {
    a.Deliver? || a.Ignore? || a.ReadCount? || a.TestDuplicate? || a.Post? || a.Record? || a.Restarted? || a.Spurious?
    || a.Look? || a.Compare?
  }

  /** As long as the wait for acknowledgements has to go on, one is there or some thread has yet to post, and can
      take a step towards it. */
  lemma WaitIsNotInVain(s: State) returns (t: nat)
    requires Inv(s) && s.ctl.Awaiting? && s.ctl.i < s.ctl.n && s.sem == 0
    ensures Due(s, t) && t < |s.threads| && Enabled(s, t, NextStep(s.threads[t])) && Moves(NextStep(s.threads[t]))
  {
    if forall u :: u in s.signalled ==> u in s.posts {
      EachPosted(s.posts, s.signalled);
    }
    t :| t in s.signalled && t !in s.posts;
    DueCanStep(s, t);
  }

  lemma {:induction false} EachPosted(p: multiset<nat>, q: set<nat>)
    requires forall t :: t in q ==> t in p
    ensures |q| <= |p|
  {
    if q != {} {
      var t :| t in q;
      EachPosted(p - multiset{t}, q - {t});
      assert p == (p - multiset{t}) + multiset{t};
    }
  }

  // ---- Stopped threads leave their handlers ----

  /** Thread t is in its handler behind its post, and may leave it: the world has been started again, or it is late from
      an earlier round. */
  predicate Released(s: State, t: nat) {
    t < |s.threads| && Posted(s.threads[t].pc) && (!s.worldStopped || s.threads[t].pc.my < s.stopCount)
  }

  /** How many steps of its own it takes at most before it has left. */
  function LeaveRank(s: State, t: nat): nat
    requires Released(s, t)
  {
    match s.threads[t].pc
    case Recording(_) => 6
    case Suspended(_) => 5
    case Comparing(my) => if my < s.stopCount then 1 else 4
    case _ => if s.threads[t].pc.my < s.stopCount then 2 else 3
  }

  /** Each step of a released thread brings it closer to leaving its handler, or takes it out; no step of another sets
      it back, not even if the next round begins meanwhile. */
  lemma ReleasedLeaves(s: State, t: nat, a: Action, u: nat)
    requires Inv(s) && Released(s, u) && Enabled(s, t, a)
    ensures var s' := Do(s, t, a);
            || (t == u && u < |s'.threads| && s'.threads[u].pc.Outside?)
            || (Released(s', u) && LeaveRank(s', u) <= LeaveRank(s, u)
                && (t == u && Moves(a) ==> LeaveRank(s', u) < LeaveRank(s, u)))
  {
    assert ThreadOk(s, u);
    if t == u && Moves(a) {
      ReleasedMoves(s, u, a);
    } else {
      ReleasedStays(s, t, a, u);
    }
  }

  lemma ReleasedMoves(s: State, u: nat, a: Action)
    requires Released(s, u) && ThreadOk(s, u) && Enabled(s, u, a) && Moves(a)
    ensures var s' := Do(s, u, a);
            || (u < |s'.threads| && s'.threads[u].pc.Outside?)
            || (Released(s', u) && LeaveRank(s', u) < LeaveRank(s, u))
  {
  }

  lemma ReleasedStays(s: State, t: nat, a: Action, u: nat)
    requires Inv(s) && Released(s, u) && ThreadOk(s, u) && Enabled(s, t, a) && !(t == u && Moves(a))
    ensures var s' := Do(s, t, a); Released(s', u) && LeaveRank(s', u) <= LeaveRank(s, u)
  {
    var s' := Do(s, t, a);
    OthersPc(s, t, a, u);
    assert a.Raise? ==> s.threads[u].pc.my < s.stopCount;
  }

  /** The position of a thread in its handler changes by its own steps only. */
  lemma OthersPc(s: State, t: nat, a: Action, u: nat)
    requires Enabled(s, t, a) && u < |s.threads| && !(t == u && Moves(a))
    ensures |Do(s, t, a).threads| == |s.threads| && Do(s, t, a).threads[u].pc == s.threads[u].pc
  {
  }

  /** The thread that stops or starts the world can always go on, but for the wait for acknowledgements. */
  lemma ControlCanStep(s: State) returns (a: Action)
    requires Inv(s) && !s.ctl.Free? && !(s.ctl.Awaiting? && s.ctl.i < s.ctl.n && s.sem == 0)
    ensures Enabled(s, s.self, a) && !Moves(a) && !a.Begin? && !a.Change?
  {
    a := match s.ctl
         case Raised => Raise
         case Signalling(i, _) => if i < |s.threads| then Signal else SignalsSent
         case Awaiting(i, n) => if i < n then Await else AllAwaited
         case Stopped => Clear
         case Restarting(i) => if i < |s.threads| then Restart else Release
         case Free => Raise;
  }

  /** A released thread that waits for its restart signal has been sent it, or the thread that starts the world has
      still to come to it. */
  lemma ReleasedIsRestarted(s: State, t: nat)
    requires Inv(s) && Released(s, t) && (s.threads[t].pc.Recording? || s.threads[t].pc.Suspended?)
    ensures s.threads[t].restart || (s.ctl.Restarting? && s.ctl.i <= t)
  {
    assert ThreadOk(s, t);
  }

  /** Between rounds every thread that is still in its handler can take its next step out of it. */
  lemma ReleasedCanStep(s: State, t: nat)
    requires Inv(s) && s.ctl.Free? && t < |s.threads| && Posted(s.threads[t].pc)
    ensures Released(s, t) && Enabled(s, t, NextStep(s.threads[t])) && Moves(NextStep(s.threads[t]))
    ensures s.threads[t].pc.Recording? || s.threads[t].pc.Suspended? ==> s.threads[t].restart
  {
    assert ThreadOk(s, t);
  }

  /** Between rounds no thread is before its post, so that one that is not in its handler behind it is outside. */
  lemma FreeOrPosted(s: State, t: nat)
    requires Inv(s) && s.ctl.Free? && t < |s.threads|
    ensures s.threads[t].pc.Outside? || Posted(s.threads[t].pc)
    ensures !s.threads[t].suspend
  {
    assert ThreadOk(s, t);
  }

  /** A thread that waits in its handler has recorded the GC_stop_count for which it posted, so that a second signal for
      it would be recognised. */
  lemma StopIsRecorded(s: State, t: nat)
    requires Inv(s) && t < |s.threads| && Posted(s.threads[t].pc) && !s.threads[t].pc.Recording?
    ensures s.threads[t].last == s.threads[t].pc.my
  {
    assert ThreadOk(s, t);
  }

  // ---- Signals are not queued, and each is taken once ----

  ghost function PendingRestarts(threads: seq<Thread>): set<nat> {
    set t: nat | t < |threads| && threads[t].restart
  }

  ghost function PendingSuspends(threads: seq<Thread>): set<nat> {
    set t: nat | t < |threads| && threads[t].suspend
  }

  /** A restart signal leaves thread t by arriving there, whether it is waited for or ignored, and in no other way; only
      the thread that starts the world sends one. */
  lemma RestartsBalance(s: State, t: nat, a: Action)
    requires Enabled(s, t, a)
    ensures var before, after := PendingRestarts(s.threads), PendingRestarts(Do(s, t, a).threads);
            && (a.Ignore? ==> t in before && after == before - {t})
            && (a.Restarted? ==> t in before && after == before - {t})
            && (a.Restart? ==> before <= after <= before + {s.ctl.i})
            && (!a.Ignore? && !a.Restarted? && !a.Restart? ==> after == before)
  {
  }

  /** A suspend signal leaves thread t when its handler is entered; only the thread that stops the world sends one. */
  lemma SuspendsBalance(s: State, t: nat, a: Action)
    requires Enabled(s, t, a)
    ensures var before, after := PendingSuspends(s.threads), PendingSuspends(Do(s, t, a).threads);
            && (a.Deliver? ==> t in before && after == before - {t})
            && (a.Signal? ==> before <= after <= before + {s.ctl.i})
            && (!a.Deliver? && !a.Signal? ==> after == before)
  {
  }

  // ---- Rounds end ----

  lemma SmallSet(q: set<nat>, n: nat)
    requires forall t :: t in q ==> t < n
    ensures |q| <= n
  {
    if n == 0 {
      assert q == {};
    } else {
      SmallSet(q - {n - 1}, n - 1);
      assert q <= (q - {n - 1}) + {n - 1};
      if n - 1 in q {
        assert q == (q - {n - 1}) + {n - 1};
      } else {
        assert q == q - {n - 1};
      }
    }
  }

  /** How many steps of the thread that stops and starts the world the round can still take. */
  function ControlRank(s: State): int {
    var n := |s.threads|;
    match s.ctl
    case Free => 0
    case Restarting(i) => n - i + 1
    case Stopped => n + 2
    case Awaiting(i, sent) => n + sent - i + 3
    case Signalling(i, _) => 3 * n - i + 4
    case Raised => 3 * n + 5
  }

  /** Each step of that thread brings the end of the round closer, and no step of a handler, nor the arrival of a
      signal, sets it back; a round begins with a new GC_stop_count. */
  lemma ControlComesCloser(s: State, t: nat, a: Action)
    requires Inv(s) && Enabled(s, t, a)
    ensures ControlRank(s) >= 0 && (ControlRank(s) == 0 <==> s.ctl.Free?)
    ensures var s' := Do(s, t, a);
            && (Moves(a) ==> ControlRank(s') == ControlRank(s))
            && (!s.ctl.Free? && !Moves(a) ==> ControlRank(s') < ControlRank(s) && s'.stopCount == s.stopCount)
            && (a.Begin? ==> ControlRank(s') > 0 && s'.self == t && s'.stopCount == s.stopCount + 1)
  {
    PostsAreSignals(s);
    if s.ctl.Signalling? || s.ctl.Awaiting? {
      SmallSet(s.signalled, |s.threads|);
    }
  }
}
