/** When the order of the finalizer table matters: with registrations whose mark procedure pushes more than marking
    the object would lead to, which only GC_ignore_self_finalize_mark_proc (boehmgc/src/finalize.c) can do. */
module FinalizationOrder {
  import PG = PointerGraph
  import opened Finalization

  // ---- What a set of registrations finds ----

  ghost function Unmarked(t: Task): set<nat> {
    t.finalizers.Keys - t.marked
  }

  /** What the mark procedures of the unmarked registered objects in R push. */
  ghost function PushesOf(t: Task, R: set<nat>): set<nat>
    requires t.Sound()
  {
    set k, q | k in R && k in t.finalizers && k !in t.marked && q in Pushes(t.graph, t.finalizers[k].proc, k) :: q
  }

  /** What is marked when just the mark procedures of the objects in R have been run. */
  ghost function Found(t: Task, R: set<nat>): set<nat>
    requires t.Sound()
  {
    PG.Reach(t.graph, t.marked + PushesOf(t, R))
  }

  lemma FoundHolds(t: Task, R: set<nat>)
    requires t.Sound()
    ensures t.marked + PushesOf(t, R) <= Found(t, R) <= t.graph.succ.Keys && PG.Closed(t.graph, Found(t, R))
  {
    PG.ReachHolds(t.graph, t.marked + PushesOf(t, R));
  }

  lemma FoundIsLeast(t: Task, R: set<nat>, m: set<nat>)
    requires t.Sound() && t.marked <= m && PushesOf(t, R) <= m && PG.Closed(t.graph, m)
    ensures Found(t, R) <= m
  {
    PG.ReachIsLeast(t.graph, t.marked + PushesOf(t, R), m);
  }

  lemma FoundByNone(t: Task)
    requires t.Sound()
    ensures Found(t, {}) == t.marked
  {
    FoundHolds(t, {});
    FoundIsLeast(t, {}, t.marked);
  }

  lemma FoundByAll(t: Task)
    requires t.Sound()
    ensures PushesOf(t, Unmarked(t)) == t.AllPushes() && Found(t, Unmarked(t)) == t.Needed()
  {
    assert PushesOf(t, Unmarked(t)) == t.AllPushes();
  }

  lemma PushesAre(t: Task, k: nat)
    requires t.Sound() && k in Unmarked(t)
    ensures PushesOf(t, {k}) == Pushes(t.graph, t.finalizers[k].proc, k)
  {
  }

  lemma PushesOfBoth(t: Task, R: set<nat>, S: set<nat>)
    requires t.Sound()
    ensures PushesOf(t, R + S) == PushesOf(t, R) + PushesOf(t, S)
  {
  }

  lemma FoundGrows(t: Task, R: set<nat>, S: set<nat>)
    requires t.Sound()
    ensures Found(t, R) <= Found(t, R + S)
  {
    PushesOfBoth(t, R, S);
    FoundHolds(t, R + S);
    FoundIsLeast(t, R, Found(t, R + S));
  }

  /** One more registration. */
  lemma FoundStep(t: Task, R: set<nat>, k: nat)
    requires t.Sound() && k in Unmarked(t)
    ensures PG.Reach(t.graph, Found(t, R) + Pushes(t.graph, t.finalizers[k].proc, k)) == Found(t, R + {k})
  {
    FoundHolds(t, R);
    FoundHolds(t, {k});
    PushesAre(t, k);
    PushesOfBoth(t, R, {k});
    PG.ReachAgain(t.graph, t.marked + PushesOf(t, R), PushesOf(t, {k}));
    assert t.marked + PushesOf(t, R) + PushesOf(t, {k}) == t.marked + PushesOf(t, R + {k});
  }

  // ---- Which mark procedures are run ----

  ghost function Items(list: seq<nat>): set<nat> {
    set k | k in list
  }

  lemma ItemsOf(list: seq<nat>, k: nat)
    ensures Items(list + [k]) == Items(list) + {k}
  {
  }

  /** Unmarked registered objects, each once, none of which those before it lead to: in this order, the mark procedure
      of each is run. */
  ghost predicate AllRun(t: Task, list: seq<nat>)
    requires t.Sound()
    decreases |list|
  {
    list != [] ==>
      var n := |list| - 1;
      AllRun(t, list[..n]) && list[n] in t.finalizers && list[n] !in list[..n] && list[n] !in Found(t, Items(list[..n]))
  }

  /** They lead to all other unmarked registered objects, so that no other mark procedure is run behind them. */
  ghost predicate NoneElse(t: Task, list: seq<nat>)
    requires t.Sound()
  {
    Unmarked(t) - Items(list) <= Found(t, Items(list))
  }

  lemma AllRunStep(t: Task, list: seq<nat>, k: nat)
    requires t.Sound() && AllRun(t, list) && k in t.finalizers && k !in list && k !in Found(t, Items(list))
    ensures AllRun(t, list + [k])
  {
    assert (list + [k])[..|list|] == list;
  }

  lemma {:induction false} RunAreUnmarked(t: Task, list: seq<nat>)
    requires t.Sound() && AllRun(t, list)
    ensures Items(list) <= Unmarked(t) && |Items(list)| == |list|
    ensures forall i :: 0 <= i < |list| ==> list[i] in t.finalizers
    decreases |list|
  {
    if list != [] {
      var n := |list| - 1;
      RunAreUnmarked(t, list[..n]);
      assert list == list[..n] + [list[n]];
      ItemsOf(list[..n], list[n]);
      FoundHolds(t, Items(list[..n]));
    }
  }

  /** What is known of the objects behind which marking has come to m, if the mark procedures of those in R were run. */
  ghost predicate RunOrReached(t: Task, order: seq<nat>, R: set<nat>, m: set<nat>) {
    forall i {:trigger order[i]} :: 0 <= i < |order| ==> order[i] in R || order[i] in m
  }

  /** Marking in any order amounts to running the mark procedures of a list of objects all of which are run and that
      lead to all others. */
  lemma {:induction false} WhatIsRun(t: Task, order: seq<nat>) returns (list: seq<nat>)
    requires t.Sound() && Listed(t.graph, t.finalizers, order)
    ensures AllRun(t, list) && MarkInOrder(t.graph, t.finalizers, order, t.marked) == Found(t, Items(list))
    ensures RunOrReached(t, order, Items(list), Found(t, Items(list)))
    decreases |order|
  {
    if order == [] {
      list := [];
      assert Items([]) == {};
      FoundByNone(t);
    } else {
      var n := |order| - 1;
      var before := WhatIsRun(t, order[..n]);
      list := OneTurn(t, order[..n], before, order[n]);
      assert order == order[..n] + [order[n]];
    }
  }

  lemma OneTurn(t: Task, order: seq<nat>, before: seq<nat>, k: nat) returns (list: seq<nat>)
    requires t.Sound() && AllRun(t, before) && k in t.finalizers
    requires RunOrReached(t, order, Items(before), Found(t, Items(before)))
    ensures var m := Found(t, Items(before));
            Found(t, Items(list)) ==
            if k in m then m else PG.Reach(t.graph, m + Pushes(t.graph, t.finalizers[k].proc, k))
    ensures AllRun(t, list) && RunOrReached(t, order + [k], Items(list), Found(t, Items(list)))
  {
    list := before;
    FoundHolds(t, Items(before));
    if k !in Found(t, Items(before)) {
      FoundStep(t, Items(before), k);
      if k in before {
        assert Items(before) + {k} == Items(before);
      } else {
        list := before + [k];
        AllRunStep(t, before, k);
        ItemsOf(before, k);
        RunToo(t, order, Items(before), k);
      }
    }
  }

  lemma RunToo(t: Task, order: seq<nat>, R: set<nat>, k: nat)
    requires t.Sound() && RunOrReached(t, order, R, Found(t, R))
    ensures RunOrReached(t, order + [k], R + {k}, Found(t, R + {k}))
  {
    FoundGrows(t, R, {k});
  }

  lemma NothingElseIsRun(t: Task, order: seq<nat>, list: seq<nat>)
    requires t.Sound() && t.Lists(order) && RunOrReached(t, order, Items(list), Found(t, Items(list)))
    ensures NoneElse(t, list)
  {
    forall k | k in Unmarked(t) - Items(list)
      ensures k in Found(t, Items(list))
    {
      assert k in order;
      var i :| 0 <= i < |order| && order[i] == k;
    }
  }

  /** Conversely, marking in the order of such a list runs them all. */
  lemma {:induction false} RunInOrder(t: Task, list: seq<nat>)
    requires t.Sound() && AllRun(t, list)
    ensures Listed(t.graph, t.finalizers, list)
    ensures MarkInOrder(t.graph, t.finalizers, list, t.marked) == Found(t, Items(list))
    decreases |list|
  {
    RunAreUnmarked(t, list);
    if list == [] {
      assert Items([]) == {};
      FoundByNone(t);
    } else {
      var n := |list| - 1;
      RunInOrder(t, list[..n]);
      FoundStep(t, Items(list[..n]), list[n]);
      assert list == list[..n] + [list[n]];
      ItemsOf(list[..n], list[n]);
    }
  }

  /** What the objects listed from position j on that are not in m push is in a bound. */
  ghost predicate PushWithin(g: PG.Graph, finalizers: map<nat, Finalizer>, order: seq<nat>, j: nat, m: set<nat>,
                             bound: set<nat>)
    requires g.WellFormed() && Listed(g, finalizers, order)
  {
    forall i {:trigger order[i]} :: j <= i < |order| && order[i] !in m ==>
      Pushes(g, finalizers[order[i]].proc, order[i]) <= bound
  }

  /** Going on behind the first j objects of the order adds marks, and stays within a closed set that holds what the
      objects not yet marked push. */
  lemma {:induction false} GoesOn(g: PG.Graph, finalizers: map<nat, Finalizer>, order: seq<nat>, j: nat,
                                  marked: set<nat>, m: set<nat>, bound: set<nat>)
    requires g.WellFormed() && Listed(g, finalizers, order) && j <= |order|
    requires m == MarkInOrder(g, finalizers, order[..j], marked) && PG.Closed(g, m)
    requires m <= bound <= g.succ.Keys && PG.Closed(g, bound) && PushWithin(g, finalizers, order, j, m, bound)
    ensures Amid(g, m, MarkInOrder(g, finalizers, order, marked), bound)
    decreases |order|
  {
    if j == |order| {
      assert order[..j] == order;
    } else {
      var n := |order| - 1;
      assert order[..n][..j] == order[..j];
      GoesOn(g, finalizers, order[..n], j, marked, m, bound);
      LastTurn(g, finalizers, order, marked, m, bound);
    }
  }

  ghost predicate Amid(g: PG.Graph, low: set<nat>, m: set<nat>, high: set<nat>) {
    low <= m <= high && PG.Closed(g, m)
  }

  lemma LastTurn(g: PG.Graph, finalizers: map<nat, Finalizer>, order: seq<nat>, marked: set<nat>, m: set<nat>,
                 bound: set<nat>)
    requires g.WellFormed() && Listed(g, finalizers, order) && order != []
    requires var n := |order| - 1;
             && Amid(g, m, MarkInOrder(g, finalizers, order[..n], marked), bound)
             && (order[n] !in m ==> Pushes(g, finalizers[order[n]].proc, order[n]) <= bound)
    requires bound <= g.succ.Keys && PG.Closed(g, bound)
    ensures Amid(g, m, MarkInOrder(g, finalizers, order, marked), bound)
  {
    var k := order[|order| - 1];
    OneFurther(g, m, MarkInOrder(g, finalizers, order[..|order| - 1], marked), bound, k,
               Pushes(g, finalizers[k].proc, k));
  }

  lemma OneFurther(g: PG.Graph, m: set<nat>, before: set<nat>, bound: set<nat>, k: nat, pushed: set<nat>)
    requires g.WellFormed() && m <= before <= bound <= g.succ.Keys && PG.Closed(g, bound) && PG.Closed(g, before)
    requires k !in m ==> pushed <= bound
    ensures var after := if k in before then before else PG.Reach(g, before + pushed);
            m <= after <= bound && PG.Closed(g, after)
  {
    if k !in before {
      Turn(g, before, pushed, bound);
    }
  }

  lemma Turn(g: PG.Graph, before: set<nat>, pushed: set<nat>, bound: set<nat>)
    requires g.WellFormed() && before + pushed <= bound <= g.succ.Keys && PG.Closed(g, bound)
    ensures before <= PG.Reach(g, before + pushed) <= bound && PG.Closed(g, PG.Reach(g, before + pushed))
  {
    PG.ReachHolds(g, before + pushed);
    PG.ReachIsLeast(g, before + pushed, bound);
  }

  /** The objects of a set, each once. */
  lemma {:induction false} Listing(s: set<nat>) returns (list: seq<nat>)
    ensures |list| == |s| && Items(list) == s
  {
    if s == {} {
      list := [];
    } else {
      var x :| x in s;
      var rest := Listing(s - {x});
      list := rest + [x];
      ItemsOf(rest, x);
      assert s == (s - {x}) + {x};
    }
  }

  /** An order of the table, in which each registration occurs once, that starts with a list of them. */
  lemma StartsWith(t: Task, list: seq<nat>) returns (rest: seq<nat>)
    requires t.Sound() && Items(list) <= t.finalizers.Keys && |Items(list)| == |list|
    ensures Listed(t.graph, t.finalizers, list) && Listed(t.graph, t.finalizers, rest)
    ensures Items(rest) == t.finalizers.Keys - Items(list)
    ensures t.Lists(list + rest) && |list + rest| == |t.finalizers|
  {
    rest := Listing(t.finalizers.Keys - Items(list));
    assert |t.finalizers.Keys - Items(list)| + |Items(list)| == |t.finalizers.Keys| by {
      assert t.finalizers.Keys == (t.finalizers.Keys - Items(list)) + Items(list);
    }
    forall i | 0 <= i < |rest|
      ensures rest[i] in t.finalizers
    {
      assert rest[i] in Items(rest);
    }
    forall i | 0 <= i < |list|
      ensures list[i] in t.finalizers
    {
      assert list[i] in Items(list);
    }
    forall k
      ensures k in list + rest <==> k in t.finalizers
    {
      assert k in list + rest <==> k in Items(list) || k in Items(rest);
    }
  }

  /** An order of the table that starts with such a list finds what the list does, and no more than a closed set that
      holds this and what the objects that the list does not lead to push. */
  lemma GoingOnFrom(t: Task, list: seq<nat>, bound: set<nat>) returns (order: seq<nat>, found: set<nat>)
    requires t.Sound() && AllRun(t, list) && Found(t, Items(list)) <= bound <= t.graph.succ.Keys
    requires PG.Closed(t.graph, bound) && PushesOf(t, Unmarked(t) - Found(t, Items(list))) <= bound
    ensures FoundNeeded(t, order, found) && |order| == |t.finalizers|
    ensures Found(t, Items(list)) <= found <= bound
  {
    RunAreUnmarked(t, list);
    RunInOrder(t, list);
    var rest := StartsWith(t, list);
    order := list + rest;
    FoundHolds(t, Items(list));
    assert order[..|list|] == list;
    OthersPush(t, order, |list|, Found(t, Items(list)), bound);
    GoesOn(t.graph, t.finalizers, order, |list|, t.marked, Found(t, Items(list)), bound);
    found := MarkInOrder(t.graph, t.finalizers, order, t.marked);
  }

  lemma OthersPush(t: Task, order: seq<nat>, j: nat, m: set<nat>, bound: set<nat>)
    requires t.Sound() && Listed(t.graph, t.finalizers, order) && t.marked <= m
    requires PushesOf(t, Unmarked(t) - m) <= bound
    ensures PushWithin(t.graph, t.finalizers, order, j, m, bound)
  {
    forall i | j <= i < |order| && order[i] !in m
      ensures Pushes(t.graph, t.finalizers[order[i]].proc, order[i]) <= bound
    {
      PushedBy(t, Unmarked(t) - m, order[i]);
    }
  }

  lemma PushedBy(t: Task, R: set<nat>, k: nat)
    requires t.Sound() && k in R && k in Unmarked(t)
    ensures Pushes(t.graph, t.finalizers[k].proc, k) <= PushesOf(t, R)
  {
  }

  /** A list of objects all of which are run and that lead to all others is what some order of the table runs. */
  lemma AsOrder(t: Task, list: seq<nat>) returns (order: seq<nat>)
    requires t.Sound() && AllRun(t, list) && NoneElse(t, list)
    ensures FoundNeeded(t, order, Found(t, Items(list))) && |order| == |t.finalizers|
  {
    FoundHolds(t, Items(list));
    PushedByRun(t, Items(list), Unmarked(t) - Found(t, Items(list)));
    var found;
    order, found := GoingOnFrom(t, list, Found(t, Items(list)));
  }

  lemma PushedByRun(t: Task, R: set<nat>, S: set<nat>)
    requires t.Sound() && S <= R
    ensures PushesOf(t, S) <= PushesOf(t, R)
  {
  }

  // ---- When the order matters ----

  /** Some order of the table finds a set exactly if a list of registrations all of which are run, and that lead to
      all others, finds it. */
  lemma FoundInSomeOrder(t: Task, found: set<nat>)
    requires t.Sound()
    ensures (exists order :: FoundNeeded(t, order, found)) <==>
            exists list :: AllRun(t, list) && NoneElse(t, list) && found == Found(t, Items(list))
  {
    if order :| FoundNeeded(t, order, found) {
      var list := WhatIsRun(t, order);
      NothingElseIsRun(t, order, list);
    }
    if list :| AllRun(t, list) && NoneElse(t, list) && found == Found(t, Items(list)) {
      var order := AsOrder(t, list);
    }
  }

  /** Whatever is needed is found in some order: one that starts with a registration that leads to it. */
  lemma FoundSomehow(t: Task, q: nat) returns (order: seq<nat>, found: set<nat>)
    requires t.Sound() && q in t.Needed()
    ensures FoundNeeded(t, order, found) && q in found
  {
    if q in t.marked {
      order := StartsWith(t, []);
      assert [] + order == order;
      NeverMore(t, order);
      found := MarkInOrder(t.graph, t.finalizers, order, t.marked);
    } else {
      var j := Leader(t, Unmarked(t), q);
      order, found := LeaderFirst(t, j);
    }
  }

  /** One of several registrations that lead to q together does so alone. */
  lemma Leader(t: Task, R: set<nat>, q: nat) returns (j: nat)
    requires t.Sound() && q in Found(t, R) && q !in t.marked
    ensures j in R && j in Unmarked(t) && q in Found(t, {j})
  {
    FoundHolds(t, R);
    var path :| |path| > 0 && path[0] in t.marked + PushesOf(t, R) && path[|path|-1] == q && PG.Path(t.graph, path);
    if path[0] in t.marked {
      PG.ClosedHoldsPath(t.graph, t.marked, path);
    }
    j :| j in R && j in t.finalizers && j !in t.marked && path[0] in Pushes(t.graph, t.finalizers[j].proc, j);
    assert path[0] in t.marked + PushesOf(t, {j});
  }

  lemma LeaderFirst(t: Task, j: nat) returns (order: seq<nat>, found: set<nat>)
    requires t.Sound() && j in Unmarked(t)
    ensures FoundNeeded(t, order, found) && Found(t, {j}) <= found && |order| == |t.finalizers|
  {
    OneIsRun(t, j);
    NeededIsClosed(t);
    FoundHolds(t, {j});
    FoundIsLeast(t, {j}, t.Needed());
    FoundByAll(t);
    PushedByRun(t, Unmarked(t), Unmarked(t) - Found(t, {j}));
    order, found := GoingOnFrom(t, [j], t.Needed());
  }

  lemma OneIsRun(t: Task, j: nat)
    requires t.Sound() && j in Unmarked(t)
    ensures AllRun(t, [j]) && Items([j]) == {j}
  {
    FoundByNone(t);
    assert Items([]) == {};
    AllRunStep(t, [], j);
    assert [] + [j] == [j];
    ItemsOf([], j);
  }

  /** Of the objects in S, every order of the table finds all that are needed. */
  ghost predicate AlwaysFound(t: Task, S: set<nat>)
    requires t.Sound()
  {
    forall order, found :: FoundNeeded(t, order, found) ==> S * t.Needed() <= found
  }

  /** Of the objects in S, any two orders of the table find the same. */
  ghost predicate OrdersAgree(t: Task, S: set<nat>)
    requires t.Sound()
  {
    forall order, order', found, found' :: FoundNeeded(t, order, found) && FoundNeeded(t, order', found') ==>
      S * found == S * found'
  }

  /** Of the objects in S, all lists of registrations that are run and lead to all others find all that are needed. */
  ghost predicate ListsFind(t: Task, S: set<nat>)
    requires t.Sound()
  {
    forall list {:trigger AllRun(t, list)} :: AllRun(t, list) && NoneElse(t, list) ==>
      S * t.Needed() <= Found(t, Items(list))
  }

  /** The exact condition for the order not to matter, for any set of objects and any number of registrations of any
      kind: whichever registrations are run, each not led to by those before it, until they lead to all others, they
      lead to all that is needed. */
  lemma WhenOrdersAgree(t: Task, S: set<nat>)
    requires t.Sound()
    ensures OrdersAgree(t, S) <==> AlwaysFound(t, S)
    ensures OrdersAgree(t, S) <==> ListsFind(t, S)
  {
    if OrdersAgree(t, S) {
      AgreeOnNeeded(t, S);
    }
    if AlwaysFound(t, S) {
      AlwaysAgree(t, S);
      FoundByLists(t, S);
    }
    if ListsFind(t, S) {
      FoundInOrders(t, S);
    }
  }

  lemma FoundByLists(t: Task, S: set<nat>)
    requires t.Sound() && AlwaysFound(t, S)
    ensures ListsFind(t, S)
  {
    forall list {:trigger AllRun(t, list)} | AllRun(t, list) && NoneElse(t, list)
      ensures S * t.Needed() <= Found(t, Items(list))
    {
      var order := AsOrder(t, list);
    }
  }

  lemma FoundInOrders(t: Task, S: set<nat>)
    requires t.Sound() && ListsFind(t, S)
    ensures AlwaysFound(t, S)
  {
    forall order, found | FoundNeeded(t, order, found)
      ensures S * t.Needed() <= found
    {
      var list := WhatIsRun(t, order);
      NothingElseIsRun(t, order, list);
    }
  }

  lemma AgreeOnNeeded(t: Task, S: set<nat>)
    requires t.Sound() && OrdersAgree(t, S)
    ensures AlwaysFound(t, S)
  {
    forall order, found | FoundNeeded(t, order, found)
      ensures S * t.Needed() <= found
    {
      forall q | q in S * t.Needed()
        ensures q in found
      {
        var order', found' := FoundSomehow(t, q);
        assert q in S * found';
      }
    }
  }

  lemma AlwaysAgree(t: Task, S: set<nat>)
    requires t.Sound() && AlwaysFound(t, S)
    ensures OrdersAgree(t, S)
  {
    forall order, found | FoundNeeded(t, order, found)
      ensures S * found == S * t.Needed()
    {
      NeverMore(t, order);
    }
  }

  /** Every order of the table finds what is needed, no less and no more. */
  ghost predicate NeededIsFound(t: Task)
    requires t.Sound()
  {
    forall order, found :: FoundNeeded(t, order, found) ==> found == t.Needed()
  }

  /** Whichever registrations are run, each not led to by those before it, until they lead to all others, they lead to
      all that is pushed. */
  ghost predicate ListsFindPushes(t: Task)
    requires t.Sound()
  {
    forall list {:trigger AllRun(t, list)} :: AllRun(t, list) && NoneElse(t, list) ==>
      t.AllPushes() <= Found(t, Items(list))
  }

  lemma WhenNeededIsFound(t: Task)
    requires t.Sound()
    ensures NeededIsFound(t) <==> ListsFindPushes(t)
  {
    WhenOrdersAgree(t, t.Needed());
    AllOfNeeded(t);
    PushesOfLists(t);
  }

  lemma PushesOfLists(t: Task)
    requires t.Sound()
    ensures ListsFindPushes(t) <==> ListsFind(t, t.Needed())
  {
    forall list {:trigger AllRun(t, list)} | AllRun(t, list)
      ensures t.AllPushes() <= Found(t, Items(list)) <==> t.Needed() * t.Needed() <= Found(t, Items(list))
    {
      PushesDecide(t, Items(list));
    }
  }

  lemma AllOfNeeded(t: Task)
    requires t.Sound()
    ensures NeededIsFound(t) <==> AlwaysFound(t, t.Needed())
  {
    forall order, found | FoundNeeded(t, order, found)
      ensures found == t.Needed() <==> t.Needed() * t.Needed() <= found
    {
      NeverMore(t, order);
    }
  }

  lemma PushesDecide(t: Task, R: set<nat>)
    requires t.Sound()
    ensures t.AllPushes() <= Found(t, R) <==> t.Needed() <= Found(t, R)
  {
    NeededIsClosed(t);
    FoundHolds(t, R);
    if t.AllPushes() <= Found(t, R) {
      NeededIsLeast(t, Found(t, R));
    }
  }

  lemma NeededIsLeast(t: Task, m: set<nat>)
    requires t.Sound() && t.marked <= m && t.AllPushes() <= m && PG.Closed(t.graph, m)
    ensures t.Needed() <= m
  {
    PG.ReachIsLeast(t.graph, t.marked + t.AllPushes(), m);
  }

  /** Any two orders of the table enqueue the same objects. */
  ghost predicate SameAreDue(t: Task)
    requires t.Sound()
  {
    forall order, order', found, found' :: FoundNeeded(t, order, found) && FoundNeeded(t, order', found') ==>
      t.Due(found) == t.Due(found')
  }

  /** They do exactly if all such lists lead to all registered objects that are needed. */
  lemma WhenSameAreDue(t: Task)
    requires t.Sound()
    ensures SameAreDue(t) <==> ListsFind(t, t.finalizers.Keys)
  {
    WhenOrdersAgree(t, t.finalizers.Keys);
    WhenDueAgrees(t);
  }

  lemma WhenDueAgrees(t: Task)
    requires t.Sound()
    ensures SameAreDue(t) <==> OrdersAgree(t, t.finalizers.Keys)
  {
    forall order, order', found, found' | FoundNeeded(t, order, found) && FoundNeeded(t, order', found')
      ensures t.Due(found) == t.Due(found') <==> t.finalizers.Keys * found == t.finalizers.Keys * found'
    {
      DueIsTheRest(t, found, found');
    }
  }

  lemma DueIsTheRest(t: Task, found: set<nat>, found': set<nat>)
    ensures t.Due(found) == t.Due(found') <==> t.finalizers.Keys * found == t.finalizers.Keys * found'
  {
    var keys := t.finalizers.Keys;
    assert keys * found == keys - t.Due(found) && keys * found' == keys - t.Due(found');
    assert t.Due(found) == keys - keys * found && t.Due(found') == keys - keys * found';
  }

  // ---- Closed final marks ----

  /** Java finalization is on, or no object registered under the null procedure that has not been found points to one
      that has neither been found nor been registered. */
  ghost predicate NullPointInside(t: Task, found: set<nat>)
    requires t.Sound()
  {
    t.java || forall k :: k in t.finalizers && k !in found && t.finalizers[k].proc.Null? ==>
                t.graph.succ[k] <= found + t.finalizers.Keys
  }

  /** The marks that GC_finalize leaves are closed for every order of the table. */
  ghost predicate AlwaysClosed(t: Task)
    requires t.Sound()
  {
    forall order, found :: FoundNeeded(t, order, found) ==> PG.Closed(t.graph, t.FinalMarks(found))
  }

  ghost predicate ListsPointInside(t: Task)
    requires t.Sound()
  {
    forall list {:trigger AllRun(t, list)} :: AllRun(t, list) && NoneElse(t, list) ==>
      NullPointInside(t, Found(t, Items(list)))
  }

  /** For any number of registrations of any kind they are exactly if, whichever registrations are run, each not led to
      by those before it, until they lead to all others, no null procedure leaves a target out. */
  lemma WhenAlwaysClosed(t: Task)
    requires t.Sound()
    ensures AlwaysClosed(t) <==> ListsPointInside(t)
  {
    if AlwaysClosed(t) {
      forall list {:trigger AllRun(t, list)} | AllRun(t, list) && NoneElse(t, list)
        ensures NullPointInside(t, Found(t, Items(list)))
      {
        var order := AsOrder(t, list);
        WhenClosed(t, order, Found(t, Items(list)));
      }
    }
    if ListsPointInside(t) {
      AlwaysClosedIf(t);
    }
  }

  lemma AlwaysClosedIf(t: Task)
    requires t.Sound() && ListsPointInside(t)
    ensures AlwaysClosed(t)
  {
    forall order, found | FoundNeeded(t, order, found)
      ensures PG.Closed(t.graph, t.FinalMarks(found))
    {
      var list := WhatIsRun(t, order);
      NothingElseIsRun(t, order, list);
      WhenClosed(t, order, found);
    }
  }

  lemma WhenClosed(t: Task, order: seq<nat>, found: set<nat>)
    requires t.Sound() && FoundNeeded(t, order, found)
    ensures PG.Closed(t.graph, t.FinalMarks(found)) <==> NullPointInside(t, found)
  {
    InOrderServes(t, order);
    ClosedUnlessNullLeaves(t, found);
  }

  // ---- Conditions on sets of registrations ----

  /** Either the other registrations do not lead to all of S, so that some mark procedure of S is run whenever its turn
      comes, or they lead to all that those of S push, so that these need not be run. */
  ghost predicate Harmless(t: Task, S: set<nat>)
    requires t.Sound()
  {
    S <= Found(t, Unmarked(t) - S) ==> PushesOf(t, S) <= Found(t, Unmarked(t) - S)
  }

  /** Unmarked registered objects whose mark procedure pushes more than marking them leads to. */
  ghost function Untamed(t: Task): set<nat>
    requires t.Sound()
  {
    set k | k in t.finalizers && k !in t.marked && !Tame(t.graph, t.finalizers[k].proc, k)
  }

  /** It is enough that all sets of untamed registrations are harmless. */
  lemma HarmlessSetsSuffice(t: Task, order: seq<nat>, found: set<nat>)
    requires t.Sound() && forall S :: S <= Untamed(t) ==> Harmless(t, S)
    requires FoundNeeded(t, order, found)
    ensures found == t.Needed()
  {
    var list := WhatIsRun(t, order);
    NothingElseIsRun(t, order, list);
    RunAreUnmarked(t, list);
    NeverMore(t, order);
    HarmlessList(t, Items(list), (Unmarked(t) - Items(list)) * Untamed(t));
    NeededIsLeast(t, Found(t, Items(list)));
  }

  /** If those in R are run and lead to all others, of which S are the untamed ones. */
  lemma HarmlessList(t: Task, R: set<nat>, S: set<nat>)
    requires t.Sound() && R <= Unmarked(t) && Unmarked(t) - R <= Found(t, R)
    requires S == (Unmarked(t) - R) * Untamed(t) && Harmless(t, S)
    ensures t.marked <= Found(t, R) && t.AllPushes() <= Found(t, R) && PG.Closed(t.graph, Found(t, R))
  {
    FoundHolds(t, R);
    var T := Unmarked(t) - R - S;
    TamePushReached(t, T, Found(t, R));
    PushesOfBoth(t, R, T);
    assert R + T == Unmarked(t) - S;
    FoundIsLeast(t, R + T, Found(t, R));
    FoundGrows(t, R, T);
    PushesOfBoth(t, R + T, S);
    assert R + T + S == Unmarked(t);
    FoundByAll(t);
  }

  lemma TamePushReached(t: Task, T: set<nat>, m: set<nat>)
    requires t.Sound() && T <= Unmarked(t) - Untamed(t) && T <= m && PG.Closed(t.graph, m)
    ensures PushesOf(t, T) <= m
  {
    forall k | k in T
      ensures Pushes(t.graph, t.finalizers[k].proc, k) <= m
    {
      assert k !in Untamed(t);
    }
  }

  /** If k is not harmless, the order matters: with a registration that leads to k first, what k pushes is not all found
      to be needed; with k first it is. */
  lemma OrderMatters(t: Task, k: nat) returns (order: seq<nat>, order': seq<nat>)
    requires t.Sound() && k in t.finalizers && k !in t.marked && !Harmless(t, {k})
    ensures t.Lists(order) && t.Lists(order') && multiset(order) == multiset(order') && |order| == |t.finalizers|
    ensures Listed(t.graph, t.finalizers, order) && Listed(t.graph, t.finalizers, order')
    ensures var pushed := Pushes(t.graph, t.finalizers[k].proc, k);
            && !(pushed <= MarkInOrder(t.graph, t.finalizers, order, t.marked))
            && pushed <= MarkInOrder(t.graph, t.finalizers, order', t.marked)
  {
    var j := Leader(t, Unmarked(t) - {k}, k);
    order := SkippingOrder(t, k, j);
    var found';
    order', found' := LeaderFirst(t, k);
    PushesAre(t, k);
    FoundHolds(t, {k});
    SameItems(t, order, order');
  }

  /** An order that starts with j, which leads to k. */
  lemma SkippingOrder(t: Task, k: nat, j: nat) returns (order: seq<nat>)
    requires t.Sound() && k in Unmarked(t) && !Harmless(t, {k})
    requires j in Unmarked(t) - {k} && k in Found(t, {j})
    ensures t.Lists(order) && |order| == |t.finalizers| && Listed(t.graph, t.finalizers, order)
    ensures !(Pushes(t.graph, t.finalizers[k].proc, k) <= MarkInOrder(t.graph, t.finalizers, order, t.marked))
  {
    var others := Unmarked(t) - {k};
    OneIsRun(t, j);
    FoundHolds(t, others);
    FoundGrows(t, {j}, others);
    assert {j} + others == others;
    PushedByRun(t, others, Unmarked(t) - Found(t, {j}));
    var found;
    order, found := GoingOnFrom(t, [j], Found(t, others));
    PushesAre(t, k);
  }

  /** Two orders without repetition are permutations of each other. */
  lemma SameItems(t: Task, order: seq<nat>, order': seq<nat>)
    requires t.Lists(order) && t.Lists(order') && |order| == |order'| == |t.finalizers|
    ensures multiset(order) == multiset(order')
  {
    assert Items(order) == t.finalizers.Keys && Items(order') == t.finalizers.Keys;
    OnceEach(order);
    OnceEach(order');
  }

  lemma {:induction false} OnceEach(list: seq<nat>)
    ensures |Items(list)| <= |list|
    ensures |Items(list)| == |list| ==> multiset(list) == multiset(Items(list))
    decreases |list|
  {
    if list != [] {
      var n := |list| - 1;
      OnceEach(list[..n]);
      assert list == list[..n] + [list[n]];
      ItemsOf(list[..n], list[n]);
      if list[n] in list[..n] {
        assert Items(list) == Items(list[..n]);
      }
    }
  }

  /** If a single registration may push more than marking leads to, every order of the table finds the same objects
      to be needed exactly if that registration is harmless. */
  lemma OneExceptionMatters(t: Task, k: nat)
    requires t.Sound() && k in t.finalizers && k !in t.marked
    requires forall i :: i in t.finalizers && i !in t.marked && i != k ==> Tame(t.graph, t.finalizers[i].proc, i)
    ensures Harmless(t, {k}) <==>
            forall order {:trigger t.Lists(order)} :: t.Lists(order) && Listed(t.graph, t.finalizers, order) ==>
              MarkInOrder(t.graph, t.finalizers, order, t.marked) == t.Needed()
  {
    if Harmless(t, {k}) {
      forall S | S <= Untamed(t)
        ensures Harmless(t, S)
      {
        assert S <= {k};
        assert S == {} || S == {k};
      }
      forall order | t.Lists(order) && Listed(t.graph, t.finalizers, order)
        ensures MarkInOrder(t.graph, t.finalizers, order, t.marked) == t.Needed()
      {
        HarmlessSetsSuffice(t, order, MarkInOrder(t.graph, t.finalizers, order, t.marked));
      }
    } else {
      var order, order' := OrderMatters(t, k);
      NeverMore(t, order');
    }
  }

  /** The objects of an example: 0 points to 1 and 2, which both hold a word that looks like a pointer to 3 but that
      their descriptors skip. */
  ghost predicate TwoSkipped(t: Task)
    requires t.Sound()
  {
    && t.marked == {} && t.finalizers.Keys == {0, 1, 2}
    && PG.Closed(t.graph, {1, 2}) && PG.Closed(t.graph, {3})
    && Pushes(t.graph, t.finalizers[0].proc, 0) == {1, 2}
    && Pushes(t.graph, t.finalizers[1].proc, 1) == {3}
    && Pushes(t.graph, t.finalizers[2].proc, 2) == {3}
  }

  /** That each registration alone is harmless is not enough: if 0 comes first, neither 1 nor 2 is run, and 3 is not
      found, though either of them would do. */
  lemma OneByOneIsNotEnough(proc: Finalizer, ignoring: Finalizer) returns (t: Task)
    requires proc.proc == Ordinary && ignoring.proc == IgnoreSelf
    ensures t.Sound() && (forall k :: k in t.finalizers ==> Harmless(t, {k})) && !NeededIsFound(t)
  {
    var g := PG.Graph(map[0 := {1, 2}, 1 := {}, 2 := {}, 3 := {}], map[0 := {1, 2}, 1 := {3}, 2 := {3}, 3 := {}]);
    t := Task(g, {}, map[0 := proc, 1 := ignoring, 2 := ignoring], false);
    TheyAreSkipped(t, proc, ignoring);
    OneSkippedIsHarmless(t);
    BothAreSkipped(t);
  }

  lemma TheyAreSkipped(t: Task, proc: Finalizer, ignoring: Finalizer)
    requires proc.proc == Ordinary && ignoring.proc == IgnoreSelf
    requires t.graph.succ == map[0 := {1, 2}, 1 := {}, 2 := {}, 3 := {}]
    requires t.graph.words == map[0 := {1, 2}, 1 := {3}, 2 := {3}, 3 := {}]
    requires t.marked == {} && t.finalizers == map[0 := proc, 1 := ignoring, 2 := ignoring]
    ensures t.Sound() && TwoSkipped(t)
  {
    assert t.graph.WellFormed() && t.finalizers.Keys == {0, 1, 2};
  }

  lemma OneSkippedIsHarmless(t: Task)
    requires t.Sound() && TwoSkipped(t)
    ensures Harmless(t, {0}) && Harmless(t, {1}) && Harmless(t, {2})
  {
    FoundIsLeast(t, Unmarked(t) - {0}, {3});
    FoundHolds(t, Unmarked(t) - {1});
    FoundHolds(t, Unmarked(t) - {2});
    PushedBy(t, Unmarked(t) - {1}, 2);
    PushedBy(t, Unmarked(t) - {2}, 1);
    PushesAre(t, 1);
    PushesAre(t, 2);
  }

  lemma BothAreSkipped(t: Task)
    requires t.Sound() && TwoSkipped(t)
    ensures !NeededIsFound(t)
  {
    WhenNeededIsFound(t);
    OneIsRun(t, 0);
    PushesAre(t, 0);
    FoundHolds(t, {0});
    FoundIsLeast(t, {0}, {1, 2});
    PushedBy(t, Unmarked(t), 1);
    FoundByAll(t);
    assert AllRun(t, [0]) && NoneElse(t, [0]);
  }
}
