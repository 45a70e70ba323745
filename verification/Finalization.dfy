/** Finalization: disappearing links, finalizers and what GC_finalize does with them
    (boehmgc/src/finalize.c).  An object's number stands for its base address. */
module Finalization {
  import opened HeapGraph
  import opened HashTable
  import opened Kinds
  import PG = PointerGraph

  /** GC_normal_finalize_mark_proc, GC_ignore_self_finalize_mark_proc, GC_null_finalize_mark_proc. */
  datatype MarkProc = Ordinary | IgnoreSelf | Null

  datatype Finalizer = Finalizer(fn: nat, data: nat, size: nat, proc: MarkProc)

  /** An entry of GC_finalize_now. */
  datatype Queued = Queued(base: nat, finalizer: Finalizer)

  // ---- Memory as a graph ----

  /** Objects that the given positions point to. */
  function Targets(h: Heap, positions: set<nat>): set<nat> {
    set p | p in positions && h.At(p).Pointer? :: h.At(p).obj
  }

  /** All of object o, as a range. */
  function Whole(h: Heap, o: nat): Entry
    requires o < |h.objects| && h.objects[o].block < |h.blocks|
  {
    Entry(h.objects[o].start, Length(h.blocks[h.objects[o].block].words * h.unit))
  }

  /** The pointers in memory: those that descriptors select, and, for objects whose descriptor is not a
      length, those in any of their words. */
  function GraphOf(h: Heap): PG.Graph
    requires h.WellFormed()
  {
    PG.Graph(
      map o: nat | o < |h.objects| :: Targets(h, Positions(h.unit, h.EntryOf(o))),
      map o: nat | o < |h.objects| ::
        Targets(h, Positions(h.unit, if h.EntryOf(o).descr.Length? then h.EntryOf(o) else Whole(h, o))))
  }

  /** Descriptors select words inside their object. */
  ghost predicate Inside(h: Heap) {
    forall o: nat, p: nat :: o < |h.objects| && h.MustScan(o, p) ==> Examines(h.unit, Whole(h, o), p)
  }

  lemma GraphIsWellFormed(h: Heap)
    requires h.WellFormed() && Inside(h)
    ensures GraphOf(h).WellFormed() && GraphOf(h).succ.Keys == h.Ids()
    ensures forall a, b :: PG.Edge(GraphOf(h), a, b) <==> Points(h, true, a, b)
  {
    var g := GraphOf(h);
    forall o | o in g.succ
      ensures g.succ[o] <= g.words[o] <= g.succ.Keys
    {
      forall p: nat | p in Positions(h.unit, h.EntryOf(o))
        ensures p in Positions(h.unit, if h.EntryOf(o).descr.Length? then h.EntryOf(o) else Whole(h, o))
      {
        assert h.MustScan(o, p);
      }
    }
    forall a, b
      ensures PG.Edge(g, a, b) <==> Points(h, true, a, b)
    {
      if PG.Edge(g, a, b) {
        var p :| p in Positions(h.unit, h.EntryOf(a)) && h.At(p) == Pointer(b);
        assert h.MustScan(a, p);
      }
    }
  }

  // ---- Mark procedures ----

  /** What a mark procedure pushes for o: what marking o leads to, any reference in it to another object,
      or nothing. */
  function Pushes(g: PG.Graph, proc: MarkProc, o: nat): set<nat>
    requires g.words.Keys == g.succ.Keys && o in g.succ
  {
    match proc
    case Ordinary => g.succ[o]
    case IgnoreSelf => g.words[o] - {o}
    case Null => {}
  }

  /** The mark procedure pushes only what marking the object leads to. */
  ghost predicate Tame(g: PG.Graph, proc: MarkProc, o: nat)
    requires g.words.Keys == g.succ.Keys && o in g.succ
  {
    proc.IgnoreSelf? ==> g.words[o] == g.succ[o]
  }

  // ---- What GC_finalize has to do ----

  /** Marks and registrations when GC_finalize has cleared dead links, and the graph that is left. */
  datatype Task = Task(graph: PG.Graph, marked: set<nat>, finalizers: map<nat, Finalizer>, java: bool) {
    ghost predicate Sound() {
      && graph.WellFormed()
      && marked <= graph.succ.Keys && PG.Closed(graph, marked)
      && finalizers.Keys <= graph.succ.Keys
    }

    /** What the mark procedures of all registered unmarked objects push. */
    ghost function AllPushes(): set<nat>
      requires Sound()
    {
      set k, q | k in finalizers && k !in marked && q in Pushes(graph, finalizers[k].proc, k) :: q
    }

    /** Objects that are marked, or that finalizers may need. */
    ghost function Needed(): set<nat>
      requires Sound()
    {
      PG.Reach(graph, marked + AllPushes())
    }

    /** Objects to finalize now. */
    ghost function Due(needed: set<nat>): set<nat> {
      finalizers.Keys - needed
    }

    /** Marks at the end. */
    ghost function FinalMarks(needed: set<nat>): set<nat> {
      if java then PG.Reach(graph, needed + Due(needed)) else needed + Due(needed)
    }

    ghost predicate Lists(order: seq<nat>) {
      forall k :: k in order <==> k in finalizers
    }

    ghost predicate AllTame()
      requires Sound()
    {
      forall k :: k in finalizers && k !in marked ==> Tame(graph, finalizers[k].proc, k)
    }
  }

  ghost predicate Listed(g: PG.Graph, finalizers: map<nat, Finalizer>, order: seq<nat>) {
    forall i :: 0 <= i < |order| ==> order[i] in finalizers && order[i] in g.succ
  }

  /** Running the mark procedures of the unmarked objects in the given order. */
  ghost function MarkInOrder(g: PG.Graph, finalizers: map<nat, Finalizer>, order: seq<nat>, marked: set<nat>): set<nat>
    requires g.WellFormed() && Listed(g, finalizers, order)
  {
    if order == [] then marked
    else
      var n := |order| - 1;
      var before := MarkInOrder(g, finalizers, order[..n], marked);
      var k := order[n];
      if k in before then before else PG.Reach(g, before + Pushes(g, finalizers[k].proc, k))
  }

  lemma MarkInOrderStep(g: PG.Graph, finalizers: map<nat, Finalizer>, order: seq<nat>, k: nat, marked: set<nat>)
    requires g.WellFormed() && Listed(g, finalizers, order) && k in finalizers && k in g.succ
    ensures Listed(g, finalizers, order + [k])
    ensures var before := MarkInOrder(g, finalizers, order, marked);
            MarkInOrder(g, finalizers, order + [k], marked) ==
            if k in before then before else PG.Reach(g, before + Pushes(g, finalizers[k].proc, k))
  {
    assert (order + [k])[..|order|] == order;
  }

  // ---- The passes of GC_finalize ----

  function WithoutWord(mem: seq<Word>, p: nat): seq<Word> {
    if p < |mem| then mem[p := NonPointer] else mem
  }

  /** Links whose object is unmarked. */
  ghost function DeadKeys(links: map<nat, nat>, marked: set<nat>): set<nat> {
    set p | p in links && links[p] !in marked
  }

  /** mem' is mem with the words at the addresses in S zeroed. */
  ghost predicate Zeroed(mem: seq<Word>, S: set<nat>, mem': seq<Word>) {
    |mem'| == |mem| && forall p :: 0 <= p < |mem| ==> mem'[p] == if p in S then NonPointer else mem[p]
  }

  /** First pass: zero the links to unmarked objects and drop their entries. */
  method ClearDeadLinks(links: Table<nat>, mem: seq<Word>, marked: set<nat>) returns (mem': seq<Word>)
    requires links.Valid()
    modifies links
    ensures links.Valid() && links.log == old(links.log)
    ensures links.view == map p | p in old(links.view) && old(links.view)[p] in marked :: old(links.view)[p]
    ensures Zeroed(mem, DeadKeys(old(links.view), marked), mem')
  {
    mem' := mem;
    ghost var start := links.view;
    ghost var alive := start.Keys - DeadKeys(start, marked);
    var i := 0;
    while i < |links.heads|
      invariant links.Swept(start, alive, i, 0) && links.log == old(links.log)
      invariant Zeroed(mem, start.Keys - links.view.Keys, mem')
      decreases |links.heads| - i
    {
      mem' := ClearChain(links, i, mem, mem', marked, start, alive);
      i := i + 1;
    }
    links.SweepDone(start, alive);
    assert start.Keys - links.view.Keys == DeadKeys(start, marked);
  }

  method ClearChain(links: Table<nat>, i: nat, ghost mem: seq<Word>, mem0: seq<Word>, marked: set<nat>,
                    ghost start: map<nat, nat>, ghost alive: set<nat>)
      returns (mem': seq<Word>)
    requires i < |links.heads| && links.Swept(start, alive, i, 0)
    requires alive == start.Keys - DeadKeys(start, marked)
    requires Zeroed(mem, start.Keys - links.view.Keys, mem0)
    modifies links
    ensures links.log == old(links.log) && |links.heads| == old(|links.heads|)
    ensures links.Swept(start, alive, i + 1, 0)
    ensures Zeroed(mem, start.Keys - links.view.Keys, mem')
  {
    mem' := mem0;
    var j := 0;
    while j < |links.heads[i]|
      invariant links.log == old(links.log) && |links.heads| == old(|links.heads|)
      invariant links.Swept(start, alive, i, j)
      invariant Zeroed(mem, start.Keys - links.view.Keys, mem')
      decreases |links.heads[i]| - j
    {
      var cell := links.heads[i][j];
      links.CellAt(i, j);
      KeyIsOld(start, links.view, alive, cell.key);
      if cell.value !in marked {
        mem' := WithoutWord(mem', cell.key);
        links.SweepAway(i, j, start, alive);
      } else {
        links.SweepOn(i, j, start, alive);
        j := j + 1;
      }
    }
    links.SweepNext(i, start, alive);
  }

  lemma KeyIsOld<V>(start: map<nat, V>, view: map<nat, V>, alive: set<nat>, k: nat)
    requires Thinned(start, view, alive) && k in view
    ensures k in start && start[k] == view[k]
  {
  }

  /** Last pass: drop the entries of links inside unmarked objects. */
  method DropDanglingLinks(links: Table<nat>, container: map<nat, nat>, marked: set<nat>)
    requires links.Valid()
    modifies links
    ensures links.Valid() && links.log == old(links.log)
    ensures links.view ==
            map p | p in old(links.view) && (p in container ==> container[p] in marked) :: old(links.view)[p]
  {
    ghost var start := links.view;
    ghost var alive := set p | p in links.view && (p in container ==> container[p] in marked);
    var i := 0;
    while i < |links.heads|
      invariant links.Swept(start, alive, i, 0) && links.log == old(links.log)
      decreases |links.heads| - i
    {
      DropChain(links, i, container, marked, start, alive);
      i := i + 1;
    }
    links.SweepDone(start, alive);
  }

  method DropChain(links: Table<nat>, i: nat, container: map<nat, nat>, marked: set<nat>,
                   ghost start: map<nat, nat>, ghost alive: set<nat>)
    requires i < |links.heads| && links.Swept(start, alive, i, 0)
    requires forall p :: p in alive <==> p in start && (p in container ==> container[p] in marked)
    modifies links
    ensures links.log == old(links.log) && |links.heads| == old(|links.heads|)
    ensures links.Swept(start, alive, i + 1, 0)
  {
    var j := 0;
    while j < |links.heads[i]|
      invariant links.log == old(links.log) && |links.heads| == old(|links.heads|)
      invariant links.Swept(start, alive, i, j)
      decreases |links.heads[i]| - j
    {
      var link := links.heads[i][j].key;
      links.CellAt(i, j);
      KeyIsOld(start, links.view, alive, link);
      if link in container && container[link] !in marked {
        links.SweepAway(i, j, start, alive);
      } else {
        links.SweepOn(i, j, start, alive);
        j := j + 1;
      }
    }
    links.SweepNext(i, start, alive);
  }

  /** The objects of T that are not in marked lead only to objects of T. */
  ghost predicate Spreads(g: PG.Graph, marked: set<nat>, T: set<nat>) {
    forall a :: a in T && a !in marked && a in g.succ ==> g.succ[a] <= T
  }

  /** GC_MARK_FO: run the mark procedure, then mark all that is reachable from what it pushed. */
  method MarkFo(g: PG.Graph, marked: set<nat>, o: nat, proc: MarkProc) returns (marked': set<nat>)
    requires g.WellFormed() && o in g.succ && marked <= g.succ.Keys && PG.Closed(g, marked)
    ensures marked' == PG.Reach(g, marked + Pushes(g, proc, o))
    ensures marked + Pushes(g, proc, o) <= marked' <= g.succ.Keys && PG.Closed(g, marked')
  {
    ghost var goal := PG.Reach(g, marked + Pushes(g, proc, o));
    PG.ReachHolds(g, marked + Pushes(g, proc, o));
    marked' := MarkAll(g, marked, Pushes(g, proc, o));
    assert Spreads(g, marked, goal);
    PG.ReachIsLeast(g, marked + Pushes(g, proc, o), marked');
  }

  /** Mark the given objects and all that is reachable from them through unmarked ones. */
  method MarkAll(g: PG.Graph, marked: set<nat>, pushed: set<nat>) returns (marked': set<nat>)
    requires g.WellFormed() && marked + pushed <= g.succ.Keys
    ensures marked + pushed <= marked' <= g.succ.Keys && Spreads(g, marked, marked')
    ensures forall T {:trigger Spreads(g, marked, T)} :: marked + pushed <= T && Spreads(g, marked, T) ==> marked' <= T
  {
    marked' := marked;
    var work := pushed - marked;
    while work != {}
      invariant marked <= marked' <= g.succ.Keys && work <= g.succ.Keys && work !! marked'
      invariant pushed <= marked' + work
      invariant forall a :: a in marked' && a !in marked && a in g.succ ==> g.succ[a] <= marked' + work
      invariant forall T {:trigger Spreads(g, marked, T)} :: marked + pushed <= T && Spreads(g, marked, T) ==>
                  marked' + work <= T
      decreases g.succ.Keys - marked'
    {
      var q :| q in work;
      marked' := marked' + {q};
      work := (work + g.succ[q]) - marked';
    }
  }

  /** Keys in the order of the table: buckets before i, then the first j cells of bucket i. */
  ghost function KeysUpTo<V>(heads: seq<seq<Cell<V>>>, i: nat, j: nat): seq<nat>
    requires i <= |heads| && (if i < |heads| then j <= |heads[i]| else j == 0)
    decreases i, j
  {
    if j > 0 then KeysUpTo(heads, i, j - 1) + [heads[i][j - 1].key]
    else if i > 0 then KeysUpTo(heads, i - 1, |heads[i - 1]|)
    else []
  }

  ghost function Order<V>(heads: seq<seq<Cell<V>>>): seq<nat> {
    KeysUpTo(heads, |heads|, 0)
  }

  lemma {:induction false} OrderIsRegistered<V>(table: Table<V>, i: nat, j: nat)
    requires table.Valid()
    requires i <= |table.heads| && (if i < |table.heads| then j <= |table.heads[i]| else j == 0)
    ensures forall k :: k in KeysUpTo(table.heads, i, j) ==> k in table.view
    decreases i, j
  {
    if j > 0 {
      OrderIsRegistered(table, i, j - 1);
      table.CellAt(i, j - 1);
    } else if i > 0 {
      OrderIsRegistered(table, i - 1, |table.heads[i - 1]|);
    }
  }

  lemma {:induction false} OrderHolds<V>(heads: seq<seq<Cell<V>>>, i: nat, j: nat, a: nat, b: nat)
    requires i <= |heads| && (if i < |heads| then j <= |heads[i]| else j == 0)
    requires a < |heads| && b < |heads[a]| && (a < i || (a == i && b < j))
    ensures heads[a][b].key in KeysUpTo(heads, i, j)
    decreases i, j
  {
    if j > 0 {
      if !(a == i && b == j - 1) {
        OrderHolds(heads, i, j - 1, a, b);
      }
    } else {
      OrderHolds(heads, i - 1, |heads[i - 1]|, a, b);
    }
  }

  /** The order of a table lists its keys. */
  lemma OrderIsComplete<V>(table: Table<V>)
    requires table.Valid()
    ensures forall k :: k in Order(table.heads) <==> k in table.view
  {
    OrderIsRegistered(table, |table.heads|, 0);
    forall k | k in table.view
      ensures k in Order(table.heads)
    {
      assert Present(table.hash, table.heads, table.log, k);
      var b :| 0 <= b < |table.heads[table.hash(k, table.log)]| && table.heads[table.hash(k, table.log)][b].key == k;
      OrderHolds(table.heads, |table.heads|, 0, table.hash(k, table.log), b);
    }
  }

  /** The mark procedures of the registrations before cell j of bucket i have run. */
  ghost predicate RunUpTo(g: PG.Graph, view: map<nat, Finalizer>, heads: seq<seq<Cell<Finalizer>>>, i: nat, j: nat,
                          start: set<nat>, marked: set<nat>) {
    && i <= |heads| && (if i < |heads| then j <= |heads[i]| else j == 0)
    && g.WellFormed() && Listed(g, view, KeysUpTo(heads, i, j))
    && marked == MarkInOrder(g, view, KeysUpTo(heads, i, j), start)
    && start <= marked <= g.succ.Keys && PG.Closed(g, marked)
  }

  lemma RunNext(g: PG.Graph, view: map<nat, Finalizer>, heads: seq<seq<Cell<Finalizer>>>, i: nat, j: nat,
                start: set<nat>, marked: set<nat>, marked': set<nat>)
    requires RunUpTo(g, view, heads, i, j, start, marked) && i < |heads| && j < |heads[i]|
    requires var k := heads[i][j].key;
             && k in view && k in g.succ && view[k] == heads[i][j].value
             && marked' == if k in marked then marked else PG.Reach(g, marked + Pushes(g, view[k].proc, k))
    requires marked <= marked' <= g.succ.Keys && PG.Closed(g, marked')
    ensures RunUpTo(g, view, heads, i, j + 1, start, marked')
  {
    MarkInOrderStep(g, view, KeysUpTo(heads, i, j), heads[i][j].key, start);
  }

  lemma RunChain(g: PG.Graph, view: map<nat, Finalizer>, heads: seq<seq<Cell<Finalizer>>>, i: nat, start: set<nat>,
                 marked: set<nat>)
    requires i < |heads| && RunUpTo(g, view, heads, i, |heads[i]|, start, marked)
    ensures RunUpTo(g, view, heads, i + 1, 0, start, marked)
  {
  }

  /** Second pass: mark what finalizers may need. */
  method MarkFromFinalizable(table: Table<Finalizer>, g: PG.Graph, marked: set<nat>) returns (marked': set<nat>)
    requires table.Valid() && g.WellFormed() && table.view.Keys <= g.succ.Keys
    requires marked <= g.succ.Keys && PG.Closed(g, marked)
    ensures Listed(g, table.view, Order(table.heads))
    ensures marked' == MarkInOrder(g, table.view, Order(table.heads), marked)
    ensures marked <= marked' <= g.succ.Keys && PG.Closed(g, marked')
  {
    marked' := marked;
    var i := 0;
    while i < |table.heads|
      invariant RunUpTo(g, table.view, table.heads, i, 0, marked, marked')
    {
      marked' := MarkFromChain(table, i, g, marked, marked');
      i := i + 1;
    }
  }

  method MarkFromChain(table: Table<Finalizer>, i: nat, g: PG.Graph, ghost start: set<nat>, marked: set<nat>)
      returns (marked': set<nat>)
    requires table.Valid() && g.WellFormed() && table.view.Keys <= g.succ.Keys
    requires i < |table.heads| && RunUpTo(g, table.view, table.heads, i, 0, start, marked)
    ensures RunUpTo(g, table.view, table.heads, i + 1, 0, start, marked')
  {
    marked' := marked;
    var j := 0;
    while j < |table.heads[i]|
      invariant RunUpTo(g, table.view, table.heads, i, j, start, marked')
    {
      var cell := table.heads[i][j];
      ghost var before := marked';
      table.CellAt(i, j);
      if cell.key !in marked' {
        marked' := MarkFo(g, marked', cell.key, cell.value.proc);
      }
      RunNext(g, table.view, table.heads, i, j, start, before, marked');
      j := j + 1;
    }
    RunChain(g, table.view, table.heads, i, start, marked');
  }

  /** Third pass: move the registrations of unmarked objects to the queue; without Java finalization also
      mark the objects. */
  method EnqueueDue(table: Table<Finalizer>, java: bool, marked: set<nat>, queue: seq<Queued>)
      returns (marked': set<nat>, queue': seq<Queued>)
    requires table.Valid()
    modifies table
    ensures table.Valid() && table.log == old(table.log)
    ensures table.view.Keys == old(table.view.Keys) * marked
    ensures forall k :: k in table.view ==> table.view[k] == old(table.view)[k]
    ensures marked' == if java then marked else marked + (old(table.view.Keys) - marked)
    ensures Enqueued(old(table.view), old(table.view.Keys) - marked, queue, queue')
    ensures table.count + |queue'| == old(table.count) + |queue|
  {
    marked', queue' := marked, queue;
    ghost var start := table.view;
    ghost var kept := start.Keys * marked;
    var i := 0;
    while i < |table.heads|
      invariant table.Swept(start, kept, i, 0) && table.log == old(table.log)
      invariant Progress(table, start, java, marked, marked', queue, queue')
      invariant table.count + |queue'| == old(table.count) + |queue|
      decreases |table.heads| - i
    {
      marked', queue' := EnqueueChain(table, i, java, marked, marked', queue, queue', start, kept);
      i := i + 1;
    }
    table.SweepDone(start, kept);
    assert table.view.Keys == start.Keys * marked;
    FinishProgress(table, start, java, marked, marked', queue, queue');
  }

  lemma FinishProgress(table: Table<Finalizer>, start: map<nat, Finalizer>, java: bool, marked: set<nat>,
                       marked': set<nat>, queue: seq<Queued>, queue': seq<Queued>)
    requires Progress(table, start, java, marked, marked', queue, queue')
    requires table.view.Keys == start.Keys * marked
    ensures marked' == if java then marked else marked + (start.Keys - marked)
    ensures Enqueued(start, start.Keys - marked, queue, queue')
  {
    assert start.Keys - table.view.Keys == start.Keys - marked;
  }

  /** queue' is queue behind one entry for each object in S, taken over from the registrations. */
  ghost predicate Enqueued(view: map<nat, Finalizer>, S: set<nat>, queue: seq<Queued>, queue': seq<Queued>) {
    && |queue'| == |S| + |queue| && queue'[|S|..] == queue
    && (forall i :: 0 <= i < |S| ==> queue'[i].base in S && queue'[i].base in view
                                     && queue'[i].finalizer == view[queue'[i].base])
    && (forall k :: k in S ==> exists i :: 0 <= i < |S| && queue'[i].base == k)
  }

  ghost predicate Progress(table: Table<Finalizer>, start: map<nat, Finalizer>, java: bool, marked: set<nat>,
                           marked': set<nat>, queue: seq<Queued>, queue': seq<Queued>)
    reads table
  {
    && marked' == (if java then marked else marked + (start.Keys - table.view.Keys))
    && Enqueued(start, start.Keys - table.view.Keys, queue, queue')
  }

  method EnqueueChain(table: Table<Finalizer>, i: nat, java: bool, ghost marked: set<nat>, marked0: set<nat>,
                      ghost queue: seq<Queued>, queue0: seq<Queued>,
                      ghost start: map<nat, Finalizer>, ghost kept: set<nat>)
      returns (marked': set<nat>, queue': seq<Queued>)
    requires i < |table.heads| && table.Swept(start, kept, i, 0) && kept == start.Keys * marked
    requires Progress(table, start, java, marked, marked0, queue, queue0)
    modifies table
    ensures table.log == old(table.log) && |table.heads| == old(|table.heads|)
    ensures table.Swept(start, kept, i + 1, 0)
    ensures Progress(table, start, java, marked, marked', queue, queue')
    ensures table.count + |queue'| == old(table.count) + |queue0|
  {
    marked', queue' := marked0, queue0;
    var j := 0;
    while j < |table.heads[i]|
      invariant table.log == old(table.log) && |table.heads| == old(|table.heads|)
      invariant table.Swept(start, kept, i, j)
      invariant Progress(table, start, java, marked, marked', queue, queue')
      invariant table.count + |queue'| == old(table.count) + |queue0|
      decreases |table.heads[i]| - j
    {
      var cell := table.heads[i][j];
      table.CellAt(i, j);
      KeyIsOld(start, table.view, kept, cell.key);
      if cell.key !in marked' {
        marked', queue' := EnqueueCell(table, i, j, java, marked, marked', queue, queue', start, kept);
      } else {
        table.SweepOn(i, j, start, kept);
        j := j + 1;
      }
    }
    table.SweepNext(i, start, kept);
  }

  method EnqueueCell(table: Table<Finalizer>, i: nat, j: nat, java: bool, ghost marked: set<nat>, marked0: set<nat>,
                     ghost queue: seq<Queued>, queue0: seq<Queued>,
                     ghost start: map<nat, Finalizer>, ghost kept: set<nat>)
      returns (marked': set<nat>, queue': seq<Queued>)
    requires i < |table.heads| && table.Swept(start, kept, i, j) && kept == start.Keys * marked
    requires j < |table.heads[i]| && table.heads[i][j].key !in marked0
    requires Progress(table, start, java, marked, marked0, queue, queue0)
    modifies table
    ensures table.log == old(table.log) && |table.heads| == old(|table.heads|)
    ensures table.Swept(start, kept, i, j) && |table.heads[i]| == old(|table.heads[i]|) - 1
    ensures Progress(table, start, java, marked, marked', queue, queue')
    ensures table.count + |queue'| == old(table.count) + |queue0|
  {
    var cell := table.heads[i][j];
    table.CellAt(i, j);
    KeyIsOld(start, table.view, kept, cell.key);
    EnqueueOne(start, table.view.Keys, queue, queue0, cell.key);
    marked' := if java then marked0 else marked0 + {cell.key};
    queue' := [Queued(cell.key, cell.value)] + queue0;
    ghost var left := table.view.Keys;
    table.SweepAway(i, j, start, kept);
    assert table.view.Keys == left - {cell.key};
    assert start.Keys - table.view.Keys == (start.Keys - left) + {cell.key};
  }

  lemma EnqueueOne(view: map<nat, Finalizer>, left: set<nat>, queue: seq<Queued>, queue': seq<Queued>, k: nat)
    requires Enqueued(view, view.Keys - left, queue, queue') && k in left && k in view
    ensures Enqueued(view, view.Keys - (left - {k}), queue, [Queued(k, view[k])] + queue')
  {
    var S, S' := view.Keys - left, view.Keys - (left - {k});
    assert S' == S + {k};
    var longer := [Queued(k, view[k])] + queue';
    forall x | x in S'
      ensures exists i :: 0 <= i < |S'| && longer[i].base == x
    {
      if x == k {
        assert longer[0].base == x;
      } else {
        var i :| 0 <= i < |S| && queue'[i].base == x;
        assert longer[i + 1].base == x;
      }
    }
  }

  ghost function Bases(queue: seq<Queued>): set<nat> {
    set i | 0 <= i < |queue| :: queue[i].base
  }

  /** Marking one queued object, with what it leads to. */
  method MarkQueued(g: PG.Graph, marked: set<nat>, q: Queued) returns (marked': set<nat>)
    requires g.WellFormed() && marked <= g.succ.Keys && PG.Closed(g, marked) && q.base in g.succ
    requires q.base !in marked && !q.finalizer.proc.Null? ==> g.succ[q.base] <= marked + {q.base}
    ensures marked <= marked' <= g.succ.Keys && PG.Closed(g, marked')
    ensures marked' == PG.Reach(g, marked + {q.base})
  {
    marked' := marked;
    if q.base !in marked {
      if q.finalizer.proc.Null? {
        marked' := MarkFo(g, marked, q.base, Ordinary);
      }
      marked' := marked' + {q.base};
    }
    ThroughSuccessors(g, marked, q.base, marked');
  }

  lemma ThroughSuccessors(g: PG.Graph, marked: set<nat>, o: nat, m: set<nat>)
    requires g.WellFormed() && marked <= g.succ.Keys && o in g.succ
    requires marked + {o} <= m <= PG.Reach(g, marked + g.succ[o]) + {o} || m == marked + {o}
    requires PG.Closed(g, m)
    ensures m == PG.Reach(g, marked + {o})
  {
    PG.ReachHolds(g, marked + {o});
    PG.ReachIsLeast(g, marked + g.succ[o], PG.Reach(g, marked + {o}));
    PG.ReachIsLeast(g, marked + {o}, m);
  }

  /** Fourth pass, with Java finalization: mark the queued objects and what they still lead to. */
  method MarkQueue(g: PG.Graph, marked: set<nat>, queue: seq<Queued>) returns (marked': set<nat>)
    requires g.WellFormed() && marked <= g.succ.Keys && PG.Closed(g, marked)
    requires forall i :: 0 <= i < |queue| ==> queue[i].base in g.succ
    requires forall i :: 0 <= i < |queue| && queue[i].base !in marked && !queue[i].finalizer.proc.Null? ==>
               g.succ[queue[i].base] <= marked + {queue[i].base}
    ensures marked' == PG.Reach(g, marked + Bases(queue))
    ensures marked <= marked' <= g.succ.Keys && PG.Closed(g, marked')
  {
    marked' := marked;
    assert marked + Bases(queue[..0]) == marked;
    PG.ReachOfClosed(g, marked);
    for i := 0 to |queue|
      invariant marked <= marked' <= g.succ.Keys && PG.Closed(g, marked')
      invariant marked' == PG.Reach(g, marked + Bases(queue[..i]))
    {
      BasesStep(queue, i, g.succ.Keys);
      PG.ReachAgain(g, marked + Bases(queue[..i]), {queue[i].base});
      assert marked + Bases(queue[..i]) + {queue[i].base} == marked + Bases(queue[..i + 1]);
      marked' := MarkQueued(g, marked', queue[i]);
    }
    assert queue[..|queue|] == queue;
  }

  lemma BasesStep(queue: seq<Queued>, i: nat, objects: set<nat>)
    requires i < |queue| && forall j :: 0 <= j < |queue| ==> queue[j].base in objects
    ensures Bases(queue[..i + 1]) == Bases(queue[..i]) + {queue[i].base}
    ensures Bases(queue[..i]) <= objects && queue[i].base in objects
  {
    forall x | x in Bases(queue[..i]) + {queue[i].base}
      ensures x in Bases(queue[..i + 1])
    {
      if x == queue[i].base {
        assert queue[..i + 1][i] == queue[i];
      } else {
        var j :| 0 <= j < i && queue[..i][j].base == x;
        assert queue[..i + 1][j].base == x;
      }
    }
    forall x | x in Bases(queue[..i + 1])
      ensures x in Bases(queue[..i]) + {queue[i].base}
    {
      var j :| 0 <= j < i + 1 && queue[..i + 1][j].base == x;
      if j < i {
        assert queue[..i][j].base == x;
      }
    }
  }

  // ---- The order of the table does not matter ----

  lemma NeededIsClosed(t: Task)
    requires t.Sound()
    ensures t.marked + t.AllPushes() <= t.Needed() <= t.graph.succ.Keys && PG.Closed(t.graph, t.Needed())
  {
    PG.ReachHolds(t.graph, t.marked + t.AllPushes());
  }

  /** A closed set that holds the marked objects and all that their registrations can push. */
  ghost predicate Absorbs(g: PG.Graph, finalizers: map<nat, Finalizer>, marked: set<nat>, needed: set<nat>)
    requires g.WellFormed()
  {
    && marked <= needed && PG.Closed(g, needed)
    && forall k :: k in finalizers && k in g.succ && k !in marked ==>
         Pushes(g, finalizers[k].proc, k) <= needed && Tame(g, finalizers[k].proc, k)
  }

  /** Handling one more registration stays within what is needed, and covers what this one pushes. */
  lemma StepWithin(g: PG.Graph, proc: MarkProc, k: nat, before: set<nat>, needed: set<nat>, after: set<nat>)
    requires g.WellFormed() && k in g.succ && Tame(g, proc, k) && Pushes(g, proc, k) <= needed
    requires before <= needed && before <= g.succ.Keys && PG.Closed(g, before) && PG.Closed(g, needed)
    requires after == if k in before then before else PG.Reach(g, before + Pushes(g, proc, k))
    ensures before <= after <= needed && after <= g.succ.Keys && PG.Closed(g, after)
    ensures Pushes(g, proc, k) <= after
  {
    if k !in before {
      PG.ReachHolds(g, before + Pushes(g, proc, k));
      PG.ReachIsLeast(g, before + Pushes(g, proc, k), needed);
    }
  }

  lemma {:induction false} InOrderUpTo(g: PG.Graph, finalizers: map<nat, Finalizer>, order: seq<nat>,
                                       marked: set<nat>, needed: set<nat>)
    requires g.WellFormed() && Listed(g, finalizers, order)
    requires marked <= g.succ.Keys && PG.Closed(g, marked) && Absorbs(g, finalizers, marked, needed)
    ensures var m := MarkInOrder(g, finalizers, order, marked);
            && marked <= m <= needed && m <= g.succ.Keys && PG.Closed(g, m)
            && forall i :: 0 <= i < |order| && order[i] !in marked ==>
              Pushes(g, finalizers[order[i]].proc, order[i]) <= m
    decreases |order|
  {
    if order != [] {
      var n := |order| - 1;
      InOrderUpTo(g, finalizers, order[..n], marked, needed);
      var k := order[n];
      var before := MarkInOrder(g, finalizers, order[..n], marked);
      var after := MarkInOrder(g, finalizers, order, marked);
      if k in marked {
        assert after == before;
      } else {
        StepWithin(g, finalizers[k].proc, k, before, needed, after);
      }
      forall i | 0 <= i < |order| && order[i] !in marked
        ensures Pushes(g, finalizers[order[i]].proc, order[i]) <= after
      {
        if i < n {
          assert order[..n][i] == order[i];
        }
      }
    }
  }

  /** In whatever order the table lists the registrations, the same objects are found to be needed: those
      that are marked, what the mark procedures of all unmarked registered objects push, and what that
      leads to. */
  lemma OrderDoesNotMatter(t: Task, order: seq<nat>)
    requires t.Sound() && t.AllTame() && t.Lists(order)
    ensures Listed(t.graph, t.finalizers, order)
    ensures MarkInOrder(t.graph, t.finalizers, order, t.marked) == t.Needed()
  {
    NeededIsClosed(t);
    assert Absorbs(t.graph, t.finalizers, t.marked, t.Needed());
    InOrderUpTo(t.graph, t.finalizers, order, t.marked, t.Needed());
    var m := MarkInOrder(t.graph, t.finalizers, order, t.marked);
    assert t.AllPushes() <= m;
    PG.ReachIsLeast(t.graph, t.marked + t.AllPushes(), m);
  }

  lemma StepRuns(g: PG.Graph, proc: MarkProc, k: nat, before: set<nat>, after: set<nat>)
    requires g.WellFormed() && k in g.succ && before <= g.succ.Keys && PG.Closed(g, before)
    requires after == if k in before then before else PG.Reach(g, before + Pushes(g, proc, k))
    ensures before <= after <= g.succ.Keys && PG.Closed(g, after)
    ensures k !in after ==> Pushes(g, proc, k) <= after
  {
    PG.ReachHolds(g, before + Pushes(g, proc, k));
  }

  /** An object unmarked at the end was unmarked at its turn, so its mark procedure was run. */
  lemma {:induction false} UnmarkedWereRun(g: PG.Graph, finalizers: map<nat, Finalizer>, order: seq<nat>,
                                           marked: set<nat>)
    requires g.WellFormed() && Listed(g, finalizers, order) && marked <= g.succ.Keys && PG.Closed(g, marked)
    ensures var m := MarkInOrder(g, finalizers, order, marked);
            && marked <= m <= g.succ.Keys && PG.Closed(g, m)
            && forall i :: 0 <= i < |order| && order[i] !in m ==> Pushes(g, finalizers[order[i]].proc, order[i]) <= m
    decreases |order|
  {
    if order != [] {
      var n := |order| - 1;
      UnmarkedWereRun(g, finalizers, order[..n], marked);
      var before := MarkInOrder(g, finalizers, order[..n], marked);
      var after := MarkInOrder(g, finalizers, order, marked);
      StepRuns(g, finalizers[order[n]].proc, order[n], before, after);
      forall i | 0 <= i < |order| && order[i] !in after
        ensures Pushes(g, finalizers[order[i]].proc, order[i]) <= after
      {
        if i < n {
          assert order[..n][i] == order[i];
        }
      }
    }
  }

  // ---- Consequences ----

  /** What marking leads to from objects due for finalization is needed, unless the mark procedure is the
      null one. */
  ghost predicate DueAreServed(t: Task, needed: set<nat>)
    requires t.Sound()
  {
    && t.marked <= needed <= t.graph.succ.Keys && PG.Closed(t.graph, needed)
    && forall k :: k in t.Due(needed) && !t.finalizers[k].proc.Null? ==> t.graph.succ[k] <= needed + {k}
  }

  lemma InOrderServes(t: Task, order: seq<nat>)
    requires t.Sound() && t.Lists(order) && Listed(t.graph, t.finalizers, order)
    ensures DueAreServed(t, MarkInOrder(t.graph, t.finalizers, order, t.marked))
  {
    var needed := MarkInOrder(t.graph, t.finalizers, order, t.marked);
    UnmarkedWereRun(t.graph, t.finalizers, order, t.marked);
    forall k | k in t.Due(needed) && !t.finalizers[k].proc.Null?
      ensures t.graph.succ[k] <= needed + {k}
    {
      var i :| 0 <= i < |order| && order[i] == k;
      assert Pushes(t.graph, t.finalizers[k].proc, k) <= needed;
    }
  }

  /** The marks GC_finalize leaves are closed, so that nothing reachable from a retained or queued object is
      reclaimed, exactly if Java finalization is on or no queued object with the null mark procedure points
      to an object that is neither needed nor queued. */
  lemma FinalMarksAreClosed(t: Task, needed: set<nat>)
    requires t.Sound() && DueAreServed(t, needed)
    ensures PG.Closed(t.graph, t.FinalMarks(needed)) <==>
            t.java || forall k :: k in t.Due(needed) && t.finalizers[k].proc.Null? ==>
                        t.graph.succ[k] <= needed + t.Due(needed)
  {
    PG.ReachHolds(t.graph, needed + t.Due(needed));
    if !t.java {
      var m := needed + t.Due(needed);
      if PG.Closed(t.graph, m) {
        assert forall k :: k in t.Due(needed) ==> t.graph.succ[k] <= m;
      }
    }
  }

  /** The same as a condition on what is known before GC_finalize is called, if no mark procedure pushes more than
      marking leads to: no object registered under the null procedure that is not needed itself points to one that is
      neither needed nor registered. */
  lemma WhenFinalMarksAreClosed(t: Task, order: seq<nat>)
    requires t.Sound() && t.AllTame() && t.Lists(order)
    ensures Listed(t.graph, t.finalizers, order)
    ensures PG.Closed(t.graph, t.FinalMarks(MarkInOrder(t.graph, t.finalizers, order, t.marked))) <==>
            t.java || forall k :: k in t.finalizers && k !in t.Needed() && t.finalizers[k].proc.Null? ==>
                        t.graph.succ[k] <= t.Needed() + t.finalizers.Keys
  {
    OrderDoesNotMatter(t, order);
    InOrderServes(t, order);
    ClosedUnlessNullLeaves(t, t.Needed());
  }

  lemma ClosedUnlessNullLeaves(t: Task, needed: set<nat>)
    requires t.Sound() && DueAreServed(t, needed)
    ensures PG.Closed(t.graph, t.FinalMarks(needed)) <==>
            t.java || forall k :: k in t.finalizers && k !in needed && t.finalizers[k].proc.Null? ==>
                        t.graph.succ[k] <= needed + t.finalizers.Keys
  {
    FinalMarksAreClosed(t, needed);
    assert needed + t.Due(needed) == needed + t.finalizers.Keys;
  }

  /** If nothing is registered under the null procedure, they are closed, whatever is registered and in whatever
      order. */
  lemma ClosedWithoutNull(t: Task, order: seq<nat>)
    requires t.Sound() && t.Lists(order) && Listed(t.graph, t.finalizers, order)
    requires forall k :: k in t.finalizers && k !in t.marked ==> !t.finalizers[k].proc.Null?
    ensures PG.Closed(t.graph, t.FinalMarks(MarkInOrder(t.graph, t.finalizers, order, t.marked)))
  {
    InOrderServes(t, order);
    FinalMarksAreClosed(t, MarkInOrder(t.graph, t.finalizers, order, t.marked));
  }

  /** With an object 0 that points to 1 and is registered under the null procedure they are not: 0 is queued and kept,
      and 1, which it points to, is left unmarked. */
  lemma FinalMarksCanBeOpen(f: Finalizer) returns (t: Task)
    requires f.proc == Null
    ensures t.Sound() && t.AllTame() && !t.java && t.Lists([0]) && Listed(t.graph, t.finalizers, [0])
    ensures var marks := t.FinalMarks(MarkInOrder(t.graph, t.finalizers, [0], t.marked));
            marks == {0} && 1 in t.graph.succ[0] && !PG.Closed(t.graph, marks)
  {
    t := Task(PG.Graph(map[0 := {1}, 1 := {}], map[0 := {1}, 1 := {}]), {}, map[0 := f], false);
    OrderDoesNotMatter(t, [0]);
    PG.ReachOfClosed(t.graph, {});
    assert t.marked + t.AllPushes() == {};
  }

  /** An object that a chain of pointers leads back to itself is not finalized under the ordinary order, however
      the table lists the registrations. */
  lemma CycleIsNotFinalized(t: Task, order: seq<nat>, a: nat)
    requires t.Sound() && t.Lists(order) && Listed(t.graph, t.finalizers, order)
    requires a in t.finalizers && t.finalizers[a].proc.Ordinary? && PG.Reaches(t.graph, t.graph.succ[a], a)
    ensures a !in t.Due(MarkInOrder(t.graph, t.finalizers, order, t.marked))
  {
    ReachedIsNotFinalized(t, order, a, a);
  }

  /** If a leads to b, then b is not finalized in this pass, however the table lists the registrations. */
  lemma ReachedIsNotFinalized(t: Task, order: seq<nat>, a: nat, b: nat)
    requires t.Sound() && t.Lists(order) && Listed(t.graph, t.finalizers, order)
    requires a in t.finalizers && t.finalizers[a].proc.Ordinary? && PG.Reaches(t.graph, t.graph.succ[a], b)
    ensures b !in t.Due(MarkInOrder(t.graph, t.finalizers, order, t.marked))
  {
    var m := MarkInOrder(t.graph, t.finalizers, order, t.marked);
    UnmarkedWereRun(t.graph, t.finalizers, order, t.marked);
    if a !in m {
      var i :| 0 <= i < |order| && order[i] == a;
      assert Pushes(t.graph, t.finalizers[a].proc, a) <= m;
    }
    var path :| |path| > 0 && path[0] in t.graph.succ[a] && path[|path|-1] == b && PG.Path(t.graph, path);
    PG.ClosedHoldsPath(t.graph, m, path);
  }

  /** What a registration leads to without marking its object: what the object points to under the ordinary order;
      what any of its words refer to, itself excepted, where self references are ignored; nothing under the null
      procedure. */
  ghost predicate LeadsTo(t: Task, a: nat, b: nat)
    requires t.Sound() && a in t.finalizers
  {
    || (t.finalizers[a].proc.Ordinary? && PG.Reaches(t.graph, t.graph.succ[a], b))
    || (t.finalizers[a].proc.IgnoreSelf? && PG.Reaches(t.graph, t.graph.words[a] - {a}, b))
  }

  /** Conversely an unmarked registered object that no registration leads to, not even, under the ordinary order,
      its own, is finalized. */
  lemma UnreachedIsFinalized(t: Task, order: seq<nat>, b: nat)
    requires t.Sound() && t.Lists(order) && Listed(t.graph, t.finalizers, order) && b in t.finalizers && b !in t.marked
    requires forall a :: a in t.finalizers && a !in t.marked ==> !LeadsTo(t, a, b)
    ensures b in t.Due(MarkInOrder(t.graph, t.finalizers, order, t.marked))
  {
    NeverMore(t, order);
    if b in t.Needed() {
      var path :| |path| > 0 && path[0] in t.marked + t.AllPushes() && path[|path|-1] == b && PG.Path(t.graph, path);
      if path[0] in t.marked {
        PG.ClosedHoldsPath(t.graph, t.marked, path);
      } else {
        var a :| a in t.finalizers && a !in t.marked && path[0] in Pushes(t.graph, t.finalizers[a].proc, a);
        assert LeadsTo(t, a, b);
      }
    }
  }

  /** What GC_ignore_self_finalize_mark_proc is for: an unmarked object that refers to itself is finalized all the
      same, if it is registered to ignore that, nothing else that it refers to leads back to it, and no other
      registered object refers to anything that leads to it. */
  lemma SelfReferenceIsIgnored(t: Task, order: seq<nat>, a: nat)
    requires t.Sound() && t.Lists(order) && Listed(t.graph, t.finalizers, order) && a in t.finalizers && a !in t.marked
    requires t.finalizers[a].proc.IgnoreSelf? && !PG.Reaches(t.graph, t.graph.words[a] - {a}, a)
    requires forall b :: b in t.finalizers && b !in t.marked && b != a ==> !PG.Reaches(t.graph, t.graph.words[b], a)
    ensures a in t.Due(MarkInOrder(t.graph, t.finalizers, order, t.marked))
  {
    forall b | b in t.finalizers && b !in t.marked
      ensures !LeadsTo(t, b, a)
    {
      if b != a {
        FewerReach(t.graph, t.graph.succ[b], t.graph.words[b], a);
        FewerReach(t.graph, t.graph.words[b] - {b}, t.graph.words[b], a);
      }
    }
    UnreachedIsFinalized(t, order, a);
  }

  lemma FewerReach(g: PG.Graph, S: set<nat>, T: set<nat>, o: nat)
    requires S <= T
    ensures PG.Reaches(g, S, o) ==> PG.Reaches(g, T, o)
  {
    if PG.Reaches(g, S, o) {
      var path :| |path| > 0 && path[0] in S && path[|path|-1] == o && PG.Path(g, path);
      assert path[0] in T;
    }
  }

  /** If it is finalized, nothing else that it refers to, or that leads to, is finalized in this pass. */
  lemma IgnoringServesTargets(t: Task, order: seq<nat>, a: nat, b: nat)
    requires t.Sound() && t.Lists(order) && Listed(t.graph, t.finalizers, order)
    requires a in t.Due(MarkInOrder(t.graph, t.finalizers, order, t.marked)) && t.finalizers[a].proc.IgnoreSelf?
    requires PG.Reaches(t.graph, t.graph.words[a] - {a}, b)
    ensures b !in t.Due(MarkInOrder(t.graph, t.finalizers, order, t.marked))
  {
    var m := MarkInOrder(t.graph, t.finalizers, order, t.marked);
    UnmarkedWereRun(t.graph, t.finalizers, order, t.marked);
    var i :| 0 <= i < |order| && order[i] == a;
    assert Pushes(t.graph, t.finalizers[a].proc, a) <= m;
    var path :| |path| > 0 && path[0] in t.graph.words[a] - {a} && path[|path|-1] == b && PG.Path(t.graph, path);
    PG.ClosedHoldsPath(t.graph, m, path);
  }

  /** In any order, at most what is needed is found. */
  lemma {:induction false} NeverMore(t: Task, order: seq<nat>)
    requires t.Sound() && Listed(t.graph, t.finalizers, order)
    ensures t.marked <= MarkInOrder(t.graph, t.finalizers, order, t.marked) <= t.Needed()
    decreases |order|
  {
    NeededIsClosed(t);
    if order != [] {
      var n := |order| - 1;
      var k := order[n];
      NeverMore(t, order[..n]);
      var before := MarkInOrder(t.graph, t.finalizers, order[..n], t.marked);
      if k !in before {
        var pushed := Pushes(t.graph, t.finalizers[k].proc, k);
        assert pushed <= t.AllPushes();
        PG.ReachHolds(t.graph, before + pushed);
        PG.ReachIsLeast(t.graph, before + pushed, t.Needed());
      }
    }
  }

  /** A heap with three objects of three words: object 0 points to 1, whose second word looks like a pointer to 2 but is
      skipped by its descriptor, a bitmap that selects just the first. */
  function SkippingHeap(): Heap {
    Heap(1,
         [Pointer(1), NonPointer, NonPointer, NonPointer, NonPointer, NonPointer, NonPointer, Pointer(2), NonPointer],
         [Object(0, 0), Object(6, 1), Object(3, 0)],
         [Block(1, 1, 3, Length(3), Normal, [0, 2]), Block(2, 1, 3, Bitmap([true, false, false]), Normal, [1])])
  }

  lemma SkippingHeapIsSound()
    ensures SkippingHeap().WellFormed() && Inside(SkippingHeap())
  {
    var h := SkippingHeap();
    forall o: nat, p: nat | o < |h.objects| && h.MustScan(o, p)
      ensures Examines(h.unit, Whole(h, o), p)
    {
      assert o == 0 || o == 1 || o == 2;
    }
  }

  /** What the entries of the three objects examine, and where that leads. */
  ghost predicate Skipping(h: Heap) {
    && h.unit == 1 && h.At(0) == Pointer(1) && h.At(7) == Pointer(2)
    && forall p: nat {:trigger h.At(p)} :: p != 0 && p != 7 ==> h.At(p) == NonPointer
  }

  lemma SkippingTargets(h: Heap)
    requires Skipping(h)
    ensures Targets(h, Positions(1, Entry(0, Length(3)))) == {1}
    ensures Targets(h, Positions(1, Entry(3, Length(3)))) == {}
    ensures Targets(h, Positions(1, Entry(6, Length(3)))) == {2}
    ensures Targets(h, Positions(1, Entry(6, Bitmap([true, false, false])))) == {}
  {
    assert Examines(1, Entry(0, Length(3)), 0) && Examines(1, Entry(6, Length(3)), 7);
    assert !Examines(1, Entry(6, Bitmap([true, false, false])), 7);
  }

  lemma GraphAt(h: Heap, o: nat)
    requires h.WellFormed() && o < |h.objects|
    ensures o in GraphOf(h).succ && GraphOf(h).succ[o] == Targets(h, Positions(h.unit, h.EntryOf(o)))
    ensures var e := if h.EntryOf(o).descr.Length? then h.EntryOf(o) else Whole(h, o);
            o in GraphOf(h).words && GraphOf(h).words[o] == Targets(h, Positions(h.unit, e))
  {
  }

  lemma SkippingIs()
    ensures var h := SkippingHeap();
            && Skipping(h) && |h.objects| == 3
            && h.EntryOf(0) == Entry(0, Length(3)) && h.EntryOf(2) == Entry(3, Length(3))
            && h.EntryOf(1) == Entry(6, Bitmap([true, false, false])) && Whole(h, 1) == Entry(6, Length(3))
  {
  }

  lemma SkippingGraph(h: Heap)
    requires h == SkippingHeap() && h.WellFormed()
    ensures GraphOf(h).succ.Keys == {0, 1, 2} && GraphOf(h).words.Keys == {0, 1, 2}
    ensures GraphOf(h).succ[0] == {1} && GraphOf(h).succ[1] == {} && GraphOf(h).succ[2] == {}
    ensures GraphOf(h).words[0] == {1} && GraphOf(h).words[1] == {2} && GraphOf(h).words[2] == {}
  {
    SkippingIs();
    SkippingTargets(h);
    GraphAt(h, 0);
    GraphAt(h, 1);
    GraphAt(h, 2);
    assert GraphOf(h).succ.Keys == {0, 1, 2} && GraphOf(h).words.Keys == {0, 1, 2};
  }

  /** With an object that has no length descriptor registered under the procedure that ignores self references, the
      order does matter: if 0 comes first, 1 is marked when its turn comes, and 2 is finalized; if 1 comes first, 2
      is not. */
  lemma OrderMattersIfNotTame(proc: Finalizer, ignoring: Finalizer)
    returns (h: Heap, t: Task, order: seq<nat>, order': seq<nat>)
    requires proc.proc == Ordinary && ignoring.proc == IgnoreSelf
    ensures h.WellFormed() && Inside(h) && t.graph == GraphOf(h)
    ensures t.Sound() && !t.AllTame() && t.Lists(order) && t.Lists(order')
    ensures Listed(t.graph, t.finalizers, order) && Listed(t.graph, t.finalizers, order')
    ensures 2 in t.Due(MarkInOrder(t.graph, t.finalizers, order, t.marked))
    ensures 2 !in t.Due(MarkInOrder(t.graph, t.finalizers, order', t.marked))
  {
    h := SkippingHeap();
    SkippingHeapIsSound();
    SkippingGraph(h);
    t := Task(GraphOf(h), {}, map[0 := proc, 1 := ignoring, 2 := proc], false);
    order, order' := [0, 1, 2], [1, 0, 2];
    OrdersDiffer(t, proc, ignoring);
  }

  lemma OrdersDiffer(t: Task, proc: Finalizer, ignoring: Finalizer)
    requires proc.proc == Ordinary && ignoring.proc == IgnoreSelf
    requires t.graph.succ.Keys == {0, 1, 2} && t.graph.words.Keys == {0, 1, 2}
    requires t.graph.succ[0] == {1} && t.graph.succ[1] == {} && t.graph.succ[2] == {}
    requires t.graph.words[0] == {1} && t.graph.words[1] == {2} && t.graph.words[2] == {}
    requires t.marked == {} && t.finalizers == map[0 := proc, 1 := ignoring, 2 := proc]
    ensures t.Sound() && !t.AllTame() && t.Lists([0, 1, 2]) && t.Lists([1, 0, 2])
    ensures Listed(t.graph, t.finalizers, [0, 1, 2]) && Listed(t.graph, t.finalizers, [1, 0, 2])
    ensures 2 in t.Due(MarkInOrder(t.graph, t.finalizers, [0, 1, 2], t.marked))
    ensures 2 !in t.Due(MarkInOrder(t.graph, t.finalizers, [1, 0, 2], t.marked))
  {
    assert !Tame(t.graph, IgnoreSelf, 1);
    SecondIsDue(t.graph, t.finalizers);
    SecondIsNeeded(t.graph, t.finalizers);
  }

  /** One step of MarkInOrder whose outcome is known to be closed. */
  lemma StepTo(g: PG.Graph, finalizers: map<nat, Finalizer>, order: seq<nat>, k: nat, before: set<nat>, after: set<nat>)
    requires g.WellFormed() && Listed(g, finalizers, order) && k in finalizers && k in g.succ
    requires MarkInOrder(g, finalizers, order, {}) == before <= g.succ.Keys
    requires after == (if k in before then before else before + Pushes(g, finalizers[k].proc, k)) && PG.Closed(g, after)
    ensures Listed(g, finalizers, order + [k]) && MarkInOrder(g, finalizers, order + [k], {}) == after
  {
    MarkInOrderStep(g, finalizers, order, k, {});
    PG.ReachOfClosed(g, after);
  }

  /** The graph of the example. */
  ghost predicate Example(g: PG.Graph, finalizers: map<nat, Finalizer>) {
    && g.WellFormed() && g.succ.Keys == {0, 1, 2} && finalizers.Keys == {0, 1, 2}
    && PG.Closed(g, {1}) && PG.Closed(g, {2}) && PG.Closed(g, {1, 2})
    && Pushes(g, finalizers[0].proc, 0) == {1} && Pushes(g, finalizers[1].proc, 1) == {2}
    && Pushes(g, finalizers[2].proc, 2) == {}
  }

  lemma SecondIsDue(g: PG.Graph, finalizers: map<nat, Finalizer>)
    requires Example(g, finalizers)
    ensures Listed(g, finalizers, [0, 1, 2]) && MarkInOrder(g, finalizers, [0, 1, 2], {}) == {1}
  {
    StepTo(g, finalizers, [], 0, {}, {1});
    assert [] + [0] == [0];
    StepTo(g, finalizers, [0], 1, {1}, {1});
    assert [0] + [1] == [0, 1];
    StepTo(g, finalizers, [0, 1], 2, {1}, {1});
    assert [0, 1] + [2] == [0, 1, 2];
  }

  lemma SecondIsNeeded(g: PG.Graph, finalizers: map<nat, Finalizer>)
    requires Example(g, finalizers)
    ensures Listed(g, finalizers, [1, 0, 2]) && MarkInOrder(g, finalizers, [1, 0, 2], {}) == {1, 2}
  {
    StepTo(g, finalizers, [], 1, {}, {2});
    assert [] + [1] == [1];
    StepTo(g, finalizers, [1], 0, {2}, {1, 2});
    assert [1] + [0] == [1, 0];
    StepTo(g, finalizers, [1, 0], 2, {1, 2}, {1, 2});
    assert [1, 0] + [2] == [1, 0, 2];
  }

  /** The registrations view' after registering f for obj, or unregistering it if its function is 0, where `possible`
      says whether a new entry can be made: other objects keep theirs; a known object gets the new one, though its size
      stays; a new one gets it if that is possible. */
  ghost predicate IsRegistered(view: map<nat, Finalizer>, obj: nat, f: Finalizer, possible: bool,
                               view': map<nat, Finalizer>) {
    && (forall k :: k != obj ==> (k in view' <==> k in view))
    && (forall k :: k != obj && k in view ==> view'[k] == view[k])
    && (f.fn == 0 ==> obj !in view')
    && (f.fn != 0 && obj in view ==>
          obj in view' && view'[obj].fn == f.fn && view'[obj].data == f.data && view'[obj].proc == f.proc
          && view'[obj].size == view[obj].size)
    && (f.fn != 0 && obj !in view ==> (obj in view' <==> possible) && (obj in view' ==> view'[obj] == f))
  }

  /** The work of GC_register_finalizer_inner in the table, if there is one then. */
  method Register(table: Table<Finalizer>, obj: nat, f: Finalizer, inHeap: bool, growth: bool, memory: bool)
      returns (oldFn: nat, oldData: nat, failed: bool, noTable: bool)
    requires table.Valid()
    modifies table
    ensures table.Valid()
    ensures noTable <==> old(table.log) == -1 && !growth
    ensures noTable ==> table.log == -1 && table.view == old(table.view) && !failed
    ensures !noTable ==> Replaced(old(table.view), obj, f, inHeap, memory, oldFn, oldData, failed, table.view)
    ensures old(table.Loaded()) && growth ==> table.Loaded()
  {
    oldFn, oldData, failed := 0, 0, false;
    table.Prepare(growth);
    noTable := table.log == -1;
    if !noTable {
      oldFn, oldData, failed := RegisterIn(table, obj, f, inHeap, memory);
    }
  }

  /** What registering comes to once there is a table. */
  ghost predicate Replaced(view: map<nat, Finalizer>, obj: nat, f: Finalizer, inHeap: bool, memory: bool,
                           oldFn: nat, oldData: nat, failed: bool, view': map<nat, Finalizer>) {
    && (if obj in view then oldFn == view[obj].fn && oldData == view[obj].data else oldFn == 0 && oldData == 0)
    && IsRegistered(view, obj, f, inHeap && memory, view')
    && (failed <==> obj !in view && f.fn != 0 && inHeap && !memory)
  }

  method RegisterIn(table: Table<Finalizer>, obj: nat, f: Finalizer, inHeap: bool, memory: bool)
      returns (oldFn: nat, oldData: nat, failed: bool)
    requires table.Valid() && table.log >= 0
    modifies table
    ensures table.Valid() && table.log == old(table.log) && table.count <= old(table.count) + 1
    ensures Replaced(old(table.view), obj, f, inHeap, memory, oldFn, oldData, failed, table.view)
  {
    var i := table.hash(obj, table.log);
    var j := table.Find(obj);
    failed := false;
    if j < |table.heads[i]| {
      var was := table.heads[i][j].value;
      oldFn, oldData := was.fn, was.data;
      if f.fn == 0 {
        table.RemoveAt(i, j);
      } else {
        table.SetAt(i, j, f.(size := was.size));
      }
      return;
    }
    oldFn, oldData := 0, 0;
    assert table.view - {obj} == table.view;
    if f.fn != 0 && inHeap {
      if memory {
        table.Add(obj, f);
      } else {
        failed := true;
      }
    }
  }

  /** Clearing words takes pointers away; it adds none. */
  ghost predicate Clears(h: Heap, h': Heap) {
    && h' == h.(mem := h'.mem) && |h'.mem| == |h.mem|
    && forall p :: 0 <= p < |h.mem| ==> h'.mem[p] == NonPointer || h'.mem[p] == h.mem[p]
  }

  lemma ClearedIsWellFormed(h: Heap, h': Heap)
    requires h.WellFormed() && Inside(h) && Clears(h, h')
    ensures h'.WellFormed() && Inside(h') && h'.Ids() == h.Ids()
  {
    forall b | 0 <= b < |h'.blocks|
      ensures h'.WellFormedBlock(b)
    {
      assert h.WellFormedBlock(b);
    }
    forall o: nat, p: nat | o < |h'.objects| && h'.MustScan(o, p)
      ensures Examines(h'.unit, Whole(h', o), p)
    {
      assert h.MustScan(o, p);
    }
  }

  lemma FewerTargets(h: Heap, h': Heap, positions: set<nat>)
    requires Clears(h, h')
    ensures Targets(h', positions) <= Targets(h, positions)
  {
    forall q | q in Targets(h', positions)
      ensures q in Targets(h, positions)
    {
      var p :| p in positions && h'.At(p) == Pointer(q);
      assert h.At(p) == Pointer(q);
    }
  }

  lemma ClearedIsClosed(h: Heap, h': Heap, marked: set<nat>)
    requires h.WellFormed() && h'.WellFormed() && Clears(h, h') && PG.Closed(GraphOf(h), marked)
    ensures PG.Closed(GraphOf(h'), marked)
  {
    forall a | a in marked && a in GraphOf(h').succ
      ensures GraphOf(h').succ[a] <= marked
    {
      FewerTargets(h, h', Positions(h.unit, h.EntryOf(a)));
    }
  }

  lemma UseCleared(h: Heap, h': Heap, marked: set<nat>, keys: set<nat>)
    requires h.WellFormed() && Inside(h) && Clears(h, h') && PG.Closed(GraphOf(h), marked)
    requires marked <= h.Ids() && keys <= h.Ids()
    ensures h'.WellFormed() && Inside(h') && h'.Ids() == h.Ids()
    ensures GraphOf(h').WellFormed() && GraphOf(h').succ.Keys == h.Ids() && PG.Closed(GraphOf(h'), marked)
  {
    ClearedIsWellFormed(h, h');
    ClearedIsClosed(h, h', marked);
    GraphIsWellFormed(h');
  }

  /** The order lists the registrations, and `needed` is what running their mark procedures in it marks. */
  ghost predicate FoundNeeded(t: Task, order: seq<nat>, needed: set<nat>)
    requires t.Sound()
  {
    && t.Lists(order) && Listed(t.graph, t.finalizers, order)
    && needed == MarkInOrder(t.graph, t.finalizers, order, t.marked)
  }

  /** What GC_finalize makes of a task, given the objects found to be needed. */
  ghost predicate Outcome(t: Task, needed: set<nat>, view: map<nat, Finalizer>, marks: set<nat>,
                          queue: seq<Queued>, queue': seq<Queued>)
    requires t.Sound()
  {
    && DueAreServed(t, needed)
    && view.Keys == t.finalizers.Keys - t.Due(needed)
    && (forall k :: k in view ==> view[k] == t.finalizers[k])
    && Enqueued(t.finalizers, t.Due(needed), queue, queue')
    && marks == t.FinalMarks(needed)
  }

  /** The queued objects are those due and those already marked. */
  lemma QueueIsServed(t: Task, needed: set<nat>, queue: seq<Queued>, queue': seq<Queued>)
    requires t.Sound() && DueAreServed(t, needed) && Bases(queue) <= t.marked
    requires Enqueued(t.finalizers, t.Due(needed), queue, queue')
    ensures forall i :: 0 <= i < |queue'| ==> queue'[i].base in t.graph.succ
    ensures forall i :: 0 <= i < |queue'| && queue'[i].base !in needed && !queue'[i].finalizer.proc.Null? ==>
              t.graph.succ[queue'[i].base] <= needed + {queue'[i].base}
    ensures needed + Bases(queue') == needed + t.Due(needed)
  {
    var n := |t.Due(needed)|;
    forall i | n <= i < |queue'|
      ensures queue'[i].base in t.marked
    {
      assert queue'[i] == queue[i - n];
      assert queue[i - n].base in Bases(queue);
    }
  }

  /** Passes three and four of GC_finalize. */
  method TakeDue(table: Table<Finalizer>, ghost t: Task, needed: set<nat>, queue: seq<Queued>, g: PG.Graph, java: bool)
      returns (marked: set<nat>, queue': seq<Queued>)
    requires table.Valid() && t.Sound() && t.finalizers == table.view && t.graph == g && t.java == java
    requires DueAreServed(t, needed) && Bases(queue) <= t.marked
    modifies table
    ensures table.Valid() && table.log == old(table.log)
    ensures Outcome(t, needed, table.view, marked, queue, queue') && marked <= g.succ.Keys
    ensures table.count + |queue'| == old(table.count) + |queue|
  {
    marked, queue' := EnqueueDue(table, java, needed, queue);
    DueIs(t, needed);
    if java {
      marked := MarkAllQueued(t, needed, queue, queue', g);
    }
    OutcomeOf(t, needed, table.view, marked, queue, queue');
  }

  lemma DueIs(t: Task, needed: set<nat>)
    requires t.Sound() && DueAreServed(t, needed)
    ensures t.Due(needed) == t.finalizers.Keys - needed
    ensures t.finalizers.Keys - t.Due(needed) == t.finalizers.Keys * needed
    ensures t.Due(needed) <= t.graph.succ.Keys
  {
  }

  lemma OutcomeOf(t: Task, needed: set<nat>, view: map<nat, Finalizer>, marks: set<nat>, queue: seq<Queued>,
                  queue': seq<Queued>)
    requires t.Sound() && DueAreServed(t, needed) && Enqueued(t.finalizers, t.Due(needed), queue, queue')
    requires view.Keys == t.finalizers.Keys * needed && forall k :: k in view ==> view[k] == t.finalizers[k]
    requires marks == if t.java then PG.Reach(t.graph, needed + t.Due(needed)) else needed + t.Due(needed)
    ensures Outcome(t, needed, view, marks, queue, queue')
  {
    DueIs(t, needed);
  }

  /** The fourth pass. */
  method MarkAllQueued(ghost t: Task, needed: set<nat>, ghost queue: seq<Queued>, queue': seq<Queued>, g: PG.Graph)
      returns (marked: set<nat>)
    requires t.Sound() && t.graph == g && DueAreServed(t, needed) && Bases(queue) <= t.marked
    requires Enqueued(t.finalizers, t.Due(needed), queue, queue')
    ensures marked == PG.Reach(g, needed + t.Due(needed)) && marked <= g.succ.Keys
  {
    QueueIsServed(t, needed, queue, queue');
    marked := MarkQueue(g, needed, queue');
  }

  /** Passes two to four of GC_finalize. */
  method FinalizeObjects(table: Table<Finalizer>, ghost t: Task, g: PG.Graph, marked: set<nat>, queue: seq<Queued>,
                         java: bool)
      returns (marked': set<nat>, queue': seq<Queued>, ghost needed: set<nat>)
    requires table.Valid() && t == Task(g, marked, table.view, java) && t.Sound() && Bases(queue) <= marked
    modifies table
    ensures table.Valid() && table.log == old(table.log)
    ensures FoundNeeded(t, Order(old(table.heads)), needed)
    ensures Outcome(t, needed, table.view, marked', queue, queue')
    ensures marked' <= g.succ.Keys
    ensures table.count + |queue'| == old(table.count) + |queue|
  {
    OrderIsComplete(table);
    var found := MarkFromFinalizable(table, g, marked);
    needed := found;
    InOrderServes(t, Order(table.heads));
    marked', queue' := TakeDue(table, t, found, queue, g, java);
  }

  /** The surviving links: those whose object was marked at the start and whose container, if there is one,
      is marked at the end. */
  ghost predicate LinksLeft(links: map<nat, nat>, before: set<nat>, container: map<nat, nat>, after: set<nat>,
                            left: map<nat, nat>) {
    && (forall p :: p in left <==> p in links && links[p] in before && (p in container ==> container[p] in after))
    && (forall p :: p in left ==> left[p] == links[p])
  }

  lemma LinksInTwoPasses(links: map<nat, nat>, before: set<nat>, live: map<nat, nat>, container: map<nat, nat>,
                         after: set<nat>, left: map<nat, nat>)
    requires live == map p | p in links && links[p] in before :: links[p]
    requires left == map p | p in live && (p in container ==> container[p] in after) :: live[p]
    ensures LinksLeft(links, before, container, after, left)
  {
  }

  // ---- Enqueueing all that is registered ----

  /** Marking an object and all that it leads to, whether it was marked or not: GC_MARK_FO with the ordinary
      mark procedure, and then the object's own mark bit.  Marking goes on through unmarked objects only. */
  method MarkWhole(g: PG.Graph, marked: set<nat>, o: nat) returns (marked': set<nat>)
    requires g.WellFormed() && marked <= g.succ.Keys && o in g.succ
    ensures MarkedFrom(g, marked, {o}, marked')
  {
    marked' := MarkAll(g, marked, g.succ[o]);
    marked' := marked' + {o};
    forall T {:trigger Reached(g, marked, {o}, T)} | marked + {o} <= T && Reached(g, marked, {o}, T)
      ensures marked' <= T
    {
      assert Spreads(g, marked, T);
    }
  }

  /** The objects of T that are in S or not in marked lead only to objects of T. */
  ghost predicate Reached(g: PG.Graph, marked: set<nat>, S: set<nat>, T: set<nat>) {
    forall a :: a in T && (a in S || a !in marked) && a in g.succ ==> g.succ[a] <= T
  }

  /** T is what becomes of the marks if those in S are marked with all that they lead to through unmarked objects. */
  ghost predicate MarkedFrom(g: PG.Graph, marked: set<nat>, S: set<nat>, T: set<nat>) {
    && marked + S <= T <= g.succ.Keys && Reached(g, marked, S, T)
    && forall U {:trigger Reached(g, marked, S, U)} :: marked + S <= U && Reached(g, marked, S, U) ==> T <= U
  }

  /** If the marks were closed, that is all that they and those in S reach. */
  lemma MarkedFromClosed(g: PG.Graph, marked: set<nat>, S: set<nat>, T: set<nat>)
    requires g.WellFormed() && marked + S <= g.succ.Keys && PG.Closed(g, marked) && MarkedFrom(g, marked, S, T)
    ensures T == PG.Reach(g, marked + S) && PG.Closed(g, T)
  {
    PG.ReachHolds(g, marked + S);
    assert Reached(g, marked, S, PG.Reach(g, marked + S));
    PG.ReachIsLeast(g, marked + S, T);
  }

  lemma MarkedFromStep(g: PG.Graph, marked: set<nat>, S: set<nat>, m: set<nat>, k: nat, m': set<nat>)
    requires MarkedFrom(g, marked, S, m) && MarkedFrom(g, m, {k}, m') && k in g.succ
    ensures MarkedFrom(g, marked, S + {k}, m')
  {
    forall U {:trigger Reached(g, marked, S + {k}, U)} | marked + (S + {k}) <= U && Reached(g, marked, S + {k}, U)
      ensures m' <= U
    {
      assert Reached(g, marked, S, U);
      assert Reached(g, m, {k}, U);
    }
  }

  /** The same, and if the marks were closed, T is all that they and those in S reach. */
  ghost predicate KeptWithAll(g: PG.Graph, marked: set<nat>, S: set<nat>, T: set<nat>) {
    MarkedFrom(g, marked, S, T) && (PG.Closed(g, marked) ==> T == PG.Reach(g, marked + S) && PG.Closed(g, T))
  }

  /** The given registrations have been enqueued, and their objects marked with all that they lead to. */
  ghost predicate AllGone(start: map<nat, Finalizer>, gone: set<nat>, g: PG.Graph, marked: set<nat>,
                          marked': set<nat>, queue: seq<Queued>, queue': seq<Queued>)
  {
    gone <= start.Keys && MarkedFrom(g, marked, gone, marked') && Enqueued(start, gone, queue, queue')
  }

  lemma OneGone(start: map<nat, Finalizer>, gone: set<nat>, g: PG.Graph, marked: set<nat>, marked0: set<nat>,
                marked': set<nat>, queue: seq<Queued>, queue0: seq<Queued>, k: nat)
    requires k in g.succ && k in start && k !in gone
    requires AllGone(start, gone, g, marked, marked0, queue, queue0) && MarkedFrom(g, marked0, {k}, marked')
    ensures AllGone(start, gone + {k}, g, marked, marked', queue, [Queued(k, start[k])] + queue0)
  {
    MarkedFromStep(g, marked, gone, marked0, k, marked');
    assert start.Keys - (start.Keys - gone) == gone;
    EnqueueOne(start, start.Keys - gone, queue, queue0, k);
    assert start.Keys - ((start.Keys - gone) - {k}) == gone + {k};
  }

  /** One chain of the table. */
  method EnqueueAllChain(table: Table<Finalizer>, i: nat, g: PG.Graph, ghost marked: set<nat>, marked0: set<nat>,
                         ghost queue: seq<Queued>, queue0: seq<Queued>, ghost start: map<nat, Finalizer>)
      returns (marked': set<nat>, queue': seq<Queued>)
    requires g.WellFormed() && marked <= g.succ.Keys && start.Keys <= g.succ.Keys
    requires i < |table.heads| && table.Swept(start, {}, i, 0)
    requires AllGone(start, start.Keys - table.view.Keys, g, marked, marked0, queue, queue0)
    modifies table
    ensures table.log == old(table.log) && |table.heads| == old(|table.heads|) && table.Swept(start, {}, i + 1, 0)
    ensures AllGone(start, start.Keys - table.view.Keys, g, marked, marked', queue, queue')
    ensures table.count + |queue'| == old(table.count) + |queue0|
  {
    marked', queue' := marked0, queue0;
    while 0 < |table.heads[i]|
      invariant table.log == old(table.log) && |table.heads| == old(|table.heads|)
      invariant table.Swept(start, {}, i, 0)
      invariant AllGone(start, start.Keys - table.view.Keys, g, marked, marked', queue, queue')
      invariant table.count + |queue'| == old(table.count) + |queue0|
      decreases |table.heads[i]|
    {
      marked', queue' := EnqueueFirst(table, i, g, marked, marked', queue, queue', start);
    }
    table.SweepNext(i, start, {});
  }

  /** The registration that is first in its chain. */
  method EnqueueFirst(table: Table<Finalizer>, i: nat, g: PG.Graph, ghost marked: set<nat>, marked0: set<nat>,
                      ghost queue: seq<Queued>, queue0: seq<Queued>, ghost start: map<nat, Finalizer>)
      returns (marked': set<nat>, queue': seq<Queued>)
    requires g.WellFormed() && marked <= g.succ.Keys && start.Keys <= g.succ.Keys
    requires i < |table.heads| && table.Swept(start, {}, i, 0) && 0 < |table.heads[i]|
    requires AllGone(start, start.Keys - table.view.Keys, g, marked, marked0, queue, queue0)
    modifies table
    ensures table.log == old(table.log) && |table.heads| == old(|table.heads|)
    ensures table.Swept(start, {}, i, 0) && |table.heads[i]| == old(|table.heads[i]|) - 1
    ensures AllGone(start, start.Keys - table.view.Keys, g, marked, marked', queue, queue')
    ensures table.count + |queue'| == old(table.count) + |queue0|
  {
    var cell := table.heads[i][0];
    table.CellAt(i, 0);
    KeyIsOld(start, table.view, {}, cell.key);
    ghost var left := table.view.Keys;
    marked' := MarkWhole(g, marked0, cell.key);
    queue' := [Queued(cell.key, cell.value)] + queue0;
    OneGone(start, start.Keys - left, g, marked, marked0, marked', queue, queue0, cell.key);
    table.SweepAway(i, 0, start, {});
    assert start.Keys - table.view.Keys == (start.Keys - left) + {cell.key};
  }

  /** GC_enqueue_all_finalizers, for a table. */
  method EnqueueAll(table: Table<Finalizer>, g: PG.Graph, marked: set<nat>, queue: seq<Queued>)
      returns (marked': set<nat>, queue': seq<Queued>)
    requires table.Valid() && g.WellFormed() && marked <= g.succ.Keys
    requires table.view.Keys <= g.succ.Keys
    modifies table
    ensures table.Valid() && table.log == old(table.log) && table.view == map[]
    ensures AllGone(old(table.view), old(table.view.Keys), g, marked, marked', queue, queue')
    ensures table.count == 0 && |queue'| == old(table.count) + |queue|
  {
    marked', queue' := marked, queue;
    ghost var start := table.view;
    assert start.Keys - table.view.Keys == {};
    NoneGone(start, g, marked, queue);
    var i := 0;
    while i < |table.heads|
      invariant table.Swept(start, {}, i, 0) && table.log == old(table.log)
      invariant AllGone(start, start.Keys - table.view.Keys, g, marked, marked', queue, queue')
      invariant table.count + |queue'| == old(table.count) + |queue|
      decreases |table.heads| - i
    {
      marked', queue' := EnqueueAllChain(table, i, g, marked, marked', queue, queue', start);
      i := i + 1;
    }
    table.SweepDone(start, {});
    assert table.view.Keys == {};
    assert start.Keys - table.view.Keys == start.Keys;
  }

  lemma NoneGone(start: map<nat, Finalizer>, g: PG.Graph, marked: set<nat>, queue: seq<Queued>)
    requires g.WellFormed() && marked <= g.succ.Keys
    ensures AllGone(start, {}, g, marked, marked, queue, queue)
  {
  }

  class Finalizers {
    const container: map<nat, nat>   // GC_base of link addresses inside the heap
    const java: bool                 // GC_java_finalization
    const links: Table<nat>
    const finalizers: Table<Finalizer>
    var heap: Heap
    var marked: set<nat>
    var queue: seq<Queued>           // GC_finalize_now
    var failures: nat                // GC_finalization_failures

    ghost predicate Valid()
      reads this, links, finalizers
    {
      && TablesValid()
      && heap.WellFormed() && Inside(heap) && marked <= heap.Ids()
      && (forall k :: k in finalizers.view ==> k < |heap.objects|)
    }

    constructor (h: Heap, containers: map<nat, nat>, javaFinalization: bool)
      requires h.WellFormed() && Inside(h)
      ensures Valid() && fresh(links) && fresh(finalizers)
      ensures heap == h && container == containers && java == javaFinalization
      ensures links.view == map[] && finalizers.view == map[] && queue == [] && marked == {} && failures == 0
    {
      heap, container, java := h, containers, javaFinalization;
      marked, queue, failures := {}, [], 0;
      links := new Table<nat>(Hash);
      finalizers := new Table<Finalizer>(Hash);
    }

    // ---- Registration ----

    /** GC_general_register_disappearing_link.  `growth` and `memory` say whether the table can grow and
        whether an entry can be allocated.  Returns 1 if the link was registered before, else 0.

        `noTable` says that the very first table could not be allocated.  GC_grow_table means to abort then, but tests
        the address of the table pointer; the source goes on with a null table, shifting by a size of -1, and what it
        does is undefined. */
    method RegisterDisappearingLink(link: nat, obj: nat, growth: bool, memory: bool) returns (r: int, noTable: bool)
      requires Valid()
      modifies links, this`failures
      ensures Valid()
      ensures noTable <==> old(links.log) == -1 && !growth
      ensures noTable ==> links.log == -1 && links.view == old(links.view) && failures == old(failures)
      ensures !noTable ==> r == if link in old(links.view) then 1 else 0
      ensures !noTable ==>
                links.view ==
                if link in old(links.view) || memory then old(links.view)[link := obj] else old(links.view)
      ensures !noTable ==> failures == old(failures) + (if link in old(links.view) || memory then 0 else 1)
      ensures old(links.Loaded()) && growth ==> links.Loaded()
    {
      r := 0;
      links.Prepare(growth);
      noTable := links.log == -1;
      if noTable { return; }
      var j := links.Find(link);
      if j < |links.heads[links.hash(link, links.log)]| {
        links.SetAt(links.hash(link, links.log), j, obj);
        r := 1;
        return;
      }
      if !memory {
        failures := failures + 1;
        return;
      }
      links.Add(link, obj);
    }

    /** GC_unregister_disappearing_link.  Before any table has been made it shifts by a size of -1 as well. */
    method UnregisterDisappearingLink(link: nat) returns (r: int, noTable: bool)
      requires Valid()
      modifies links
      ensures Valid()
      ensures noTable <==> old(links.log) == -1
      ensures !noTable ==> r == if link in old(links.view) then 1 else 0
      ensures links.view == if noTable then old(links.view) else old(links.view) - {link}
      ensures links.log == old(links.log) && (old(links.Loaded()) ==> links.Loaded())
    {
      r := 0;
      noTable := links.log == -1;
      if noTable { return; }
      var j := links.Find(link);
      if j < |links.heads[links.hash(link, links.log)]| {
        links.RemoveAt(links.hash(link, links.log), j);
        r := 1;
        return;
      }
      assert links.view - {link} == links.view;
    }

    /** GC_register_finalizer_inner: register fn for obj, or unregister if fn is 0; the old finalizer and
        client data are returned, as 0 if there were none.  `noTable` is as for links. */
    method RegisterFinalizer(obj: nat, fn: nat, data: nat, proc: MarkProc, growth: bool, memory: bool)
        returns (oldFn: nat, oldData: nat, noTable: bool)
      requires Valid()
      modifies finalizers, this`failures
      ensures Valid()
      ensures noTable <==> old(finalizers.log) == -1 && !growth
      ensures noTable ==> finalizers.log == -1 && finalizers.view == old(finalizers.view) && failures == old(failures)
      ensures !noTable ==>
                if obj in old(finalizers.view)
                then oldFn == old(finalizers.view)[obj].fn && oldData == old(finalizers.view)[obj].data
                else oldFn == 0 && oldData == 0
      ensures !noTable ==> forall k :: k != obj ==> (k in finalizers.view <==> k in old(finalizers.view))
      ensures !noTable ==>
                forall k :: k != obj && k in finalizers.view ==> finalizers.view[k] == old(finalizers.view)[k]
      ensures !noTable && fn == 0 ==> obj !in finalizers.view
      ensures !noTable && fn != 0 ==>
                (obj in finalizers.view <==> obj in old(finalizers.view) || (obj < |heap.objects| && memory))
      ensures !noTable && obj in finalizers.view ==>
                && finalizers.view[obj].fn == fn
                && finalizers.view[obj].data == data
                && finalizers.view[obj].proc == proc
                && finalizers.view[obj].size == if obj in old(finalizers.view) then old(finalizers.view)[obj].size
                                                else heap.blocks[heap.objects[obj].block].words
      ensures !noTable ==>
                failures ==
                old(failures) +
                if obj !in old(finalizers.view) && fn != 0 && obj < |heap.objects| && !memory then 1 else 0
      ensures old(finalizers.Loaded()) && growth ==> finalizers.Loaded()
    {
      var failed;
      oldFn, oldData, failed, noTable :=
        Register(finalizers, obj, Finalizer(fn, data, SizeOf(obj), proc), obj < |heap.objects|, growth, memory);
      if failed {
        failures := failures + 1;
      }
    }

    function SizeOf(obj: nat): nat
      requires heap.WellFormed()
      reads this
    {
      if obj < |heap.objects| then heap.blocks[heap.objects[obj].block].words else 0
    }

    // ---- Collection ----

    /** GC_finalize, called when marking is complete. */
    method Finalize() returns (ghost t: Task, ghost needed: set<nat>)
      requires Valid() && PG.Closed(GraphOf(heap), marked) && Bases(queue) <= marked
      modifies this, links, finalizers
      ensures Valid()
      ensures heap == old(heap).(mem := heap.mem)
      ensures Zeroed(old(heap).mem, DeadKeys(old(links.view), old(marked)), heap.mem)
      ensures t == Task(GraphOf(heap), old(marked), old(finalizers.view), java) && t.Sound()
      ensures FoundNeeded(t, Order(old(finalizers.heads)), needed)
      ensures Outcome(t, needed, finalizers.view, marked, old(queue), queue)
      ensures LinksLeft(old(links.view), old(marked), container, marked, links.view)
      ensures finalizers.count + |queue| == old(finalizers.count) + |old(queue)|
    {
      var g := ClearLinks();
      ghost var live := links.view;
      t, needed := FinalizeGraph(g);
      LinksInTwoPasses(old(links.view), old(marked), live, container, marked, links.view);
    }

    /** The first pass, which leaves fewer pointers in memory. */
    method ClearLinks() returns (g: PG.Graph)
      requires Valid() && PG.Closed(GraphOf(heap), marked)
      modifies this`heap, links
      ensures Valid() && g == GraphOf(heap) && g.WellFormed() && g.succ.Keys == heap.Ids() && PG.Closed(g, marked)
      ensures heap == old(heap).(mem := heap.mem) && Zeroed(old(heap).mem, DeadKeys(old(links.view), marked), heap.mem)
      ensures links.view == map p | p in old(links.view) && old(links.view)[p] in marked :: old(links.view)[p]
    {
      ghost var before := heap;
      ClearMemory();
      UseCleared(before, heap, marked, finalizers.view.Keys);
      g := GraphOf(heap);
    }

    method ClearMemory()
      requires TablesValid()
      modifies this`heap, links
      ensures TablesValid()
      ensures heap == old(heap).(mem := heap.mem) && Zeroed(old(heap).mem, DeadKeys(old(links.view), marked), heap.mem)
      ensures links.view == map p | p in old(links.view) && old(links.view)[p] in marked :: old(links.view)[p]
    {
      var mem := ClearDeadLinks(links, heap.mem, marked);
      heap := heap.(mem := mem);
    }

    ghost predicate TablesValid()
      reads this, links, finalizers
    {
      && (links as object) != finalizers && (links as object) != this && (finalizers as object) != this
      && links.Valid() && finalizers.Valid()
    }

    /** The passes after dead links have been cleared. */
    method FinalizeGraph(g: PG.Graph) returns (ghost t: Task, ghost needed: set<nat>)
      requires Valid() && g == GraphOf(heap) && g.succ.Keys == heap.Ids() && g.WellFormed()
      requires PG.Closed(g, marked) && Bases(queue) <= marked
      modifies this`marked, this`queue, links, finalizers
      ensures Valid()
      ensures t == Task(g, old(marked), old(finalizers.view), java) && t.Sound()
      ensures FoundNeeded(t, Order(old(finalizers.heads)), needed)
      ensures Outcome(t, needed, finalizers.view, marked, old(queue), queue)
      ensures links.view ==
              map p | p in old(links.view) && (p in container ==> container[p] in marked) :: old(links.view)[p]
      ensures finalizers.count + |queue| == old(finalizers.count) + |old(queue)|
    {
      t := Task(g, marked, finalizers.view, java);
      marked, queue, needed := FinalizeObjects(finalizers, t, g, marked, queue, java);
      DropDanglingLinks(links, container, marked);
    }

    /** GC_enqueue_all_finalizers: all that is registered is enqueued, and marked with all that it leads to through
        unmarked objects; if the marks were closed, that is all that is reachable. */
    method EnqueueAllFinalizers() returns (g: PG.Graph)
      requires Valid()
      modifies this`marked, this`queue, finalizers
      ensures Valid() && g == GraphOf(heap)
      ensures finalizers.view == map[] && |queue| == old(finalizers.count) + |old(queue)|
      ensures Enqueued(old(finalizers.view), old(finalizers.view.Keys), old(queue), queue)
      ensures KeptWithAll(g, old(marked), old(finalizers.view.Keys), marked)
    {
      g := HeapAsGraph();
      EnqueueAllIn(g);
    }

    method HeapAsGraph() returns (g: PG.Graph)
      requires heap.WellFormed() && Inside(heap)
      ensures g == GraphOf(heap) && g.WellFormed() && g.succ.Keys == heap.Ids()
    {
      g := GraphOf(heap);
      GraphIsWellFormed(heap);
    }

    /** The work of GC_enqueue_all_finalizers, in a given graph. */
    method EnqueueAllIn(g: PG.Graph)
      requires Valid() && g.WellFormed() && g.succ.Keys == heap.Ids()
      modifies this`marked, this`queue, finalizers
      ensures Valid()
      ensures finalizers.view == map[] && |queue| == old(finalizers.count) + |old(queue)|
      ensures Enqueued(old(finalizers.view), old(finalizers.view.Keys), old(queue), queue)
      ensures KeptWithAll(g, old(marked), old(finalizers.view.Keys), marked)
    {
      ghost var before, keys := marked, finalizers.view.Keys;
      marked, queue := EnqueueAll(finalizers, g, marked, queue);
      if PG.Closed(g, before) {
        MarkedFromClosed(g, before, keys, marked);
      }
    }
  }
}
