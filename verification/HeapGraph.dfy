/** The memory a marker works on: words, mark descriptors, objects grouped in blocks.

    Positions count units of ALIGNMENT, so `unit` is the number of units in one word and a pointer may
    start at any position.  The world is stopped while marking, so a `Heap` is an immutable value. */
module HeapGraph {
  import opened Arithmetic
  import opened Kinds

  /** What the marker finds at one position: a value outside the plausible heap bounds, a value inside
      them that refers to no object, or a valid pointer (possibly interior) to an object. */
  datatype Word = NonPointer | FalsePointer | Pointer(obj: nat) {
    predicate Plausible() {
      !NonPointer?
    }
  }

  /** Mark descriptors.  `PerObject` carries the descriptor that its lookup in the object or in the
      type yields; a null descriptor is `Length(0)`.  `Proc` lists the words that the client's mark
      procedure hands to GC_mark_and_push. */
  datatype Descr =
    | Length(units: nat)
    | Bitmap(bits: seq<bool>)
    | Proc(offsets: seq<nat>)
    | PerObject(actual: Descr)

  /** A mark stack entry. */
  datatype Entry = Entry(start: nat, descr: Descr)

  /** One used block run: first block number, number of blocks, and per-object size (in words),
      descriptor and kind; `objs` are its objects in address order. */
  datatype Block = Block(addr: nat, len: nat, words: nat, descr: Descr, kind: Kind, objs: seq<nat>)

  datatype Object = Object(start: nat, block: nat)

  datatype Heap = Heap(unit: nat, mem: seq<Word>, objects: seq<Object>, blocks: seq<Block>) {

    function At(p: nat): Word {
      if p < |mem| then mem[p] else NonPointer
    }

    function EntryOf(o: nat): Entry
      requires o < |objects| && objects[o].block < |blocks|
    {
      Entry(objects[o].start, blocks[objects[o].block].descr)
    }

    ghost function Ids(): set<nat> {
      set o: nat | o < |objects| && IsObject(o)
    }

    predicate IsObject(o: nat) {
      o < |objects|
    }

    /** Blocks of one- and, if pointers are aligned, two- and four-word objects are rescanned word by word. */
    predicate Direct(b: Block) {
      b.words == 1 || (unit == 1 && (b.words == 2 || b.words == 4))
    }

    ghost predicate WellFormed() {
      && unit >= 1
      && (forall p :: 0 <= p < |mem| && mem[p].Pointer? ==> mem[p].obj < |objects|)
      && (forall o :: 0 <= o < |objects| ==>
            objects[o].block < |blocks| && o in blocks[objects[o].block].objs)
      && (forall b :: 0 <= b < |blocks| ==> WellFormedBlock(b))
      && (forall b, c :: 0 <= b < c < |blocks| ==> blocks[b].addr + blocks[b].len <= blocks[c].addr)
    }

    ghost predicate WellFormedBlock(b: nat)
      requires b < |blocks|
    {
      && blocks[b].addr >= 1 && blocks[b].len >= 1
      && (blocks[b].kind.PtrFree? || blocks[b].kind.AtomicUncollectable? ==> blocks[b].descr == Length(0))
      && Usable(blocks[b].descr)
      && (forall o <- blocks[b].objs :: o < |objects| && objects[o].block == b)
      && (Direct(blocks[b]) ==>
            forall o, p: nat :: o in blocks[b].objs && Examines(unit, Entry(objects[o].start, blocks[b].descr), p) ==>
              InWords(objects[o].start, blocks[b].words, p))
    }

    /** p is the start of one of the n words from start on. */
    ghost predicate InWords(start: nat, n: nat, p: nat) {
      exists i :: 0 <= i < n && p == start + i * unit
    }

    predicate Usable(d: Descr) {
      CoversWords(unit, d)
    }

    /** Words of o that a complete mark phase must follow. */
    ghost predicate MustScan(o: nat, p: nat) {
      o < |objects| && objects[o].block < |blocks| && Examines(unit, EntryOf(o), p)
    }

    /** Words of o that any mark phase may follow: the rescan of tiny objects ignores their descriptor. */
    ghost predicate MayScan(o: nat, p: nat) {
      || MustScan(o, p)
      || (o < |objects| && objects[o].block < |blocks|
          && Direct(blocks[objects[o].block]) && blocks[objects[o].block].descr != Length(0)
          && InWords(objects[o].start, blocks[objects[o].block].words, p))
    }
  }

  /** A length descriptor covers at least a word, or nothing. */
  predicate CoversWords(unit: nat, d: Descr) {
    match d
    case Length(n) => n == 0 || n >= unit
    case PerObject(a) => CoversWords(unit, a)
    case _ => true
  }

  /** Position p is one of the positions that processing e looks at. */
  ghost predicate Examines(unit: nat, e: Entry, p: nat)
    decreases e.descr
  {
    match e.descr
    case Length(n) => e.start <= p && p + unit <= e.start + n
    case Bitmap(bits) => exists i :: 0 <= i < |bits| && bits[i] && p == e.start + i * unit
    case Proc(offsets) => exists i :: 0 <= i < |offsets| && p == e.start + offsets[i]
    case PerObject(d) => Examines(unit, Entry(e.start, d), p)
  }

  /** All positions that processing e looks at. */
  function Positions(unit: nat, e: Entry): (s: set<nat>)
    ensures forall p: nat :: p in s <==> Examines(unit, e, p)
    decreases e.descr
  {
    match e.descr
    case Length(n) => Range(e.start, e.start + n - unit + 1)
    case Bitmap(bits) => set i | 0 <= i < |bits| && bits[i] :: e.start + i * unit
    case Proc(offsets) => set i | 0 <= i < |offsets| :: e.start + offsets[i]
    case PerObject(d) => Positions(unit, Entry(e.start, d))
  }

  /** Some entry of the stack will look at p. */
  ghost predicate Pending(unit: nat, stack: seq<Entry>, p: nat) {
    exists i :: 0 <= i < |stack| && Examines(unit, stack[i], p)
  }

  lemma PendingPush(unit: nat, stack: seq<Entry>, e: Entry)
    ensures forall p: nat :: Pending(unit, stack + [e], p) <==> Pending(unit, stack, p) || Examines(unit, e, p)
  {
    var longer := stack + [e];
    forall p: nat
      ensures Pending(unit, longer, p) <==> Pending(unit, stack, p) || Examines(unit, e, p)
    {
      if Pending(unit, stack, p) {
        var i :| 0 <= i < |stack| && Examines(unit, stack[i], p);
        assert longer[i] == stack[i];
      }
      if Examines(unit, e, p) {
        assert longer[|stack|] == e;
      }
    }
  }

  lemma PendingDrop(unit: nat, stack: seq<Entry>, n: nat)
    requires n <= |stack|
    ensures forall p: nat :: Pending(unit, stack[..n], p) ==> Pending(unit, stack, p)
  {
    forall p: nat | Pending(unit, stack[..n], p)
      ensures Pending(unit, stack, p)
    {
      var i :| 0 <= i < n && Examines(unit, stack[..n][i], p);
      assert stack[i] == stack[..n][i];
    }
  }

  /** Object a holds a word, one that the chosen scan follows, which points to b. */
  ghost predicate Points(h: Heap, must: bool, a: nat, b: nat) {
    && a < |h.objects| && h.objects[a].block < |h.blocks|
    && exists p: nat :: (if must then h.MustScan(a, p) else h.MayScan(a, p)) && h.At(p) == Pointer(b)
  }

  /** A chain of pointers. */
  ghost predicate Path(h: Heap, must: bool, path: seq<nat>)
    decreases |path|
  {
    |path| > 1 ==>
      var n := |path|;
      Path(h, must, path[..n-1]) && Points(h, must, path[n-2], path[n-1])
  }

  /** o can be reached from one of the start objects. */
  ghost predicate Reaches(h: Heap, must: bool, from: set<nat>, o: nat) {
    exists path :: |path| > 0 && path[0] in from && path[|path|-1] == o && Path(h, must, path)
  }

  /** The set S contains every object that one of its members points to. */
  ghost predicate Closed(h: Heap, must: bool, S: set<nat>) {
    forall a, b :: a in S && Points(h, must, a, b) ==> b in S
  }

  lemma {:induction false} ClosedHoldsPath(h: Heap, must: bool, S: set<nat>, path: seq<nat>)
    requires Closed(h, must, S) && Path(h, must, path)
    requires |path| > 0 && path[0] in S
    ensures path[|path|-1] in S
    decreases |path|
  {
    if |path| > 1 {
      ClosedHoldsPath(h, must, S, path[..|path|-1]);
    }
  }

  /** A closed set holds everything reachable from its members ... */
  lemma ClosedHoldsReachable(h: Heap, must: bool, S: set<nat>, from: set<nat>)
    requires Closed(h, must, S) && from <= S
    ensures forall o :: Reaches(h, must, from, o) ==> o in S
  {
    forall o | Reaches(h, must, from, o)
      ensures o in S
    {
      var path :| |path| > 0 && path[0] in from && path[|path|-1] == o && Path(h, must, path);
      ClosedHoldsPath(h, must, S, path);
    }
  }

  /** All objects that can be reached. */
  ghost function Reachable(h: Heap, must: bool, from: set<nat>): set<nat> {
    set o | o in h.Ids() && Reaches(h, must, from, o)
  }

  /** ... and what is reachable is itself closed. */
  lemma ReachableIsClosed(h: Heap, must: bool, from: set<nat>)
    requires h.WellFormed() && from <= h.Ids()
    ensures Closed(h, must, Reachable(h, must, from)) && from <= Reachable(h, must, from) <= h.Ids()
  {
    forall o | o in from
      ensures o in Reachable(h, must, from)
    {
      var path := [o];
      assert |path| > 0 && path[0] in from && path[|path|-1] == o && Path(h, must, path);
    }
    forall a, b | a in Reachable(h, must, from) && Points(h, must, a, b)
      ensures b in Reachable(h, must, from)
    {
      ReachesOn(h, must, from, a, b);
    }
  }

  lemma ReachesOn(h: Heap, must: bool, from: set<nat>, a: nat, b: nat)
    requires h.WellFormed() && Reaches(h, must, from, a) && Points(h, must, a, b)
    ensures Reaches(h, must, from, b) && b in h.Ids()
  {
    var path :| |path| > 0 && path[0] in from && path[|path|-1] == a && Path(h, must, path);
    var longer := path + [b];
    assert longer[..|longer|-1] == path;
    assert longer[0] == path[0] && longer[|longer|-1] == b;
  }

  lemma ReachableReaches(h: Heap, must: bool, from: set<nat>, S: set<nat>)
    requires S <= Reachable(h, must, from)
    ensures forall o :: o in S ==> Reaches(h, must, from, o)
  {
  }
}
