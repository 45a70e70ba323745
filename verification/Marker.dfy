/** The sequential marker: the mark state machine with its bounded mark stack (boehmgc/src/mark.c). */
module Marker {
  import opened Arithmetic
  import opened HeapGraph
  import opened Kinds

  datatype MarkState = None | PushRescuers | PushUncollectable | RootsPushed | Invalid | PartiallyInvalid

  datatype Selection = Every | Dirty | UncollectableOnly

  /** The part of the marker's state that scanning changes. */
  datatype Config = Config(state: MarkState, marked: set<nat>, stack: seq<Entry>, tooSmall: bool)

  /** Root ranges: all of them, those on changed pages, and stack words scanned eagerly. */
  datatype Roots = Roots(full: seq<Entry>, dirty: seq<Entry>, eager: seq<nat>)

  /** The word at p is not a pointer, or its object is marked, or p is still to be looked at, because of
      a stack entry or because it is in `hand`, the part of an entry being scanned right now. */
  ghost predicate Covered(h: Heap, c: Config, hand: set<nat>, p: nat) {
    h.At(p).Pointer? ==> h.At(p).obj in c.marked || Pending(h.unit, c.stack, p) || p in hand
  }

  /** All that a complete mark phase must follow from o is covered. */
  ghost predicate Scanned(h: Heap, c: Config, hand: set<nat>, o: nat) {
    forall p: nat :: h.MustScan(o, p) ==> Covered(h, c, hand, p)
  }

  /** What every piece of marking work keeps.  Unless the mark state is invalid afterwards, covered
      words stay covered and each newly marked object is scanned or on the stack.  The state can only
      become invalid (a mark stack overflow) if some object was newly marked, and then the stack is noted to be
      too small. */
  ghost predicate Keeps(h: Heap, c: Config, hand: set<nat>, c': Config, hand': set<nat>) {
    && c.marked <= c'.marked
    && (c'.state == c.state || c'.state == Invalid)
    && (c'.marked == c.marked ==> c'.state == c.state)
    && (c.tooSmall ==> c'.tooSmall) && (c'.state != c.state ==> c'.tooSmall)
    && (c'.tooSmall && !c.tooSmall ==> c'.state == Invalid)
    && (c'.state != Invalid ==>
          && (forall p: nat :: Covered(h, c, hand, p) ==> Covered(h, c', hand', p))
          && (forall o :: o in c'.marked && o !in c.marked ==> Scanned(h, c', hand', o)))
  }

  /** Everything marked, and everything still to be looked at, lies within `bound`. */
  ghost predicate Within(h: Heap, c: Config, hand: set<nat>, bound: set<nat>) {
    && c.marked <= bound
    && (forall p: nat :: h.At(p).Pointer? && (Pending(h.unit, c.stack, p) || p in hand) ==> h.At(p).obj in bound)
  }

  ghost function EntryWeight(d: Descr): nat {
    match d
    case Length(n) => 1 + n
    case PerObject(a) => 1 + EntryWeight(a)
    case _ => 1
  }

  /** Work left on the stack if nothing new is marked. */
  ghost function Weight(stack: seq<Entry>): nat {
    if |stack| == 0 then 0 else Weight(stack[..|stack|-1]) + EntryWeight(stack[|stack|-1].descr)
  }

  const SPLIT_RANGE_WORDS := 128

  /** Constants of a configuration; the last three are in units. */
  datatype Sizes = Sizes(initialSize: nat, discards: nat, blockUnits: nat, bitmapCredit: nat, procCredit: nat)

  /** Termination measure of a mark phase, ordered lexicographically. */
  datatype Measure = Measure(unmarked: set<nat>, rank: nat, blocks: set<nat>, weight: nat) {
    ghost predicate Below(m: Measure) {
      || unmarked < m.unmarked
      || (unmarked == m.unmarked && rank < m.rank)
      || (unmarked == m.unmarked && rank == m.rank && blocks < m.blocks)
      || (unmarked == m.unmarked && rank == m.rank && blocks == m.blocks && weight < m.weight)
    }
  }

  class Collector {
    const heap: Heap
    const roots: Roots
    const dirty: set<nat>     // indices of blocks with changed pages
    const initialSize: nat    // INITIAL_MARK_STACK_SIZE
    const discards: nat       // GC_MARK_STACK_DISCARDS
    const blockUnits: nat     // HBLKSIZE, in units
    const bitmapCredit: nat   // cost guessed for a bitmap entry, in units
    const procCredit: nat     // GC_PROC_BYTES, in units
    ghost const bound: set<nat>

    var state: MarkState
    var marked: set<nat>
    var stack: seq<Entry>
    var stackSize: nat
    var scan: nat             // scan_ptr; 0 before the first and after the last block
    var tooSmall: bool
    var objectsAreMarked: bool
    ghost var asked: seq<bool>  // whether a larger mark stack could be allocated, each time

    constructor (h: Heap, r: Roots, changed: set<nat>, sizes: Sizes, marks: set<nat>, ghost limit: set<nat>)
      ensures heap == h && roots == r && dirty == changed && initialSize == sizes.initialSize
      ensures discards == sizes.discards && blockUnits == sizes.blockUnits && bound == limit
      ensures bitmapCredit == sizes.bitmapCredit && procCredit == sizes.procCredit
      ensures state == None && marked == marks && stack == [] && stackSize == sizes.initialSize
      ensures scan == 0 && !tooSmall && !objectsAreMarked && asked == []
    {
      heap, roots, dirty := h, r, changed;
      initialSize, discards, blockUnits := sizes.initialSize, sizes.discards, sizes.blockUnits;
      bitmapCredit, procCredit := sizes.bitmapCredit, sizes.procCredit;
      bound := limit;
      state, marked, stack, stackSize := None, marks, [], sizes.initialSize;
      scan, tooSmall, objectsAreMarked := 0, false, false;
      asked := [];
    }

    ghost function Now(): Config
      reads this
    {
      Config(state, marked, stack, tooSmall)
    }

    /** Facts about constants. */
    ghost predicate Setting() {
      && heap.WellFormed()
      && 1 <= discards <= initialSize
      && (forall b :: 0 <= b < |heap.blocks| ==> |heap.blocks[b].objs| <= initialSize / 2)
      && |roots.full| <= initialSize / 2 && |roots.dirty| <= initialSize / 2
      && (forall i :: 0 <= i < |roots.full| ==> heap.Usable(roots.full[i].descr))
      && (forall i :: 0 <= i < |roots.dirty| ==> heap.Usable(roots.dirty[i].descr))
      && Closed(heap, false, bound)
      && (forall p: nat :: heap.At(p).Pointer? && (RootWord(true, p) || RootWord(false, p)) ==> heap.At(p).obj in bound)
    }

    ghost predicate RootWord(all: bool, p: nat) {
      Pending(heap.unit, if all then roots.full else roots.dirty, p) || p in roots.eager
    }

    /** What is always true, even between collections. */
    ghost predicate Idle()
      reads this
    {
      && Setting()
      && |stack| <= stackSize && initialSize <= stackSize
      && marked <= heap.Ids()
    }

    ghost predicate Basic(hand: set<nat>)
      reads this
    {
      && Idle()
      && (forall i :: 0 <= i < |stack| ==> heap.Usable(stack[i].descr))
      && Within(heap, Now(), hand, bound)
    }

    lemma EdgesStayInBound(o: nat)
      requires Setting() && o in bound && o < |heap.objects|
      ensures forall p: nat :: heap.MayScan(o, p) && heap.At(p).Pointer? ==> heap.At(p).obj in bound
    {
      forall p: nat | heap.MayScan(o, p) && heap.At(p).Pointer?
        ensures heap.At(p).obj in bound
      {
        assert Points(heap, false, o, heap.At(p).obj);
      }
    }

    // ---- Pushing ----

    /** PUSH_OBJ, with GC_signal_mark_stack_overflow. */
    method PushObj(o: nat, ghost hand: set<nat>)
      requires Basic(hand) && o in marked
      modifies this`state, this`stack, this`tooSmall
      ensures Basic(hand)
      ensures var e := heap.EntryOf(o);
              && stack == (if e.descr == Length(0) then old(stack)
                           else if old(|stack|) < stackSize then old(stack) + [e]
                           else old(stack)[..stackSize - discards] + [e])
              && (if e.descr != Length(0) && old(|stack|) == stackSize then state == Invalid && tooSmall
                  else state == old(state) && tooSmall == old(tooSmall))
      ensures old(|stack|) < stackSize ==>
                forall p: nat :: Pending(heap.unit, stack, p) <==>
                  Pending(heap.unit, old(stack), p) || heap.MustScan(o, p)
    {
      var e := heap.EntryOf(o);
      assert heap.WellFormedBlock(heap.objects[o].block);
      EdgesStayInBound(o);
      if e.descr != Length(0) {
        if |stack| == stackSize {
          PendingDrop(heap.unit, stack, stackSize - discards);
          state := Invalid;
          tooSmall := true;
          stack := stack[..stackSize - discards];
        }
        PendingPush(heap.unit, stack, e);
        stack := stack + [e];
      }
    }

    /** PUSH_CONTENTS for the word at p, which passed the preliminary test. */
    method PushIfValid(p: nat, ghost hand: set<nat>)
      requires Basic(hand + {p})
      modifies this`state, this`stack, this`tooSmall, this`marked
      ensures Basic(hand)
      ensures Keeps(heap, old(Now()), hand + {p}, Now(), hand)
      ensures marked == old(marked) ==> stack == old(stack)
    {
      match heap.At(p)
      case Pointer(o) =>
        if o !in marked {
          marked := marked + {o};
          PushObj(o, hand);
        }
      case _ =>
    }

    // ---- GC_mark_from ----

    /** The last plausible position of lo..hi, searched from the top in a loop unrolled once; lo - 1 if
        there is none. */
    method FindDeferred(lo: nat, hi: nat) returns (deferred: int)
      requires lo <= hi
      ensures lo - 1 <= deferred <= hi
      ensures deferred >= lo ==> heap.At(deferred).Plausible()
      ensures forall p: nat :: deferred < p <= hi ==> !heap.At(p).Plausible()
    {
      var limit: int := hi;
      while true
        invariant lo <= limit <= hi
        invariant forall p: nat :: limit < p <= hi ==> !heap.At(p).Plausible()
        decreases limit
      {
        deferred := limit;
        limit := limit - 1;
        if heap.At(deferred).Plausible() { return; }
        if lo > limit { return limit; }
        deferred := limit;
        limit := limit - 1;
        if heap.At(deferred).Plausible() { return; }
        if lo > limit { return limit; }
      }
    }

    /** Scan the candidate positions lo..hi: defer the last plausible one, mark from the others in
        ascending order, then from the deferred one. */
    method ScanRange(lo: nat, hi: nat)
      requires lo <= hi && Basic(Range(lo, hi + 1))
      modifies this`state, this`stack, this`tooSmall, this`marked
      ensures Basic({})
      ensures Keeps(heap, old(Now()), Range(lo, hi + 1), Now(), {})
      ensures marked == old(marked) ==> stack == old(stack)
    {
      var deferred := FindDeferred(lo, hi);
      if deferred < lo { return; }
      var p := lo;
      while p < deferred
        invariant lo <= p <= deferred
        invariant Basic(Range(p, deferred + 1))
        invariant Keeps(heap, old(Now()), Range(lo, hi + 1), Now(), Range(p, deferred + 1))
        invariant marked == old(marked) ==> stack == old(stack)
      {
        assert Range(p, deferred + 1) == Range(p + 1, deferred + 1) + {p};
        if heap.At(p).Plausible() {
          PushIfValid(p, Range(p + 1, deferred + 1));
        }
        p := p + 1;
      }
      assert Range(deferred, deferred + 1) == {} + {deferred};
      PushIfValid(deferred, {});
    }

    ghost function BitmapWords(start: nat, bits: seq<bool>, from: nat): set<nat>
      requires from <= |bits|
    {
      set i | from <= i < |bits| && bits[i] :: start + i * heap.unit
    }

    /** Mark from the words that the set bits select. */
    method ScanBitmap(start: nat, bits: seq<bool>)
      requires Basic(BitmapWords(start, bits, 0))
      modifies this`state, this`stack, this`tooSmall, this`marked
      ensures Basic({})
      ensures Keeps(heap, old(Now()), BitmapWords(start, bits, 0), Now(), {})
      ensures marked == old(marked) ==> stack == old(stack)
    {
      var i, p := 0, start;
      while i < |bits|
        invariant 0 <= i <= |bits| && p == start + i * heap.unit
        invariant Basic(BitmapWords(start, bits, i))
        invariant Keeps(heap, old(Now()), BitmapWords(start, bits, 0), Now(), BitmapWords(start, bits, i))
        invariant marked == old(marked) ==> stack == old(stack)
      {
        ghost var later := BitmapWords(start, bits, i + 1);
        assert BitmapWords(start, bits, i) == if bits[i] then later + {p} else later;
        if bits[i] && heap.At(p).Plausible() {
          PushIfValid(p, later);
        }
        assert (i + 1) * heap.unit == i * heap.unit + heap.unit;
        i, p := i + 1, p + heap.unit;
      }
      assert BitmapWords(start, bits, i) == {};
    }

    ghost function ProcWords(start: nat, offsets: seq<nat>, from: nat): set<nat>
      requires from <= |offsets|
    {
      set i | from <= i < |offsets| :: start + offsets[i]
    }

    /** A client mark procedure: GC_mark_and_push on each of its words. */
    method RunProc(start: nat, offsets: seq<nat>)
      requires Basic(ProcWords(start, offsets, 0))
      modifies this`state, this`stack, this`tooSmall, this`marked
      ensures Basic({})
      ensures Keeps(heap, old(Now()), ProcWords(start, offsets, 0), Now(), {})
      ensures marked == old(marked) ==> stack == old(stack)
    {
      for i := 0 to |offsets|
        invariant Basic(ProcWords(start, offsets, i))
        invariant Keeps(heap, old(Now()), ProcWords(start, offsets, 0), Now(), ProcWords(start, offsets, i))
        invariant marked == old(marked) ==> stack == old(stack)
      {
        ghost var later := ProcWords(start, offsets, i + 1);
        assert ProcWords(start, offsets, i) == later + {start + offsets[i]};
        if heap.At(start + offsets[i]).Plausible() {
          PushIfValid(start + offsets[i], later);
        }
      }
    }

    /** The descriptor that repeated per-object lookup arrives at. */
    method Resolve(e: Entry) returns (descr: Descr)
      requires heap.Usable(e.descr)
      ensures !descr.PerObject? && heap.Usable(descr)
      ensures forall p: nat :: Examines(heap.unit, Entry(e.start, descr), p) <==> Examines(heap.unit, e, p)
      ensures 1 <= EntryWeight(descr) <= EntryWeight(e.descr)
    {
      descr := e.descr;
      while descr.PerObject?
        invariant heap.Usable(descr)
        invariant 1 <= EntryWeight(descr) <= EntryWeight(e.descr)
        invariant forall p: nat :: Examines(heap.unit, Entry(e.start, descr), p) <==> Examines(heap.unit, e, p)
        decreases descr
      {
        descr := descr.actual;
      }
    }

    /** Process the entry on top of the stack.  Returns the credit this used. */
    method MarkFromTop() returns (used: nat)
      requires Basic({}) && |stack| > 0
      modifies this`state, this`stack, this`tooSmall, this`marked
      ensures Basic({})
      ensures Keeps(heap, old(Now()), {}, Now(), {})
      ensures marked == old(marked) ==> Weight(stack) < Weight(old(stack))
    {
      var e := stack[|stack|-1];
      assert stack == stack[..|stack|-1] + [e];
      PendingPush(heap.unit, stack[..|stack|-1], e);
      var descr := Resolve(e);
      match descr
      case Length(n) =>
        used := ScanLength(e.start, n);
      case Bitmap(bits) =>
        stack := stack[..|stack|-1];
        used := bitmapCredit;
        ScanBitmap(e.start, bits);
      case Proc(offsets) =>
        stack := stack[..|stack|-1];
        used := procCredit;
        RunProc(e.start, offsets);
    }

    /** A range of n units described by the top entry: a long one is split, its rest goes back on the
        stack, so that no more than SPLIT_RANGE_WORDS are scanned at a time. */
    method ScanLength(start: nat, n: nat) returns (used: nat)
      requires Basic({}) && |stack| > 0 && heap.Usable(Length(n))
      requires forall p: nat :: Examines(heap.unit, stack[|stack|-1], p) <==>
                 Examines(heap.unit, Entry(start, Length(n)), p)
      requires 1 + n <= EntryWeight(stack[|stack|-1].descr)
      modifies this`state, this`stack, this`tooSmall, this`marked
      ensures Basic({})
      ensures Keeps(heap, old(Now()), {}, Now(), {})
      ensures marked == old(marked) ==> Weight(stack) < Weight(old(stack))
    {
      ghost var rest := stack[..|stack|-1];
      ghost var top := stack[|stack|-1];
      assert stack == rest + [top];
      if n >= SPLIT_RANGE_WORDS * heap.unit {
        var first := (SPLIT_RANGE_WORDS - 1) * heap.unit;
        var remainder := Entry(start + first, Length(n - first));
        SplitEntry(Now(), rest, top, start, n, first);
        stack := stack[..|stack|-1] + [remainder];
        used := first + heap.unit - 1;
        ScanRange(start, start + first - 1);
      } else {
        PopEntry(Now(), rest, top, start, n);
        stack := stack[..|stack|-1];
        used := n;
        if n > 0 {
          ScanRange(start, start + n - heap.unit);
        }
      }
    }

    lemma SplitEntry(c: Config, rest: seq<Entry>, top: Entry, start: nat, n: nat, first: nat)
      requires c.stack == rest + [top] && Within(heap, c, {}, bound)
      requires forall p: nat :: Examines(heap.unit, top, p) <==> Examines(heap.unit, Entry(start, Length(n)), p)
      requires heap.unit <= first <= n - heap.unit
      ensures var stack' := rest + [Entry(start + first, Length(n - first))];
              var hand := Range(start, start + first);
              Keeps(heap, c, {}, c.(stack := stack'), hand) && Within(heap, c.(stack := stack'), hand, bound)
    {
      var remainder := Entry(start + first, Length(n - first));
      PendingPush(heap.unit, rest, top);
      PendingPush(heap.unit, rest, remainder);
    }

    lemma PopEntry(c: Config, rest: seq<Entry>, top: Entry, start: nat, n: nat)
      requires heap.unit >= 1
      requires c.stack == rest + [top] && Within(heap, c, {}, bound)
      requires forall p: nat :: Examines(heap.unit, top, p) <==> Examines(heap.unit, Entry(start, Length(n)), p)
      ensures var hand := if n > 0 then Range(start, start + n - heap.unit + 1) else {};
              Keeps(heap, c, {}, c.(stack := rest), hand) && Within(heap, c.(stack := rest), hand, bound)
    {
      var hand := if n > 0 then Range(start, start + n - heap.unit + 1) else {};
      PendingPush(heap.unit, rest, top);
      forall p: nat | Examines(heap.unit, top, p)
        ensures p in hand
      {
        assert Examines(heap.unit, Entry(start, Length(n)), p);
      }
    }

    /** Mark from the stack until it is empty or the credit is used up. */
    method MarkFrom()
      requires Basic({})
      modifies this`state, this`stack, this`tooSmall, this`marked, this`objectsAreMarked
      ensures Basic({}) && objectsAreMarked
      ensures Keeps(heap, old(Now()), {}, Now(), {})
      ensures marked == old(marked) && old(|stack|) > 0 ==> Weight(stack) < Weight(old(stack))
    {
      var credit: int := blockUnits;
      objectsAreMarked := true;
      while |stack| > 0 && credit >= 0
        invariant Basic({}) && objectsAreMarked
        invariant Keeps(heap, old(Now()), {}, Now(), {})
        invariant marked == old(marked) && old(|stack|) > 0 ==>
                    Weight(stack) < Weight(old(stack)) || (stack == old(stack) && credit >= 0)
        decreases heap.Ids() - marked, Weight(stack)
      {
        var used := MarkFromTop();
        credit := credit - used;
      }
    }

    // ---- Rescanning blocks ----

    /** GC_push_marked1, 2 and 4: mark from every word of the marked objects in block b.  The mark bits
        are read a word at a time, so an object marked meanwhile may or may not be visited. */
    method PushMarkedDirect(b: nat)
      requires Basic({}) && b < |heap.blocks| && heap.Direct(heap.blocks[b])
      requires heap.blocks[b].descr != Length(0)
      modifies this`state, this`stack, this`tooSmall, this`marked
      ensures Basic({})
      ensures Keeps(heap, old(Now()), {}, Now(), {})
      ensures state != Invalid ==> forall o <- heap.blocks[b].objs :: o in marked ==> Scanned(heap, Now(), {}, o)
      ensures marked == old(marked) ==> stack == old(stack)
    {
      var block := heap.blocks[b];
      assert heap.WellFormedBlock(b);
      var before := marked;
      for k := 0 to |block.objs|
        invariant Basic({})
        invariant Keeps(heap, old(Now()), {}, Now(), {})
        invariant state != Invalid ==> forall j :: 0 <= j < k && block.objs[j] in before ==>
                    Scanned(heap, Now(), {}, block.objs[j])
        invariant marked == old(marked) ==> stack == old(stack)
      {
        var o := block.objs[k];
        var visit: bool :| (o in before ==> visit) && (visit ==> o in marked);
        if visit {
          PushWords(o);
        }
      }
    }

    method PushWords(o: nat)
      requires Basic({}) && o in marked
      requires heap.Direct(heap.blocks[heap.objects[o].block]) && heap.blocks[heap.objects[o].block].descr != Length(0)
      modifies this`state, this`stack, this`tooSmall, this`marked
      ensures Basic({})
      ensures Keeps(heap, old(Now()), {}, Now(), {})
      ensures state != Invalid ==> Scanned(heap, Now(), {}, o)
      ensures marked == old(marked) ==> stack == old(stack)
    {
      var start := heap.objects[o].start;
      var block := heap.blocks[heap.objects[o].block];
      assert heap.WellFormedBlock(heap.objects[o].block);
      EdgesStayInBound(o);
      for i := 0 to block.words
        invariant Basic({})
        invariant Keeps(heap, old(Now()), {}, Now(), {})
        invariant state != Invalid ==> forall j :: 0 <= j < i ==> Covered(heap, Now(), {}, start + j * heap.unit)
        invariant marked == old(marked) ==> stack == old(stack)
      {
        var p := start + i * heap.unit;
        assert heap.InWords(start, block.words, p);
        assert heap.MayScan(o, p);
        if heap.At(p).Plausible() {
          PushIfValid(p, {});
        }
      }
    }

    /** GC_push_marked: push every marked object of block b. */
    method PushMarked(b: nat)
      requires Basic({}) && b < |heap.blocks|
      requires |stack| + |heap.blocks[b].objs| <= stackSize
      modifies this`state, this`stack, this`tooSmall, this`marked, this`objectsAreMarked
      ensures Basic({})
      ensures Keeps(heap, old(Now()), {}, Now(), {})
      ensures state != Invalid ==> forall o <- heap.blocks[b].objs :: o in marked ==> Scanned(heap, Now(), {}, o)
      ensures old(objectsAreMarked) ==> objectsAreMarked
      ensures !objectsAreMarked ==> Now() == old(Now())
    {
      var block := heap.blocks[b];
      assert heap.WellFormedBlock(b);
      if block.descr == Length(0) {
        return;
      }
      if forall o <- block.objs :: o !in marked {
        return;
      }
      objectsAreMarked := true;
      if heap.Direct(block) {
        PushMarkedDirect(b);
        return;
      }
      for k := 0 to |block.objs|
        invariant Basic({}) && marked == old(marked) && state == old(state) && objectsAreMarked
        invariant tooSmall == old(tooSmall) && |stack| <= old(|stack|) + k
        invariant forall p: nat :: Pending(heap.unit, old(stack), p) ==> Pending(heap.unit, stack, p)
        invariant forall j :: 0 <= j < k && block.objs[j] in marked ==> Scanned(heap, Now(), {}, block.objs[j])
      {
        if block.objs[k] in marked {
          PushObj(block.objs[k], {});
        }
      }
    }

    /** Index of the least used block at or above h, or |blocks|: GC_next_used_block. */
    method NextUsedBlock(h: nat) returns (b: nat)
      requires Setting()
      ensures b <= |heap.blocks|
      ensures b < |heap.blocks| ==> heap.blocks[b].addr >= h
      ensures forall c :: 0 <= c < b ==> heap.blocks[c].addr < h
    {
      b := 0;
      while b < |heap.blocks| && heap.blocks[b].addr < h
        invariant b <= |heap.blocks|
        invariant forall c :: 0 <= c < b ==> heap.blocks[c].addr < h
      {
        b := b + 1;
      }
    }

    /** Indices of the blocks at or above h. */
    ghost function BlocksFrom(h: nat): set<nat> {
      set b: nat | b < |heap.blocks| && heap.blocks[b].addr >= h
    }

    predicate Selected(which: Selection, b: nat)
      requires b < |heap.blocks|
    {
      match which
      case Every => true
      case Dirty => b in dirty
      case UncollectableOnly => heap.blocks[b].kind == Uncollectable
    }

    /** GC_push_next_marked, GC_push_next_marked_dirty and GC_push_next_marked_uncollectable: push the
        marked objects of the next selected block at or above h; return the address after it, or 0. */
    method PushNextMarked(which: Selection, h: nat) returns (next: nat)
      requires Basic({}) && |stack| + initialSize / 2 <= stackSize
      modifies this`state, this`stack, this`tooSmall, this`marked, this`objectsAreMarked
      ensures Basic({})
      ensures Keeps(heap, old(Now()), {}, Now(), {})
      ensures old(objectsAreMarked) ==> objectsAreMarked
      ensures !objectsAreMarked ==> Now() == old(Now())
      ensures next == 0 ==> Now() == old(Now())
      ensures next != 0 ==> BlocksFrom(next) < BlocksFrom(h)
      ensures state != Invalid ==>
                forall o ::
                  && o in marked && Selected(which, heap.objects[o].block)
                  && heap.blocks[heap.objects[o].block].addr >= h ==>
                  (next != 0 && heap.blocks[heap.objects[o].block].addr >= next) || Scanned(heap, Now(), {}, o)
      ensures next != 0 ==> exists b :: 0 <= b < |heap.blocks| && Selected(which, b) && heap.blocks[b].addr >= h &&
                                        next == heap.blocks[b].addr + heap.blocks[b].len
    {
      var b := NextSelectedBlock(which, h);
      if b == |heap.blocks| {
        return 0;
      }
      next := heap.blocks[b].addr + heap.blocks[b].len;
      PushMarked(b);
    }

    method NextSelectedBlock(which: Selection, h: nat) returns (b: nat)
      requires Setting()
      ensures b <= |heap.blocks|
      ensures forall c :: 0 <= c < |heap.blocks| && h <= heap.blocks[c].addr && Selected(which, c) ==>
                b < |heap.blocks| && (c == b || heap.blocks[c].addr >= heap.blocks[b].addr + heap.blocks[b].len)
      ensures b < |heap.blocks| ==>
                var next := heap.blocks[b].addr + heap.blocks[b].len;
                next != 0 && BlocksFrom(next) < BlocksFrom(h) && Selected(which, b) && heap.blocks[b].addr >= h
    {
      var at: nat := h;
      while true
        invariant BlocksFrom(at) <= BlocksFrom(h)
        invariant forall c :: 0 <= c < |heap.blocks| && h <= heap.blocks[c].addr < at ==> !Selected(which, c)
        decreases BlocksFrom(at)
      {
        b := NextUsedBlock(at);
        if b == |heap.blocks| {
          return;
        }
        var next := heap.blocks[b].addr + heap.blocks[b].len;
        SkipBlock(b, at, next);
        if Selected(which, b) {
          return;
        }
        at := next;
      }
    }

    lemma SkipBlock(b: nat, at: nat, next: nat)
      requires Setting() && b < |heap.blocks|
      requires heap.blocks[b].addr >= at && next == heap.blocks[b].addr + heap.blocks[b].len
      requires forall c :: 0 <= c < b ==> heap.blocks[c].addr < at
      ensures next != 0 && BlocksFrom(next) < BlocksFrom(at)
      ensures forall c :: 0 <= c < |heap.blocks| && at <= heap.blocks[c].addr < next ==> c == b
    {
      assert heap.WellFormedBlock(b);
      assert b in BlocksFrom(at) && b !in BlocksFrom(next);
    }

    // ---- Roots ----

    /** GC_push_all: push one static range. */
    method PushAll(e: Entry)
      requires Basic({}) && |stack| < stackSize && heap.Usable(e.descr)
      requires forall p: nat :: Examines(heap.unit, e, p) && heap.At(p).Pointer? ==> heap.At(p).obj in bound
      modifies this`stack
      ensures Basic({}) && |stack| <= old(|stack|) + 1
      ensures forall p: nat :: Pending(heap.unit, stack, p) <==>
                Pending(heap.unit, old(stack), p) || Examines(heap.unit, e, p)
    {
      if e.descr == Length(0) { return; }
      PendingPush(heap.unit, stack, e);
      stack := stack + [e];
    }

    /** GC_push_roots: the static ranges first, since pushing them does not survive an overflow, then the
        stacks, word by word. */
    method PushRoots(all: bool)
      requires Basic({}) && |stack| + initialSize / 2 <= stackSize
      modifies this`state, this`stack, this`tooSmall, this`marked
      ensures Basic({})
      ensures Keeps(heap, old(Now()), {}, Now(), {})
      ensures state != Invalid ==> forall p: nat :: RootWord(all, p) ==> Covered(heap, Now(), {}, p)
    {
      var ranges := if all then roots.full else roots.dirty;
      for i := 0 to |ranges|
        invariant Basic({}) && marked == old(marked) && state == old(state)
        invariant tooSmall == old(tooSmall) && |stack| <= old(|stack|) + i
        invariant forall p: nat :: Pending(heap.unit, old(stack), p) ==> Pending(heap.unit, stack, p)
        invariant forall j, p: nat :: 0 <= j < i && Examines(heap.unit, ranges[j], p) ==> Pending(heap.unit, stack, p)
      {
        assert forall p: nat :: Examines(heap.unit, ranges[i], p) ==> RootWord(all, p);
        PushAll(ranges[i]);
      }
      for i := 0 to |roots.eager|
        invariant Basic({})
        invariant Keeps(heap, old(Now()), {}, Now(), {})
        invariant state != Invalid ==> forall p: nat :: Pending(heap.unit, ranges, p) ==> Covered(heap, Now(), {}, p)
        invariant state != Invalid ==> forall j :: 0 <= j < i ==> Covered(heap, Now(), {}, roots.eager[j])
      {
        var p := roots.eager[i];
        assert RootWord(all, p);
        if heap.At(p).Plausible() {
          PushIfValid(p, {});
        }
      }
    }

    // ---- The mark state machine ----

    /** Block b need not be scanned yet, because the current pass over the heap will still push it. */
    ghost predicate Ahead(b: nat)
      requires b < |heap.blocks|
      reads this
    {
      && heap.blocks[b].addr >= scan
      && match state
         case PushRescuers => Selected(Dirty, b)
         case PushUncollectable => Selected(UncollectableOnly, b)
         case PartiallyInvalid => true
         case _ => false
    }

    /** The marker's invariant.  In the INVALID state nothing is promised about marked objects, except
        that a freshly cleared heap has only uncollectable ones. */
    ghost predicate Valid()
      reads this
    {
      && Basic({})
      && (state == PartiallyInvalid || state == RootsPushed ==> objectsAreMarked)
      && (state == Invalid && !objectsAreMarked ==>
            scan == 0 && forall o :: o in marked ==> IsUncollectable(heap.blocks[heap.objects[o].block].kind))
      && (state in {PushRescuers, PushUncollectable, RootsPushed, PartiallyInvalid} ==>
            forall o :: o in marked ==> Ahead(heap.objects[o].block) || Scanned(heap, Now(), {}, o))
      && (state == RootsPushed ==> forall p: nat :: RootWord(true, p) ==> Covered(heap, Now(), {}, p))
      && (state == PushRescuers ==>
            forall p: nat :: RootWord(true, p) && !RootWord(false, p) ==> Covered(heap, Now(), {}, p))
    }

    /** Progress: the order in which the phases of a full collection come. */
    ghost function Rank(): nat
      reads this
    {
      match state
      case Invalid => if !objectsAreMarked then 6 else if scan != 0 then 4 else 3
      case PushRescuers => 5
      case PushUncollectable => 5
      case PartiallyInvalid => 2
      case RootsPushed => 1
      case None => 0
    }

    ghost function Unmarked(): set<nat>
      reads this
    {
      heap.Ids() - marked
    }

    /** alloc_mark_stack; may silently fail. */
    method GrowMarkStack()
      requires Basic({}) && stack == []
      modifies this`stackSize, this`tooSmall, this`asked
      ensures Basic({}) && !tooSmall
      ensures |asked| == old(|asked|) + 1 && asked[..old(|asked|)] == old(asked)
      ensures stackSize == if asked[old(|asked|)] then 2 * old(stackSize) else old(stackSize)
    {
      var available: bool := *;
      tooSmall := false;
      asked := asked + [available];
      if available {
        stackSize := 2 * stackSize;
      }
    }

    /** The next step first asks for a larger mark stack: at the start of a rescan, and when a phase is finished. */
    ghost predicate WillGrow()
      reads this
    {
      tooSmall && stack == [] && (state == RootsPushed || (state == Invalid && objectsAreMarked && scan == 0))
    }

    ghost function Work(): Measure
      reads this
    {
      Measure(Unmarked(), Rank(), BlocksFrom(scan), Weight(stack))
    }

    /** Marking from the mark stack keeps the invariant in every state in which it is done. */
    method MarkFromStack()
      requires Valid() && |stack| > 0 && state != None
      requires state == Invalid ==> objectsAreMarked
      modifies this`state, this`stack, this`tooSmall, this`marked, this`scan, this`objectsAreMarked
      ensures Valid() && old(marked) <= marked
      ensures state != None && Work().Below(old(Work()))
      ensures state != Invalid || old(state) == Invalid || marked != old(marked)
      ensures (old(tooSmall) ==> tooSmall) && (state == Invalid && old(state) != Invalid ==> tooSmall)
    {
      MarkFrom();
    }

    /** The end of a pass: push the roots, then everything is on the stack unless that overflowed. */
    method FinishPass(all: bool)
      requires Basic({}) && |stack| + initialSize / 2 <= stackSize && scan == 0
      requires state == PushRescuers || state == PushUncollectable || state == PartiallyInvalid
      requires all == (state != PushRescuers)
      requires forall o :: o in marked ==> Scanned(heap, Now(), {}, o)
      requires !all ==> forall p: nat :: RootWord(true, p) && !RootWord(false, p) ==> Covered(heap, Now(), {}, p)
      modifies this`state, this`stack, this`tooSmall, this`marked, this`scan, this`objectsAreMarked
      ensures Valid() && old(marked) <= marked
      ensures objectsAreMarked && (state == RootsPushed || (state == Invalid && scan == 0 && marked != old(marked)))
      ensures (old(tooSmall) ==> tooSmall) && (state == Invalid && old(state) != Invalid ==> tooSmall)
    {
      PushRoots(all);
      objectsAreMarked := true;
      if state != Invalid {
        state := RootsPushed;
      }
    }

    method RescuersStep()
      requires Valid() && state == PushRescuers
      modifies this`state, this`stack, this`tooSmall, this`marked, this`scan, this`objectsAreMarked
      ensures Valid() && old(marked) <= marked
      ensures state != None && Work().Below(old(Work()))
      ensures state != Invalid || old(state) == Invalid || marked != old(marked)
      ensures (old(tooSmall) ==> tooSmall) && (state == Invalid && old(state) != Invalid ==> tooSmall)
      ensures old(|stack|) + initialSize / 2 > old(stackSize) ==> tooSmall
    {
      if |stack| + initialSize / 2 > stackSize {
        tooSmall := true;
        MarkFromStack();
      } else {
        scan := PushNextMarked(Dirty, scan);
        if scan == 0 {
          FinishPass(false);
        }
      }
    }

    method UncollectableStep()
      requires Valid() && state == PushUncollectable
      modifies this`state, this`stack, this`tooSmall, this`marked, this`scan, this`objectsAreMarked
      ensures Valid() && old(marked) <= marked
      ensures state != None && Work().Below(old(Work()))
      ensures state != Invalid || old(state) == Invalid || marked != old(marked)
      ensures (old(tooSmall) ==> tooSmall) && (state == Invalid && old(state) != Invalid ==> tooSmall)
    {
      if |stack| > stackSize / 4 {
        MarkFromStack();
      } else {
        scan := PushNextMarked(UncollectableOnly, scan);
        if scan == 0 {
          FinishPass(true);
        }
      }
    }

    /** One step of the rescan that repairs an invalid mark state. */
    method RescanStep()
      requires Valid() && (state == Invalid || state == PartiallyInvalid)
      requires objectsAreMarked && stack == []
      modifies this
      ensures Valid() && old(marked) <= marked
      ensures state != None && Work().Below(old(Work()))
      ensures state != Invalid || old(state) == Invalid || marked != old(marked)
      ensures |asked| == old(|asked|) + if old(WillGrow()) then 1 else 0
      ensures old(tooSmall) && !old(WillGrow()) ==> tooSmall
      ensures state == Invalid && old(state) != Invalid ==> tooSmall
    {
      if scan == 0 && state == Invalid {
        if tooSmall {
          GrowMarkStack();
        }
        state := PartiallyInvalid;
      }
      RescanNext();
    }

    /** The next block of a rescan, and the end of it. */
    method RescanNext()
      requires Valid() && (state == PartiallyInvalid || (state == Invalid && scan != 0))
      requires objectsAreMarked && stack == []
      modifies this`state, this`stack, this`tooSmall, this`marked, this`scan, this`objectsAreMarked
      ensures Valid() && old(marked) <= marked
      ensures state != None && Work().Below(old(Work()))
      ensures state != Invalid || old(state) == Invalid || marked != old(marked)
      ensures (old(tooSmall) ==> tooSmall) && (state == Invalid && old(state) != Invalid ==> tooSmall)
    {
      scan := PushNextMarked(Every, scan);
      if scan == 0 && state == PartiallyInvalid {
        FinishPass(true);
      }
    }

    /** GC_mark_some: one step of the state machine; true when a mark phase was just finished. */
    method MarkSome() returns (done: bool)
      requires Valid()
      modifies this
      ensures Valid() && old(marked) <= marked
      ensures done <==> old(state) == RootsPushed && old(stack) == []
      ensures done ==> state == None && Complete()
      ensures state != Invalid || old(state) == Invalid || marked != old(marked)
      ensures old(state) == None ==> !done && Now() == old(Now())
      ensures old(state) != None && !done ==> state != None && Work().Below(old(Work()))
      ensures |asked| == old(|asked|) + if old(WillGrow()) then 1 else 0
      ensures old(tooSmall) && !old(WillGrow()) ==> tooSmall
      ensures (state == Invalid && old(state) != Invalid ==> tooSmall) && (done ==> !tooSmall)
    {
      done := false;
      match state
      case None =>
      case PushRescuers =>
        RescuersStep();
      case PushUncollectable =>
        UncollectableStep();
      case RootsPushed =>
        if |stack| > 0 {
          MarkFromStack();
        } else {
          NothingPending();
          state := None;
          if tooSmall {
            GrowMarkStack();
          }
          done := true;
        }
      case _ =>
        InvalidStep();
    }

    method InvalidStep()
      requires Valid() && (state == Invalid || state == PartiallyInvalid)
      modifies this
      ensures Valid() && old(marked) <= marked
      ensures state != None && Work().Below(old(Work()))
      ensures state != Invalid || old(state) == Invalid || marked != old(marked)
      ensures |asked| == old(|asked|) + if old(WillGrow()) then 1 else 0
      ensures old(tooSmall) && !old(WillGrow()) ==> tooSmall
      ensures state == Invalid && old(state) != Invalid ==> tooSmall
    {
      if !objectsAreMarked {
        StartUncollectable();
        state := PushUncollectable;
      } else if |stack| > 0 {
        MarkFromStack();
      } else {
        RescanStep();
      }
    }

    lemma NothingPending()
      requires Valid() && state == RootsPushed && stack == []
      ensures Complete()
    {
      forall a, b | a in marked && Points(heap, true, a, b)
        ensures b in marked
      {
        assert Scanned(heap, Now(), {}, a);
        var p: nat :| heap.MustScan(a, p) && heap.At(p) == Pointer(b);
        assert Covered(heap, Now(), {}, p);
      }
    }

    /** Blocks of the one uncollectable kind that the scan skips have no pointers. */
    lemma StartUncollectable()
      requires Valid() && state == Invalid && !objectsAreMarked
      ensures forall o :: o in marked ==>
                Selected(UncollectableOnly, heap.objects[o].block) || Scanned(heap, Now(), {}, o)
    {
      forall o | o in marked && !Selected(UncollectableOnly, heap.objects[o].block)
        ensures Scanned(heap, Now(), {}, o)
      {
        assert heap.WellFormedBlock(heap.objects[o].block);
      }
    }

    // ---- Whole mark phases ----

    function KindOf(o: nat): Kind
      requires o < |heap.objects| && heap.objects[o].block < |heap.blocks|
    {
      heap.blocks[heap.objects[o].block].kind
    }

    predicate Kept(o: nat)
      requires o < |heap.objects| && heap.objects[o].block < |heap.blocks|
    {
      IsUncollectable(KindOf(o))
    }

    /** GC_clear_marks, for a flushed mark stack. */
    method ClearMarks()
      requires Idle() && stack == []
      requires forall o :: o in marked && Kept(o) ==> o in bound
      modifies this`marked, this`objectsAreMarked, this`state, this`scan
      ensures Valid() && state == Invalid && !objectsAreMarked
      ensures forall o :: o in marked <==> o in old(marked) && Kept(o)
      ensures forall o :: o in old(marked) && KindOf(o) in {Uncollectable, AtomicUncollectable} ==> o in marked
      ensures forall o :: o in marked ==> KindOf(o) !in {Normal, PtrFree}
    {
      marked := set o | o in marked && Kept(o);
      objectsAreMarked := false;
      state := Invalid;
      scan := 0;
    }

    /** What must hold to start from existing mark bits: marked objects in unchanged blocks and
        unchanged root ranges point to marked objects only. */
    ghost predicate Remembered()
      reads this
    {
      && stack == []
      && (forall o :: o in marked && o < |heap.objects| && heap.objects[o].block !in dirty ==>
            Scanned(heap, Now(), {}, o))
      && (forall p: nat :: RootWord(true, p) && !RootWord(false, p) ==> Covered(heap, Now(), {}, p))
    }

    /** GC_initiate_gc. */
    method InitiateGc()
      requires Valid() && ((state == None && Remembered()) || state == Invalid)
      modifies this`state, this`scan
      ensures Valid() && scan == 0
      ensures state == if old(state) == None then PushRescuers else Invalid
    {
      scan := 0;
      if state == None {
        state := PushRescuers;
      }
    }

    /** The mark loop of GC_stopped_mark with a stop function that never stops.  It terminates, and marks
        what was marked before and all that roots and marked objects reach; nothing else is marked but
        what they reach if the words of tiny objects count as pointers. */
    method StoppedMark(ghost start: set<nat>)
      requires Valid() && ((state == None && Remembered()) || state == Invalid)
      requires start == marked + RootTargets()
      modifies this
      ensures Valid() && state == None && Complete() && old(marked) <= marked && start <= marked
      ensures forall o :: Reaches(heap, true, start, o) ==> o in marked
      ensures marked <= bound && !tooSmall
    {
      InitiateGc();
      var done := false;
      while !done
        invariant Valid() && (done ==> state == None && Complete()) && (!done ==> state != None)
        invariant old(marked) <= marked && (done ==> !tooSmall)
        decreases !done, Unmarked(), Rank(), BlocksFrom(scan), Weight(stack)
      {
        done := MarkSome();
      }
      ClosedHoldsReachable(heap, true, marked, start);
    }

    ghost function RootTargets(): set<nat> {
      set o | o in heap.Ids() && exists p: nat :: RootWord(true, p) && heap.At(p) == Pointer(o)
    }

    lemma RootTargetsAreRoots()
      ensures forall o :: o in RootTargets() <==> o in heap.Ids() && IsRoot(heap, roots, o)
    {
    }

    /** GC_invalidate_mark_state: drop the mark stack. */
    method InvalidateMarkState()
      requires Idle()
      modifies this`state, this`stack
      ensures Idle() && state == Invalid && stack == []
    {
      state := Invalid;
      stack := [];
    }

    /** The marking part of a full collection: flush the mark stack, clear the marks, mark to the end. */
    method FullMark(ghost start: set<nat>)
      requires Idle() && start <= bound
      requires forall o :: o in start <==> (o in marked && Kept(o)) || o in RootTargets()
      modifies this
      ensures Valid() && state == None && Complete() && start <= marked
      ensures forall o :: Reaches(heap, true, start, o) ==> o in marked
      ensures marked <= bound && !tooSmall
    {
      InvalidateMarkState();
      ClearMarks();
      assert start == marked + RootTargets();
      StoppedMark(start);
    }

    /** Nothing is left to do: roots and marked objects point to marked objects only. */
    ghost predicate Complete()
      reads this
    {
      && stack == []
      && Closed(heap, true, marked)
      && forall p: nat :: RootWord(true, p) && heap.At(p).Pointer? ==> heap.At(p).obj in marked
    }
  }

  /** What the marker asks of its world: a well-formed heap, and sizes such that the static roots, or the
      objects of one block, fill at most half of the initial mark stack. */
  ghost predicate Fits(h: Heap, r: Roots, sizes: Sizes) {
    && h.WellFormed()
    && 1 <= sizes.discards <= sizes.initialSize
    && (forall b :: 0 <= b < |h.blocks| ==> |h.blocks[b].objs| <= sizes.initialSize / 2)
    && |r.full| <= sizes.initialSize / 2 && |r.dirty| <= sizes.initialSize / 2
    && (forall i :: 0 <= i < |r.full| ==> h.Usable(r.full[i].descr))
    && (forall i :: 0 <= i < |r.dirty| ==> h.Usable(r.dirty[i].descr))
    && (forall p: nat :: Pending(h.unit, r.dirty, p) ==> Pending(h.unit, r.full, p))
  }

  ghost predicate IsRoot(h: Heap, r: Roots, o: nat) {
    exists p: nat :: (Pending(h.unit, r.full, p) || p in r.eager) && h.At(p) == Pointer(o)
  }

  /** A full collection marks exactly what roots and kept uncollectable objects reach, whatever the mark
      stack size: at least what a descriptor-following scan reaches, at most what any scan may reach. */
  method MarkFullHeap(h: Heap, r: Roots, changed: set<nat>, sizes: Sizes, marks: set<nat>, ghost start: set<nat>)
      returns (marked: set<nat>)
    requires Fits(h, r, sizes) && marks <= h.Ids()
    requires forall o :: o in start <==>
               || (o in marks && h.blocks[h.objects[o].block].kind in {Uncollectable, AtomicUncollectable})
               || (o in h.Ids() && IsRoot(h, r, o))
    ensures forall o :: o in marks && h.blocks[h.objects[o].block].kind in {Uncollectable, AtomicUncollectable} ==>
              o in marked
    ensures forall o :: Reaches(h, true, start, o) ==> o in marked
    ensures forall o :: o in marked ==> Reaches(h, false, start, o)
  {
    ghost var limit := Reachable(h, false, start);
    ReachableIsClosed(h, false, start);
    var c := new Collector(h, r, changed, sizes, marks, limit);
    c.RootTargetsAreRoots();
    c.FullMark(start);
    marked := c.marked;
    ReachableReaches(h, false, start, marked);
  }
}
