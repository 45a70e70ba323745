/** The large-block allocator (boehmgc/src/allchblk.c), with header installation (boehmgc/src/headers.c)
    and heap growth (boehmgc/src/alloc.c). */
module LargeBlocks {
  import opened Arithmetic
  import opened HeapMap
  import opened BlackList
  import opened Kinds

  class Allocator {
    const z: Sizes
    const blackLists: BlackLists
    const maxBlackListAlloc: nat   // MAX_BLACK_LIST_ALLOC, in blocks
    const findLeak: bool           // GC_find_leak
    var limit: nat                 // BL_LIMIT (GC_black_list_spacing), in blocks
    var useEntireHeap: bool        // GC_use_entire_heap
    var due: nat -> bool           // whether a collection is due, given GC_large_free_bytes
    var largeAllocd: nat           // GC_large_allocd_bytes, in blocks
    var maxLargeAllocd: nat        // GC_max_large_allocd_bytes, in blocks
    var finalizersFree: bool       // finalizers have freed more than a sixteenth of the heap
    var index: Index
    var heads: seq<nat>            // GC_hblkfreelist
    var freeBlocks: seq<nat>       // GC_free_bytes, in blocks
    var largeFree: nat             // GC_large_free_bytes, in blocks
    var heapSize: nat              // GC_heapsize, in blocks
    var sections: seq<(nat, nat)>  // GC_heap_sects: start and length
    var dropCount: nat
    ghost var tiles: Tiles
    ghost var lists: Lists
    ghost var heap: set<nat>

    /** Everything but the two totals is in order, except that block x, while it is being split, may be on
        the list n of the block it was part of, and next to another free block. */
    ghost predicate Good(x: nat, n: nat)
      reads this
    {
      Sound(z, index, heads, freeBlocks, tiles, lists, heap, x, n)
    }

    /** An empty heap. */
    constructor (sizes: Sizes, black: BlackLists, maxBlackListAlloc: nat, limit: nat, findLeak: bool)
      requires sizes.Sensible()
      ensures Ready() && tiles == map[] && heap == {} && largeFree == 0 && heapSize == 0 && blackLists == black
      ensures z == sizes && !useEntireHeap && !finalizersFree && largeAllocd == maxLargeAllocd == dropCount == 0
      ensures sections == [] && forall bytes: nat :: !due(bytes)
      ensures this.maxBlackListAlloc == maxBlackListAlloc && this.limit == limit && this.findLeak == findLeak
    {
      z, blackLists := sizes, black;
      this.maxBlackListAlloc, this.limit, this.findLeak := maxBlackListAlloc, limit, findLeak;
      due, largeAllocd, maxLargeAllocd, finalizersFree := _ => false, 0, 0, false;
      useEntireHeap, index, largeFree, heapSize, sections, dropCount := false, map[], 0, 0, [], 0;
      heads, freeBlocks := seq(N_HBLK_FLS + 1, _ => 0), seq(N_HBLK_FLS + 1, _ => 0);
      tiles, lists, heap := map[], seq(N_HBLK_FLS + 1, _ => []), {};
      new;
      SumOfZeros(freeBlocks);
    }

    /** GC_remove_from_fl, for the block at position j of list i; the list is given, or -1 for the one that the
        block's size says. */
    method RemoveFromFl(b: nat, list: int, ghost x: nat, ghost n: nat, ghost i: nat, ghost j: nat)
      requires Good(x, n) && i < |lists| && j < |lists[i]| && lists[i][j] == b
      requires list == i || (list == -1 && b != x)
      modifies this`index, this`heads, this`freeBlocks, this`tiles, this`lists
      ensures b in old(tiles) && old(tiles)[b].Free? && tiles == old(tiles)[b := Limbo(old(tiles)[b].size, false)]
      ensures Good(if b == x then 0 else x, if b == x then 0 else n)
      ensures Sum(freeBlocks) == old(Sum(freeBlocks)) - old(tiles)[b].size
      ensures lists == old(lists)[i := Without(old(lists)[i], j)]
      ensures SameButLinks(old(index), index)
    {
      Unlink(z, index, heads, freeBlocks, tiles, lists, heap, x, n, i, j);
      ghost var all := Unlinked(index, index[b].hdr.prev, index[b].hdr.next);
      ghost var i0 := index;
      var hdr := index[b].hdr;
      var k: nat := if list == -1 then FlIndex(hdr.sz) else list;
      if hdr.prev == 0 {
        heads := heads[k := hdr.next];
      } else {
        index := WithNext(index, hdr.prev, hdr.next);
      }
      freeBlocks := freeBlocks[k := freeBlocks[k] - hdr.sz];
      if hdr.next != 0 {
        index := WithPrev(index, hdr.next, hdr.prev);
      }
      lists := lists[i := Without(lists[i], j)];
      tiles := tiles[b := Limbo(hdr.sz, false)];
      assert index == all;
      if b == x {
        NoException(tiles, lists, n);
      }
    }

    /** GC_add_to_fl. */
    method AddToFl(h: nat, ghost x: nat, ghost n: nat)
      requires Good(x, n) && h in tiles && tiles[h].Limbo? && !tiles[h].counted && h != x
      requires h in index && index[h].Header? && index[h].hdr.sz == tiles[h].size
      requires NoFreeNeighbour(tiles, h, x)
      modifies this`index, this`heads, this`freeBlocks, this`tiles, this`lists
      ensures Good(x, n) && tiles == old(tiles)[h := Free(old(tiles)[h].size)]
      ensures Sum(freeBlocks) == old(Sum(freeBlocks)) + old(tiles)[h].size
    {
      var hdr := index[h].hdr;
      var i := FlIndex(hdr.sz);
      Insert(z, index, heads, freeBlocks, tiles, lists, heap, x, n, x, n, i, 0, h, hdr);
      ghost var all := Relinked(index, h, hdr, 0, heads[i]);
      var second := heads[i];
      heads := heads[i := h];
      freeBlocks := freeBlocks[i := freeBlocks[i] + hdr.sz];
      index := index[h := Header(hdr.(free := true, prev := 0, next := second))];
      if second != 0 {
        index := WithPrev(index, second, h);
      }
      lists := lists[i := With(lists[i], 0, h)];
      tiles := tiles[h := Free(hdr.sz)];
      assert index == all;
    }

    /** GC_prev_block: the last block at or below a that has a header, or 0. */
    method PrevBlock(a: nat) returns (r: nat)
      requires Good(0, 0)
      ensures r == 0 ==> forall t {:trigger t in tiles} :: t in tiles ==> t > a
      ensures r != 0 ==> r in tiles && r <= a && forall t {:trigger t in tiles} :: t in tiles && t <= a ==> t <= r
    {
      r := a;
      while r > 0
        invariant r <= a
        invariant forall t {:trigger t in tiles} :: t in tiles && t <= a ==> t <= r
      {
        if r in index {
          ghost var t := ReadSlot(z, index, tiles, r);
          if index[r].Header? {
            return;
          }
          assert forall u {:trigger u in tiles} :: u in tiles && u <= r ==> u <= t by {
            forall u {:trigger u in tiles} | u in tiles && u <= r
              ensures u <= t
            {
              assert t < u ==> Before(tiles, t, u);
            }
          }
          r := r - index[r].back;
        } else {
          TileHasHeader(z, index, tiles, r);
          r := r - 1;
        }
      }
      assert forall t {:trigger t in tiles} :: t in tiles ==> Positive(tiles, t);
    }

    /** GC_free_block_ending_at: the free block that ends just before h, or 0. */
    method FreeBlockEndingAt(h: nat) returns (r: nat)
      requires Good(0, 0) && h in tiles && SettledBut(tiles, h)
      ensures r == 0 ==> PrevNotFree(tiles, h)
      ensures r != 0 ==> FreeAt(tiles, r, 0) && EndsAt(tiles, r, h)
    {
      assert Positive(tiles, h);
      var p := h - 1;
      ghost var t := 0;
      if p in index {
        t := ReadSlot(z, index, tiles, p);
      }
      while p in index && index[p].Jump?
        invariant p <= h - 1
        invariant p in index ==> InTile(tiles, t, p) && InTile(tiles, t, h - 1) && (index[p].Header? <==> t == p)
        invariant p !in index ==> p == h - 1
        decreases p
      {
        ghost var u := ReadSlot(z, index, tiles, p);
        OneTile(tiles, t, u, p);
        p := p - index[p].back;
        assert InTile(tiles, t, p);
        InTileIsIndexed(z, index, tiles, t, p);
      }
      if p in index {
        LastBefore(tiles, t, h);
        assert Positive(tiles, p);
        ReadFreeHeader(z, index, tiles, p);
        r := if index[p].hdr.free then p else 0;
        return;
      }
      p := PrevBlock(h - 1);
      if p != 0 {
        assert Before(tiles, p, h) && HeaderOk(z, index, tiles, p);
        ReadFreeHeader(z, index, tiles, p);
        if index[p].hdr.free && p + index[p].hdr.sz == h {
          return p;
        }
      }
      NoneEndsAt(tiles, p, h);
      r := 0;
    }

    /** GC_install_counts. */
    method InstallCounts(h: nat, size: nat)
      requires size >= 1
      modifies this`index
      ensures CountsSet(z, old(index), index, h, size)
    {
      var b := h + 1;
      assert Range(h + 1, h + 1) == {};
      while b < h + size
        invariant h + 1 <= b <= h + size
        invariant CountsSet(z, old(index), index, h, b - h)
      {
        index := index[b := Jump(z.Count(b - h))];
        b := b + 1;
      }
    }

    /** GC_remove_counts. */
    method RemoveCounts(h: nat, size: nat)
      requires size >= 1
      modifies this`index
      ensures index == old(index) - Range(h + 1, h + size)
    {
      var b := h + 1;
      assert Range(h + 1, b) == {};
      while b < h + size
        invariant h + 1 <= b <= h + size
        invariant index == old(index) - Range(h + 1, b)
      {
        index := index - {b};
        b := b + 1;
        assert Between(h + 1, b - 1, b);
        assert Range(h + 1, b) == Range(h + 1, b - 1) + {b - 1};
      }
    }

    /** Block h is being worked on: it is neither used nor on a free list, and its header has its size. */
    ghost predicate Loose(h: nat)
      reads this
    {
      && Good(0, 0) && SettledBut(tiles, h)
      && h in tiles && tiles[h].Limbo? && !tiles[h].counted
      && h in index && index[h].Header? && index[h].hdr.sz == tiles[h].size
    }

    /** Coalescing with the successor. */
    method MergeNext(h: nat)
      requires Loose(h)
      modifies this`index, this`heads, this`freeBlocks, this`tiles, this`lists
      ensures Loose(h) && NextNotFree(tiles, h)
      ensures SameUsed(old(tiles), tiles) && FewerFree(old(tiles), tiles) && FreeKeptBefore(old(tiles), tiles, h)
      ensures old(PrevNotFree(tiles, h)) ==> PrevNotFree(tiles, h)
      ensures Sum(freeBlocks) + tiles[h].size == old(Sum(freeBlocks)) + old(tiles)[h].size
    {
      var hdr := index[h].hdr;
      var next := h + hdr.sz;
      assert next in tiles ==> HeaderOk(z, index, tiles, next);
      if next in index && index[next].Header? {
        assert Positive(tiles, h);
        ReadFreeHeader(z, index, tiles, next);
        if index[next].hdr.free {
          AbsorbNext(tiles, h);
          ghost var j := PlaceOf(next);
          var sz := index[next].hdr.sz;
          RemoveFromFl(next, -1, 0, 0, FlIndex(tiles[next].size), j);
          JoinSound(z, index, heads, freeBlocks, tiles, lists, heap, 0, 0, h, next);
          index := index - {next};
          tiles := Join(tiles, h, next);
          HeaderTouched(z, index, heads, freeBlocks, tiles, lists, heap, 0, 0, h, hdr.(sz := hdr.sz + sz));
          index := index[h := Header(hdr.(sz := hdr.sz + sz))];
        }
      }
    }

    /** Where free block b is on its list. */
    lemma PlaceOf(b: nat) returns (j: nat)
      requires Good(0, 0) && b in tiles && tiles[b].Free?
      ensures FlIndex(tiles[b].size) < |lists| && j < |lists[FlIndex(tiles[b].size)]|
      ensures lists[FlIndex(tiles[b].size)][j] == b && b != 0
    {
      assert Filed(tiles, lists, 0, 0, b) && Positive(tiles, b);
      j :| 0 <= j < |lists[FlIndex(tiles[b].size)]| && lists[FlIndex(tiles[b].size)][j] == b;
    }

    /** Coalescing with predecessor p. */
    method MergePrev(p: nat, h: nat)
      requires Loose(h) && NextNotFree(tiles, h) && FreeAt(tiles, p, 0) && EndsAt(tiles, p, h)
      modifies this`index, this`heads, this`freeBlocks, this`tiles, this`lists
      ensures Loose(p) && NextNotFree(tiles, p) && PrevNotFree(tiles, p)
      ensures SameUsed(old(tiles), tiles) && FewerFree(old(tiles), tiles)
      ensures Sum(freeBlocks) + tiles[p].size == old(Sum(freeBlocks)) + old(tiles)[h].size
    {
      AbsorbPrev(tiles, p, h);
      assert Positive(tiles, p) && HeaderOk(z, index, tiles, p);
      var sz := index[h].hdr.sz;
      ghost var j := PlaceOf(p);
      RemoveFromFl(p, -1, 0, 0, FlIndex(tiles[p].size), j);
      JoinSound(z, index, heads, freeBlocks, tiles, lists, heap, 0, 0, p, h);
      index := index - {h};
      tiles := Join(tiles, p, h);
      var hdr := index[p].hdr;
      HeaderTouched(z, index, heads, freeBlocks, tiles, lists, heap, 0, 0, p, hdr.(sz := hdr.sz + sz));
      index := index[p := Header(hdr.(sz := hdr.sz + sz))];
    }

    /** Block h has a header of a block in use, and is taken as one. */
    ghost predicate Freeable(h: nat)
      reads this
    {
      && Good(0, 0) && SettledBut(tiles, h)
      && h in tiles && !tiles[h].Free?
      && h in index && index[h].Header? && !index[h].hdr.free && z.Blocks(index[h].hdr.sz) == tiles[h].size
    }

    /** Block h loses its forwarding counts and its header becomes that of a free block. */
    method Loosen(h: nat) returns (size: nat)
      requires Freeable(h)
      modifies this`index, this`tiles
      ensures Loose(h) && size == old(tiles)[h].size && tiles == old(tiles)[h := Limbo(size, false)]
    {
      size := z.Blocks(index[h].hdr.sz);
      assert Positive(tiles, h);
      CountsRemoved(z, index, heads, freeBlocks, tiles, lists, heap, 0, 0, h);
      RemoveCounts(h, size);
      tiles := tiles[h := Limbo(size, false)];
      var hdr := index[h].hdr.(sz := size, free := true);
      HeaderTouched(z, index, heads, freeBlocks, tiles, lists, heap, 0, 0, h, hdr);
      index := index[h := Header(hdr)];
    }

    /** Coalescing with both neighbours. */
    method Coalesce(h: nat) returns (b: nat)
      requires Loose(h)
      modifies this`index, this`heads, this`freeBlocks, this`tiles, this`lists
      ensures Loose(b) && NextNotFree(tiles, b) && PrevNotFree(tiles, b)
      ensures SameUsed(old(tiles), tiles) && (b == h || FreeAt(old(tiles), b, 0))
      ensures Sum(freeBlocks) + tiles[b].size == old(Sum(freeBlocks)) + old(tiles)[h].size
    {
      var prev := FreeBlockEndingAt(h);
      ghost var before := tiles;
      assert Positive(tiles, h);
      assert prev != 0 ==> Positive(tiles, prev);
      MergeNext(h);
      b := h;
      if prev != 0 {
        assert Kept(before, tiles, prev);
        ghost var mid := tiles;
        MergePrev(prev, h);
        b := prev;
        UsedAsBefore(before, mid, tiles);
      }
    }

    /** GC_freehblk. */
    method Freehblk(h: nat)
      requires Freeable(h)
      modifies this`index, this`heads, this`freeBlocks, this`tiles, this`lists, this`largeFree
      ensures Good(0, 0) && SettledBut(tiles, 0)
      ensures UsedKept(old(tiles), tiles, h) && UsedKept(tiles, old(tiles), 0) && (h in tiles ==> !tiles[h].Used?)
      ensures Sum(freeBlocks) == old(Sum(freeBlocks)) + old(tiles)[h].size
      ensures largeFree == old(largeFree) + old(tiles)[h].size
      ensures old(largeFree == Sum(freeBlocks) && heapSize == |heap| && MadeOf(sections, heap)) ==> Ready()
      ensures old(tiles)[h].Used? ==>
                UsedCells(tiles, heap) == UsedCells(old(tiles), heap) - Interval(h, old(tiles)[h].size)
    {
      ghost var before := tiles;
      assert Positive(tiles, h);
      var size := Loosen(h);
      largeFree := largeFree + size;
      FreeLoose(h, before);
      if before[h].Used? {
        CellsOfUse(before, tiles, heap, h);
      }
    }

    /** Coalescing a block that is being freed, and filing what comes of it. */
    method FreeLoose(h: nat, ghost before: Tiles)
      requires Loose(h) && h != 0 && h in before && tiles == before[h := Limbo(before[h].size, false)]
      modifies this`index, this`heads, this`freeBlocks, this`tiles, this`lists
      ensures Good(0, 0) && SettledBut(tiles, 0) && Sum(freeBlocks) == old(Sum(freeBlocks)) + before[h].size
      ensures UsedKept(before, tiles, h) && UsedKept(tiles, before, 0) && (h in tiles ==> !tiles[h].Used?)
    {
      var b := Coalesce(h);
      NoneBeside(tiles, b);
      assert Positive(tiles, b);
      ghost var last := tiles;
      AddToFl(b, 0, 0);
      UsedButFreed(before, old(tiles), last, tiles, h, b);
    }

    /** Installing a header for block at, inside free block h, and GC_split_block.  Block at replaces h on list n,
        though that may be the wrong list for its size; it is about to be allocated. */
    method SplitBlock(h: nat, at: nat, n: nat, ghost j: nat)
      requires Good(0, 0) && n < |lists| && j < |lists[n]| && lists[n][j] == h && InTile(tiles, h, at) && h < at
      modifies this`index, this`heads, this`freeBlocks, this`tiles, this`lists
      ensures h in old(tiles) && Good(at, n)
      ensures tiles == old(tiles)[h := Free(at - h)][at := Free(h + old(tiles)[h].size - at)]
      ensures NextNotFree(tiles, at) && Sum(freeBlocks) == old(Sum(freeBlocks))
    {
      ReplaceOnList(h, at, n, j);
      AddToFl(h, at, n);
    }

    method ReplaceOnList(h: nat, at: nat, n: nat, ghost j: nat)
      requires Good(0, 0) && n < |lists| && j < |lists[n]| && lists[n][j] == h && InTile(tiles, h, at) && h < at
      modifies this`index, this`heads, this`freeBlocks, this`tiles, this`lists
      ensures h in old(tiles) && Good(at, n) && tiles == SplitTiles(old(tiles), h, at)
      ensures NoFreeNeighbour(tiles, h, at) && NextNotFree(tiles, at)
      ensures h in index && index[h].Header? && index[h].hdr.sz == at - h
      ensures Sum(freeBlocks) == old(Sum(freeBlocks)) - (at - h)
    {
      assert ListedOk(tiles, lists, 0, 0, n, j) && HeaderOk(z, index, tiles, h);
      SplitNeighbours(tiles, h, at);
      var any: Hdr := *;
      var nhdr := any.(sz := index[h].hdr.sz - (at - h), free := true);
      SplitSound(z, index, heads, freeBlocks, tiles, lists, heap, n, j, h, at, nhdr);
      Relink(h, at, n, nhdr);
      freeBlocks := freeBlocks[n := freeBlocks[n] - (at - h)];
      lists := lists[n := Put(lists[n], j, at)];
      tiles := SplitTiles(tiles, h, at);
    }

    /** The links and sizes after block at has replaced block h on list n. */
    method Relink(h: nat, at: nat, n: nat, nhdr: Hdr)
      requires h in index && index[h].Header? && h < at && n < |heads| && nhdr.free
      requires index[h].hdr.prev != 0 ==> index[h].hdr.prev in index && index[index[h].hdr.prev].Header?
      requires index[h].hdr.next != 0 ==> index[h].hdr.next in index && index[index[h].hdr.next].Header?
      modifies this`index, this`heads
      ensures index == SplitIndex(old(index), h, at, nhdr)
      ensures heads == if old(index)[h].hdr.prev == 0 then old(heads)[n := at] else old(heads)
    {
      var hdr := index[h].hdr;
      index := index[at := Header(nhdr.(prev := hdr.prev, next := hdr.next))];
      if hdr.prev != 0 {
        index := WithNext(index, hdr.prev, at);
      } else {
        heads := heads[n := at];
      }
      if hdr.next != 0 {
        index := WithPrev(index, hdr.next, at);
      }
      index := index[h := Header(hdr.(sz := at - h))];
    }

    /** GC_get_first_part, for block h on list n, in exception x. */
    method GetFirstPart(h: nat, needed: nat, n: nat, ghost x: nat)
      requires Good(x, if x == 0 then 0 else n) && (x == 0 || x == h) && SettledBut(tiles, 0)
      requires FreeAt(tiles, h, 0) && Home(tiles, x, n, h) == n && NextNotFree(tiles, h) && 0 < needed <= tiles[h].size
      modifies this`index, this`heads, this`freeBlocks, this`tiles, this`lists
      ensures Good(0, 0) && TakenFrom(old(tiles), tiles, h, h, needed)
      ensures Sum(freeBlocks) == old(Sum(freeBlocks)) - needed
    {
      ghost var before := tiles;
      ghost var m := if x == 0 then 0 else n;
      assert Filed(tiles, lists, x, m, h) && HeaderOk(z, index, tiles, h) && Positive(tiles, h);
      ghost var j :| 0 <= j < |lists[n]| && lists[n][j] == h;
      var total := index[h].hdr.sz;
      RemoveFromFl(h, n, x, m, n, j);
      assert NextNotFree(tiles, h) && before[h] == Free(total);
      FileRest(h, needed, total, before);
    }

    /** What is left of a block that has been taken off its list is put on another one. */
    method FileRest(h: nat, needed: nat, total: nat, ghost before: Tiles)
      requires Good(0, 0) && h in before && before[h] == Free(total) && tiles == before[h := Limbo(total, false)]
      requires Tiling(before) && SettledBut(before, 0) && NextNotFree(tiles, h) && 0 < needed <= total
      modifies this`index, this`heads, this`freeBlocks, this`tiles, this`lists
      ensures Good(0, 0) && TakenFrom(before, tiles, h, h, needed)
      ensures Sum(freeBlocks) == old(Sum(freeBlocks)) + total - needed
    {
      if total != needed {
        CutRest(h, needed, total);
        AddToFl(h + needed, 0, 0);
      }
      TookFront(before, tiles, h, needed);
    }

    /** A header for what is left of block h behind its first k blocks. */
    method CutRest(h: nat, k: nat, total: nat)
      requires Good(0, 0) && h in tiles && tiles[h].Limbo? && !tiles[h].counted
      requires NextNotFree(tiles, h) && 0 < k < tiles[h].size == total
      modifies this`index, this`tiles
      ensures Good(0, 0) && tiles == Cut(old(tiles), h, k) && NoFreeNeighbour(tiles, h + k, 0)
      ensures h + k in index && index[h + k].Header? && index[h + k].hdr.sz == tiles[h + k].size
    {
      RestNeighbours(tiles, h, k);
      var any: Hdr := *;
      CutSound(z, index, heads, freeBlocks, tiles, lists, heap, 0, 0, h, k, any.(sz := total - k));
      index := index[h + k := Header(any.(sz := total - k))];
      tiles := Cut(tiles, h, k);
    }

    /** The header of a block of objects of the given size (setup_header). */
    function UsedHeader(hdr: Hdr, words: nat, kind: Kind): Hdr {
      hdr.(sz := words, free := false, kind := kind)
    }

    /** Block h, on list n at position j and black-listed all over, is allocated as one-block pieces that nobody
        refers to. */
    method Drop(h: nat, n: nat, ghost j: nat) returns (prev: nat)
      requires Good(0, 0) && SettledBut(tiles, 0) && n < |lists| && j < |lists[n]| && lists[n][j] == h
      modifies this`index, this`heads, this`freeBlocks, this`tiles, this`lists, this`largeFree
      requires largeFree == Sum(freeBlocks)
      ensures Good(0, 0) && SettledBut(tiles, 0) && largeFree == Sum(freeBlocks)
      ensures h in old(tiles) && largeFree == old(largeFree) - old(tiles)[h].size
      ensures lists == old(lists)[n := Without(old(lists)[n], j)] && prev == At(old(lists)[n], j - 1)
      ensures UsedKept(old(tiles), tiles, 0) && FewerFree(old(tiles), tiles)
      ensures h in old(tiles) && AllUsed(tiles, h, h + old(tiles)[h].size)
      ensures OnlyPieces(old(tiles), tiles, h, h + old(tiles)[h].size)
    {
      assert ListedOk(tiles, lists, 0, 0, n, j) && HeaderOk(z, index, tiles, h) && LinkOk(index, lists[n], j);
      assert Positive(tiles, h);
      ghost var before := tiles;
      var total := index[h].hdr.sz;
      prev := index[h].hdr.prev;
      RemoveFromFl(h, n, 0, 0, n, j);
      largeFree := largeFree - total;
      ghost var whole := tiles;
      BreakUp(h, total);
      BreakingStep(whole, tiles, h, h + total - 1, total);
      DropLast(z, index, heads, freeBlocks, tiles, lists, heap, h + total - 1);
      Broken(whole, tiles, h, total);
      tiles := tiles[h + total - 1 := Used(1)];
      KeptWhenDropped(before, tiles, h);
    }

    /** Turning a block that is being worked on into one-block pieces in use, except the last piece. */
    method BreakUp(h: nat, total: nat)
      requires Good(0, 0) && h in tiles && tiles[h] == Limbo(total, false)
      modifies this`index, this`tiles
      ensures Good(0, 0) && total >= 1 && Breaking(old(tiles), tiles, h, h + total - 1, total)
      ensures PieceHeader(h + total - 1)
    {
      assert Positive(tiles, h);
      MakePiece(h);
      assert forall a :: BrokenAt(tiles, tiles, h, h, total, a);
      var b := h;
      while b + 1 < h + total
        invariant h <= b < h + total && Good(0, 0) && Breaking(old(tiles), tiles, h, b, total) && PieceHeader(b)
      {
        BreakingStep(old(tiles), tiles, h, b, total);
        BreakOff(b);
        b := b + 1;
      }
    }

    /** Block b has the header of a one-block piece. */
    ghost predicate PieceHeader(b: nat)
      requires z.Sensible()
      reads this`index
    {
      b in index && index[b].Header? && !index[b].hdr.free && z.Blocks(index[b].hdr.sz) == 1
    }

    method MakePiece(h: nat)
      requires Good(0, 0) && h in tiles && tiles[h].Limbo?
      modifies this`index
      ensures Good(0, 0) && PieceHeader(h)
    {
      assert HeaderOk(z, index, tiles, h);
      BlocksOfWords(z, 1);
      var hdr := UsedHeader(index[h].hdr, z.wordsPerBlock, PtrFree);
      HeaderTouched(z, index, heads, freeBlocks, tiles, lists, heap, 0, 0, h, hdr);
      index := index[h := Header(hdr)];
    }

    /** The front of block b becomes a piece, and what is behind it gets a header. */
    method BreakOff(b: nat)
      requires Good(0, 0) && b in tiles && tiles[b].Limbo? && !tiles[b].counted && tiles[b].size > 1
      requires PieceHeader(b)
      modifies this`index, this`tiles
      ensures Good(0, 0) && b + 1 !in old(tiles) && PieceHeader(b + 1)
      ensures tiles == old(tiles)[b := Used(1)][b + 1 := Limbo(old(tiles)[b].size - 1, false)]
    {
      BlocksOfWords(z, 1);
      var any: Hdr := *;
      DropStep(z, index, heads, freeBlocks, tiles, lists, heap, b, UsedHeader(any, z.wordsPerBlock, PtrFree));
      index := index[b + 1 := Header(UsedHeader(any, z.wordsPerBlock, PtrFree))];
      tiles := tiles[b := Used(1)][b + 1 := Limbo(tiles[b].size - 1, false)];
    }

    /** Requests that ignore the black lists. */
    predicate Exempt(kind: Kind, needed: nat) {
      IsUncollectable(kind) || (kind.PtrFree? && needed <= maxBlackListAlloc)
    }

    /** Some start in the block, with needed blocks behind it, is not black-listed. */
    ghost predicate CleanStart(b: nat, size: nat, needed: nat, eff: nat)
      requires blackLists.Valid()
      reads blackLists
    {
      exists c {:trigger blackLists.Listed(c, eff)} :: b <= c && c + needed <= b + size && !blackLists.Listed(c, eff)
    }

    /** Free block b can serve the request: it is big enough and, unless the black lists are ignored, has a clean
        start, or both the request and what it would leave exceed BL_LIMIT. */
    ghost predicate Suits(t: Tiles, b: nat, kind: Kind, needed: nat, eff: nat)
      requires blackLists.Valid()
      reads this`limit, blackLists
    {
      && FreeAt(t, b, 0) && t[b].size >= needed
      && (|| Exempt(kind, needed)
          || CleanStart(b, t[b].size, needed, eff)
          || (needed > limit && t[b].size - needed > limit))
    }

    /** The same, for an exact fit if one is wanted. */
    ghost predicate SuitsAs(t: Tiles, b: nat, kind: Kind, needed: nat, eff: nat, exact: bool)
      requires blackLists.Valid()
      reads this`limit, blackLists
    {
      Suits(t, b, kind, needed, eff) && (exact ==> t[b].size == needed)
    }

    /** The next block is as clean as is tested. */
    lemma NextSuits(h: nat, kind: Kind, needed: nat, eff: nat)
      requires blackLists.Valid() && FreeAt(tiles, h, 0) && 1 <= eff <= needed <= tiles[h].size
      requires !blackLists.Listed(h, needed)
      ensures Suits(tiles, h, kind, needed, eff)
    {
      if blackLists.Listed(h, eff) {
        blackLists.ListedMore(h, eff, needed);
      }
    }

    /** With so much free in all and on each list, a collection comes before splitting a block of list n: it is due, and
        large allocations could not come back to where they were with what is free on that list and those behind it,
        or finalizers are freeing a lot. */
    ghost predicate Paced(n: nat, free: nat, counts: seq<nat>)
      reads this`useEntireHeap, this`due, this`largeAllocd, this`maxLargeAllocd, this`finalizersFree
    {
      && !useEntireHeap && due(free) && n <= |counts|
      && (largeAllocd + Sum(counts[n..]) <= maxLargeAllocd || finalizersFree)
    }

    /** No collection can come to be preferred to splitting a block of list n while a request is served, even if blocks
        are dropped where they may be. */
    ghost predicate Open(n: nat, drops: bool, free: nat, counts: seq<nat>)
      reads this`useEntireHeap, this`due, this`largeAllocd, this`maxLargeAllocd, this`finalizersFree
    {
      || useEntireHeap
      || (forall f: nat :: f <= free ==> !due(f))
      || (!drops && !Paced(n, free, counts))
    }

    lemma StillOpen(n: nat, drops: bool, free: nat, counts: seq<nat>, free': nat, counts': seq<nat>)
      requires Open(n, drops, free, counts) && free' <= free && (drops || (free' == free && counts' == counts))
      ensures Open(n, drops, free', counts') && !Paced(n, free', counts')
    {
    }

    /** GC_enough_large_bytes_left. */
    method EnoughLargeLeft(n: nat) returns (enough: bool)
      requires n <= N_HBLK_FLS && |freeBlocks| == N_HBLK_FLS + 1
      ensures enough <==> largeAllocd + Sum(freeBlocks[n..]) > maxLargeAllocd
    {
      var blocks := largeAllocd;
      var i: int := N_HBLK_FLS;
      assert freeBlocks[N_HBLK_FLS + 1..] == [];
      while i >= n
        invariant n - 1 <= i <= N_HBLK_FLS && blocks == largeAllocd + Sum(freeBlocks[i + 1..])
        invariant i < N_HBLK_FLS ==> blocks <= maxLargeAllocd
        decreases i
      {
        assert freeBlocks[i..][1..] == freeBlocks[i + 1..];
        blocks := blocks + freeBlocks[i];
        if blocks > maxLargeAllocd {
          SumOfMore(freeBlocks, n, i);
          return true;
        }
        i := i - 1;
      }
      return false;
    }

    /** The block behind h on its list is obviously better: it is smaller, big enough and not black-listed. */
    ghost predicate BetterNext(h: nat, needed: nat)
      requires blackLists.Valid()
      reads this, blackLists
    {
      && h in tiles && NextOf(h) != 0 && NextOf(h) in tiles
      && needed <= tiles[NextOf(h)].size < tiles[h].size && !blackLists.Listed(NextOf(h), needed)
    }

    /** The start for needed blocks in free block h: the first that is not black-listed, if black lists matter, and
        h itself if they do not or if all are and block and request are so large that it is used all the same. */
    ghost predicate FirstClean(h: nat, at: nat, kind: Kind, needed: nat, eff: nat)
      requires blackLists.Valid() && eff >= 1
      reads this`limit, this`tiles, blackLists
    {
      && (Exempt(kind, needed) ==> at == h)
      && (!Exempt(kind, needed) ==> (blackLists.Listed(at, eff) ==> at == h) &&
                                    forall b :: h <= b < at ==> blackLists.Listed(b, eff))
    }

    /** Whether to allocate needed blocks from free block h of list n: where to, if so. */
    method Choose(h: nat, kind: Kind, needed: nat, eff: nat, n: nat) returns (verdict: Verdict)
      requires Good(0, 0) && SettledBut(tiles, 0) && FreeAt(tiles, h, 0) && blackLists.Valid()
      requires 1 <= eff <= needed && n <= N_HBLK_FLS
      ensures verdict.Take? ==> h <= verdict.at && verdict.at + needed <= h + tiles[h].size
      ensures verdict.Take? && !Exempt(kind, needed) ==>
                || !blackLists.Listed(verdict.at, eff)
                || (needed > limit && tiles[h].size - needed > limit)
      ensures verdict.Take? ==> FirstClean(h, verdict.at, kind, needed, eff)
      ensures !verdict.Pass? ==> !BetterNext(h, needed)
      ensures verdict.Pass? && !Paced(n, largeFree, freeBlocks) ==>
                !Suits(tiles, h, kind, needed, eff) || Suits(tiles, NextOf(h), kind, needed, eff)
      ensures verdict.Pass? && tiles[h].size == needed ==> !Suits(tiles, h, kind, needed, eff)
      ensures !verdict.Pass? && Paced(n, largeFree, freeBlocks) ==> tiles[h].size == needed
      ensures verdict.ListedAllOver? ==> !Suits(tiles, h, kind, needed, eff)
      ensures verdict.ListedAllOver? ==> !Exempt(kind, needed) && needed == 1
      ensures verdict.ListedAllOver? ==> forall b :: h <= b < h + tiles[h].size ==> blackLists.Listed(b, 1)
    {
      var skip := Skip(h, kind, needed, eff, n);
      if skip {
        return Pass;
      }
      if Exempt(kind, needed) {
        return Take(h);
      }
      verdict := FindStart(h, kind, needed, eff);
    }

    /** Whether free block h of list n is passed over at once: it is too small, or would be split though a collection
        comes first, or the next one is better. */
    method Skip(h: nat, ghost kind: Kind, needed: nat, ghost eff: nat, n: nat) returns (skip: bool)
      requires Good(0, 0) && FreeAt(tiles, h, 0) && blackLists.Valid() && 1 <= eff <= needed && n <= N_HBLK_FLS
      ensures skip ==> tiles[h].size != needed
      ensures skip && !Paced(n, largeFree, freeBlocks) ==>
                tiles[h].size < needed || Suits(tiles, NextOf(h), kind, needed, eff)
      ensures !skip ==> tiles[h].size >= needed && !BetterNext(h, needed)
      ensures !skip && Paced(n, largeFree, freeBlocks) ==> tiles[h].size == needed
    {
      assert HeaderOk(z, index, tiles, h);
      var hdr := index[h].hdr;
      if hdr.sz < needed {
        return true;
      }
      if hdr.sz != needed && !useEntireHeap && due(largeFree) {
        var enough := EnoughLargeLeft(n);
        if !enough || finalizersFree {
          return true;
        }
      }
      if hdr.next != 0 {
        NextIsFree(h);
        var next := index[hdr.next].hdr.sz;
        if next < hdr.sz && next >= needed {
          var listed := blackLists.IsBlackListed(hdr.next, needed);
          if listed == 0 {
            NextSuits(hdr.next, kind, needed, eff);
            return true;
          }
        }
      }
      return false;
    }

    /** The search for a start that is not black-listed. */
    method FindStart(h: nat, kind: Kind, needed: nat, eff: nat) returns (verdict: Verdict)
      requires Good(0, 0) && FreeAt(tiles, h, 0) && blackLists.Valid()
      requires 1 <= eff <= needed <= tiles[h].size && !Exempt(kind, needed)
      ensures verdict.Take? ==> h <= verdict.at && verdict.at + needed <= h + tiles[h].size
      ensures verdict.Take? ==>
                || !blackLists.Listed(verdict.at, eff)
                || (needed > limit && tiles[h].size - needed > limit)
      ensures verdict.Take? ==> FirstClean(h, verdict.at, kind, needed, eff)
      ensures !verdict.Take? ==> !Suits(tiles, h, kind, needed, eff)
      ensures verdict.ListedAllOver? ==> needed == 1
      ensures verdict.ListedAllOver? ==> forall b :: h <= b < h + tiles[h].size ==> blackLists.Listed(b, 1)
    {
      assert HeaderOk(z, index, tiles, h);
      var size := index[h].hdr.sz;
      var last := h;
      var r: int := -1;
      while last + needed <= h + size && r != 0
        invariant h <= last <= h + size
        invariant forall b :: h <= b < last ==> blackLists.Listed(b, eff)
        invariant r == 0 ==> last + needed <= h + size && !blackLists.Listed(last, eff)
        decreases h + size - last, if r != 0 then 1 else 0
      {
        r := blackLists.IsBlackListed(last, eff);
        if r != 0 {
          last := r;
        }
      }
      if last + needed <= h + size {
        verdict := Take(last);
      } else if needed > limit && size - needed > limit {
        verdict := Take(h);
      } else if last == h + size && needed == 1 {
        verdict := ListedAllOver;
      } else {
        verdict := Pass;
      }
    }

    /** The block behind h on its list, or 0. */
    ghost function NextOf(h: nat): nat
      reads this
    {
      if h in index && index[h].Header? then index[h].hdr.next else 0
    }

    lemma NextIsFree(h: nat)
      requires Good(0, 0) && FreeAt(tiles, h, 0) && NextOf(h) != 0
      ensures FreeAt(tiles, NextOf(h), 0) && HeaderOk(z, index, tiles, NextOf(h))
    {
      var j := PlaceOf(h);
      var i := FlIndex(tiles[h].size);
      assert LinkOk(index, lists[i], j) && ListedOk(tiles, lists, 0, 0, i, j + 1);
      assert HeaderOk(z, index, tiles, lists[i][j+1]);
    }

    /** Block r is in use for objects of the given size and kind. */
    ghost predicate Allocated(r: nat, words: nat, kind: Kind)
      requires z.Sensible()
      reads this
    {
      && r in tiles && tiles[r] == Used(z.Blocks(words))
      && r in index && index[r].Header? && index[r].hdr.sz == words && index[r].hdr.kind == kind
    }

    /** No block among the first j of list n can serve the request. */
    ghost predicate NoneSuits(n: nat, j: nat, kind: Kind, needed: nat, eff: nat, exact: bool)
      requires blackLists.Valid()
      reads this, blackLists
    {
      n < |lists| && j <= |lists[n]| &&
      forall k {:trigger SuitsAs(tiles, lists[n][k], kind, needed, eff, exact)} :: 0 <= k < j ==>
        !SuitsAs(tiles, lists[n][k], kind, needed, eff, exact)
    }

    /** If one of them can, so can the one at position j. */
    ghost predicate Passed(n: nat, j: nat, kind: Kind, needed: nat, eff: nat, exact: bool)
      requires blackLists.Valid()
      reads this, blackLists
    {
      || NoneSuits(n, j, kind, needed, eff, exact)
      || (n < |lists| && j < |lists[n]| && SuitsAs(tiles, lists[n][j], kind, needed, eff, exact))
    }

    /** Passing over block h is right, if block g is the next one. */
    ghost predicate MayPass(h: nat, g: nat, kind: Kind, needed: nat, eff: nat, exact: bool)
      requires blackLists.Valid()
      reads this, blackLists
    {
      SuitsAs(tiles, h, kind, needed, eff, exact) ==> SuitsAs(tiles, g, kind, needed, eff, exact)
    }

    lemma PassOn(n: nat, j: nat, kind: Kind, needed: nat, eff: nat, exact: bool)
      requires Good(0, 0) && blackLists.Valid() && n < |lists| && j < |lists[n]|
      requires Passed(n, j, kind, needed, eff, exact)
      requires MayPass(lists[n][j], At(lists[n], j + 1), kind, needed, eff, exact)
      ensures Passed(n, j + 1, kind, needed, eff, exact)
    {
    }

    /** Splitting block h at block at if that is not its start, and taking the needed blocks there. */
    method TakeFrom(h: nat, at: nat, needed: nat, n: nat)
      requires Good(0, 0) && SettledBut(tiles, 0) && FreeAt(tiles, h, 0) && FlIndex(tiles[h].size) == n
      requires 1 <= needed && h <= at && at + needed <= h + tiles[h].size
      modifies this`index, this`heads, this`freeBlocks, this`tiles, this`lists
      ensures Good(0, 0) && TakenFrom(old(tiles), tiles, h, at, needed) && at != 0
      ensures Sum(freeBlocks) == old(Sum(freeBlocks)) - needed
    {
      ghost var before := tiles;
      assert Positive(tiles, h);
      if at != h {
        ghost var j := PlaceOf(h);
        SplitBlock(h, at, n, j);
        ghost var mid := tiles;
        GetFirstPart(at, needed, n, at);
        TookMiddle(before, mid, tiles, h, at, needed);
      } else {
        assert Alone(tiles, h, 0);
        GetFirstPart(at, needed, n, 0);
      }
    }

    /** Forwarding counts and a header for a block that has been taken. */
    method Finish(h: nat, words: nat, kind: Kind)
      requires Good(0, 0) && h in tiles && tiles[h] == Limbo(z.Blocks(words), false)
      modifies this`index, this`tiles
      ensures Good(0, 0) && tiles == old(tiles)[h := Used(z.Blocks(words))]
      ensures Allocated(h, words, kind)
    {
      ghost var size := z.Blocks(words);
      assert Positive(tiles, h) && HeaderOk(z, index, tiles, h);
      ghost var before := index;
      InstallCounts(h, z.Blocks(words));
      CountsInstalled(z, before, index, heads, freeBlocks, tiles, lists, heap, 0, 0, h);
      tiles := tiles[h := Limbo(size, true)];
      HeaderSet(z, index, heads, freeBlocks, tiles, lists, heap, 0, 0, h, UsedHeader(index[h].hdr, words, kind));
      index := index[h := Header(UsedHeader(index[h].hdr, words, kind))];
      tiles := tiles[h := Used(size)];
    }

    /** What holds between operations: the state is sound, every block is free or in use, the totals are right, and
        the heap is made of the sections. */
    ghost predicate Ready()
      reads this
    {
      && Good(0, 0) && SettledBut(tiles, 0)
      && largeFree == Sum(freeBlocks) && heapSize == |heap| && MadeOf(sections, heap)
    }

    /** The used blocks of after that were not used before, block r excepted if it is not 0, are one-block pieces
        of blocks that were black-listed all over. */
    ghost predicate Pieces(before: Tiles, after: Tiles, r: nat)
      requires blackLists.Valid()
      reads blackLists
    {
      forall a {:trigger Kept(after, before, a)} :: a in after && after[a].Used? && !(a == r != 0) ==>
        Kept(after, before, a) || Piece(after, a)
    }

    ghost predicate Piece(after: Tiles, a: nat)
      requires blackLists.Valid()
      reads blackLists
    {
      Single(after, a) && blackLists.Listed(a, 1)
    }

    /** The k blocks at r were part of a free block, so much larger than k if large is given. */
    ghost predicate WasFree(before: Tiles, r: nat, k: nat, large: nat) {
      exists b {:trigger InFree(before, b, r, k, large)} :: InFree(before, b, r, k, large)
    }

    ghost predicate InFree(before: Tiles, b: nat, r: nat, k: nat, large: nat) {
      && b in before && before[b].Free? && b <= r && r + k <= b + before[b].size
      && before[b].size >= k + large
    }

    /** Block r is not black-listed, or both the request and what is left of the free block exceed BL_LIMIT. */
    ghost predicate Clean(before: Tiles, r: nat, needed: nat, eff: nat)
      requires blackLists.Valid()
      reads this`limit, blackLists
    {
      !blackLists.Listed(r, eff) || (needed > limit && WasFree(before, r, needed, limit + 1))
    }

    ghost predicate MayDrop(kind: Kind, needed: nat) {
      !Exempt(kind, needed) && needed == 1 && !findLeak
    }

    /** Allocating at the block chosen. */
    method Allocate(h: nat, at: nat, words: nat, kind: Kind, n: nat)
      requires Ready() && FreeAt(tiles, h, 0) && FlIndex(tiles[h].size) == n
      requires words >= 1 && h <= at && at + z.Blocks(words) <= h + tiles[h].size
      modifies this`index, this`heads, this`freeBlocks, this`tiles, this`lists, this`largeFree
      ensures Ready() && at != 0 && Allocated(at, words, kind)
      ensures UsedKept(old(tiles), tiles, 0) && UsedKept(tiles, old(tiles), at)
    {
      ghost var before := tiles;
      SomeBlocks(z, words);
      TakeFrom(h, at, z.Blocks(words), n);
      TookForUse(before, tiles, h, at, z.Blocks(words));
      Finish(at, words, kind);
      largeFree := largeFree - z.Blocks(words);
    }

    /** A place on a list. */
    lemma OnList(n: nat, j: nat)
      requires Good(0, 0) && n < |lists| && j < |lists[n]|
      ensures var h := lists[n][j];
              && FreeAt(tiles, h, 0) && FlIndex(tiles[h].size) == n
              && h in index && index[h].Header? && index[h].hdr.next == At(lists[n], j + 1)
              && NextOf(h) == At(lists[n], j + 1)
    {
      assert ListedOk(tiles, lists, 0, 0, n, j) && LinkOk(index, lists[n], j);
      assert Positive(tiles, lists[n][j]);
    }

    /** What an allocation that returns r has done since the tiling was first: blocks in use stay in use; new ones
        are r and, where blocks may be dropped, one-block pieces; r was free, and is not black-listed unless the
        request is exempt or very large. */
    ghost predicate Outcome(first: Tiles, r: nat, words: nat, kind: Kind, eff: nat)
      requires blackLists.Valid() && z.Sensible()
      reads this, blackLists
    {
      && UsedKept(first, tiles, 0) && Pieces(first, tiles, r)
      && (!MayDrop(kind, z.Blocks(words)) ==> UsedKept(tiles, first, r))
      && (r != 0 ==> Allocated(r, words, kind) && WasFree(first, r, z.Blocks(words), 0))
      && (r != 0 && !Exempt(kind, z.Blocks(words)) ==> Clean(first, r, z.Blocks(words), eff))
    }

    ghost predicate SomeSuited(first: Tiles, kind: Kind, needed: nat, eff: nat)
      requires blackLists.Valid()
      reads this`limit, blackLists
    {
      exists b {:trigger Suits(first, b, kind, needed, eff)} :: Suits(first, b, kind, needed, eff)
    }

    /** What was allocated was in a free block that suited the request. */
    lemma ServedSuits(first: Tiles, r: nat, words: nat, kind: Kind, eff: nat)
      requires blackLists.Valid() && z.Sensible() && Outcome(first, r, words, kind, eff) && r != 0 && words >= 1
      requires Tiling(first)
      ensures SomeSuited(first, kind, z.Blocks(words), eff)
    {
      var k := z.Blocks(words);
      var b :| InFree(first, b, r, k, 0);
      assert Positive(first, b);
      if Exempt(kind, k) || !blackLists.Listed(r, eff) {
        assert Suits(first, b, kind, k, eff);
      } else {
        var c :| InFree(first, c, r, k, limit + 1);
        assert Positive(first, c);
        assert Suits(first, c, kind, k, eff);
      }
    }

    /** Allocation after some blocks may have been dropped. */
    lemma TakenWell(first: Tiles, before: Tiles, h: nat, r: nat, words: nat, kind: Kind, eff: nat)
      requires blackLists.Valid() && z.Sensible()
      requires UsedKept(first, before, 0) && FewerFree(first, before) && Pieces(first, before, 0)
      requires MayDrop(kind, z.Blocks(words)) || before == first
      requires InFree(before, h, r, z.Blocks(words), 0) && UsedKept(before, tiles, 0) && UsedKept(tiles, before, r)
      requires Allocated(r, words, kind)
      requires !Exempt(kind, z.Blocks(words)) ==>
                 || !blackLists.Listed(r, eff)
                 || (z.Blocks(words) > limit && before[h].size - z.Blocks(words) > limit)
      ensures Outcome(first, r, words, kind, eff)
    {
      var k := z.Blocks(words);
      assert Kept(first, before, h) && InFree(first, h, r, k, 0);
      forall a | a in first && first[a].Used?
        ensures Kept(first, tiles, a)
      {
        assert Kept(first, before, a) && Kept(before, tiles, a);
      }
      PiecesChain(first, before, tiles, r);
      assert k > limit && before[h].size - k > limit ==> InFree(first, h, r, k, limit + 1);
    }

    lemma PiecesChain(first: Tiles, mid: Tiles, after: Tiles, r: nat)
      requires blackLists.Valid() && Pieces(first, mid, 0) && Pieces(mid, after, r)
      ensures Pieces(first, after, r)
    {
      forall a | a in after && after[a].Used? && !(a == r != 0)
        ensures Kept(after, first, a) || Piece(after, a)
      {
        if Kept(after, mid, a) {
          assert Kept(mid, first, a) || Piece(mid, a);
        }
      }
    }

    /** The search started over after drops that had led to the tiling mid. */
    lemma Again(first: Tiles, mid: Tiles, r: nat, words: nat, kind: Kind, eff: nat)
      requires blackLists.Valid() && z.Sensible() && MayDrop(kind, z.Blocks(words))
      requires UsedKept(first, mid, 0) && FewerFree(first, mid) && Pieces(first, mid, 0)
      requires Outcome(mid, r, words, kind, eff)
      ensures Outcome(first, r, words, kind, eff)
    {
      PiecesChain(first, mid, tiles, r);
      forall a | a in first && first[a].Used?
        ensures Kept(first, tiles, a)
      {
        assert Kept(first, mid, a) && Kept(mid, tiles, a);
      }
      forall b, k: nat, large: nat | InFree(mid, b, r, k, large)
        ensures InFree(first, b, r, k, large)
      {
        assert Kept(first, mid, b);
      }
    }

    /** Since the tiling was first, blocks may have been dropped, and nothing else. */
    ghost predicate OnlyDropped(first: Tiles)
      requires blackLists.Valid()
      reads this`tiles, blackLists
    {
      UsedKept(first, tiles, 0) && FewerFree(first, tiles) && Pieces(first, tiles, 0)
    }

    lemma NoneServed(first: Tiles, words: nat, kind: Kind, eff: nat)
      requires blackLists.Valid() && z.Sensible() && OnlyDropped(first)
      requires MayDrop(kind, z.Blocks(words)) || tiles == first
      ensures Outcome(first, 0, words, kind, eff)
    {
    }

    /** Dropping a block that is black-listed all over. */
    method DropListed(h: nat, n: nat, ghost j: nat, ghost first: Tiles) returns (prev: nat)
      requires Ready() && n < |lists| && j < |lists[n]| && lists[n][j] == h && blackLists.Valid()
      requires OnlyDropped(first)
      requires h in tiles && forall b :: h <= b < h + tiles[h].size ==> blackLists.Listed(b, 1)
      modifies this`index, this`heads, this`freeBlocks, this`tiles, this`lists, this`largeFree
      ensures Ready()
      ensures lists == old(lists)[n := Without(old(lists)[n], j)] && prev == At(old(lists)[n], j - 1)
      ensures OnlyDropped(first)
      ensures FewerFree(old(tiles), tiles) && largeFree <= old(largeFree)
    {
      ghost var mid := tiles;
      prev := Drop(h, n, j);
      forall a | a in tiles && tiles[a].Used?
        ensures Kept(tiles, mid, a) || Piece(tiles, a)
      {
        assert h <= a < h + mid[h].size ==> Single(tiles, a);
      }
      PiecesChain(first, mid, tiles, 0);
      forall a | a in first && first[a].Used?
        ensures Kept(first, tiles, a)
      {
        assert Kept(first, mid, a) && Kept(mid, tiles, a);
      }
      forall a | a in tiles && tiles[a].Free?
        ensures Kept(first, tiles, a)
      {
        assert Kept(mid, tiles, a) && Kept(first, mid, a);
      }
    }

    /** Dropping a block that is black-listed all over every fourth time.  The search goes on behind block h', or
        from the start. */
    method DropSome(h: nat, n: nat, ghost j: nat, ghost first: Tiles, ghost kind: Kind, ghost needed: nat,
                    ghost eff: nat, ghost exact: bool)
        returns (h': nat, ghost j': nat)
      requires Ready() && n < |lists| && j < |lists[n]| && lists[n][j] == h && blackLists.Valid()
      requires OnlyDropped(first)
      requires h in tiles && forall b :: h <= b < h + tiles[h].size ==> blackLists.Listed(b, 1)
      modifies this`index, this`heads, this`freeBlocks, this`tiles, this`lists, this`largeFree, this`dropCount
      ensures Ready()
      ensures OnlyDropped(first)
      ensures dropCount == old(dropCount) + 1
      ensures if dropCount % 4 == 0 then lists == old(lists)[n := Without(old(lists)[n], j)]
              else tiles == old(tiles) && lists == old(lists)
      ensures |lists[n]| < |old(lists)[n]| || (|lists[n]| == |old(lists)[n]| && h' != 0 && j' == j)
      ensures h' != 0 ==>
                && j' < |lists[n]| && h' in index && index[h'].Header?
                && index[h'].hdr.next == At(lists[n], j' + 1)
      ensures h' != 0 && old(NoneSuits(n, j + 1, kind, needed, eff, exact)) ==>
                NoneSuits(n, j' + 1, kind, needed, eff, exact)
      ensures largeFree <= old(largeFree)
    {
      OnList(n, j);
      dropCount := dropCount + 1;
      h', j' := h, j;
      if dropCount % 4 == 0 {
        ghost var before, list := tiles, lists[n];
        h' := DropListed(h, n, j, first);
        if h' != 0 {
          j' := j - 1;
          OnList(n, j');
          StillNoneSuit(before, list, n, j, kind, needed, eff, exact);
        }
      }
    }

    /** The blocks before a dropped one are as they were. */
    lemma StillNoneSuit(before: Tiles, list: seq<nat>, n: nat, j: nat, kind: Kind, needed: nat, eff: nat, exact: bool)
      requires Good(0, 0) && blackLists.Valid() && n < |lists| && j < |list| && lists[n] == Without(list, j)
      requires FewerFree(before, tiles)
      ensures (forall k {:trigger SuitsAs(before, list[k], kind, needed, eff, exact)} :: 0 <= k < j ==>
                 !SuitsAs(before, list[k], kind, needed, eff, exact)) ==> NoneSuits(n, j, kind, needed, eff, exact)
    {
      forall k | 0 <= k < j && SuitsAs(tiles, lists[n][k], kind, needed, eff, exact)
        ensures SuitsAs(before, list[k], kind, needed, eff, exact)
      {
        assert lists[n][k] == list[k] && Kept(before, tiles, list[k]);
      }
    }

    /** Going on behind block h, which was not chosen and may be dropped; if it was the first, the search starts over
        again. */
    method GoOn(h: nat, n: nat, ghost j: nat, ghost first: Tiles, verdict: Verdict, kind: Kind, needed: nat,
                ghost eff: nat, ghost exact: bool)
        returns (h': nat, ghost j': nat, again: bool)
      requires Ready() && n < |lists| && j < |lists[n]| && lists[n][j] == h && blackLists.Valid() && !verdict.Take?
      requires OnlyDropped(first)
      requires verdict.ListedAllOver? ==> !Exempt(kind, needed) && needed == 1 && !Suits(tiles, h, kind, needed, eff)
      requires verdict.ListedAllOver? ==>
                 h in tiles && forall b :: h <= b < h + tiles[h].size ==> blackLists.Listed(b, 1)
      requires verdict.Pass? ==> MayPass(h, At(lists[n], j + 1), kind, needed, eff, exact)
      requires Passed(n, j, kind, needed, eff, exact)
      modifies this`index, this`heads, this`freeBlocks, this`tiles, this`lists, this`largeFree, this`dropCount
      ensures Ready()
      ensures OnlyDropped(first)
      ensures MayDrop(kind, needed) || (Undropped(old(tiles), old(lists), old(freeBlocks), old(largeFree)) && !again)
      ensures dropCount == old(dropCount) + if verdict.ListedAllOver? && !findLeak then 1 else 0
      ensures if dropCount > old(dropCount) && dropCount % 4 == 0
              then lists == old(lists)[n := Without(old(lists)[n], j)]
              else tiles == old(tiles) && lists == old(lists)
      ensures largeFree <= old(largeFree)
      ensures again ==> |lists[n]| < |old(lists)[n]|
      ensures !again ==> j' <= |lists[n]| && h' == At(lists[n], j')
      ensures !again ==> |lists[n]| < |old(lists)[n]| || (|lists[n]| == |old(lists)[n]| && j' == j + 1)
      ensures !again ==> Passed(n, j', kind, needed, eff, exact)
    {
      OnList(n, j);
      PassOn(n, j, kind, needed, eff, exact);
      h', j', again := h, j, false;
      if verdict.ListedAllOver? && !findLeak {
        h', j' := DropSome(h, n, j, first, kind, needed, eff, exact);
        again := h' == 0;
      }
      if !again {
        h' := index[h'].hdr.next;
        j' := j' + 1;
      }
    }

    /** Allocating at the block chosen, after some blocks may have been dropped. */
    method Serve(h: nat, at: nat, words: nat, kind: Kind, ghost eff: nat, n: nat, ghost first: Tiles, ghost exact: bool)
      requires Ready() && FreeAt(tiles, h, 0) && FlIndex(tiles[h].size) == n && blackLists.Valid()
      requires words >= 1 && h <= at && at + z.Blocks(words) <= h + tiles[h].size
      requires OnlyDropped(first)
      requires MayDrop(kind, z.Blocks(words)) || tiles == first
      requires exact ==> tiles == first && tiles[h].size == z.Blocks(words)
      requires !Exempt(kind, z.Blocks(words)) ==>
                 || !blackLists.Listed(at, eff)
                 || (z.Blocks(words) > limit && tiles[h].size - z.Blocks(words) > limit)
      modifies this`index, this`heads, this`freeBlocks, this`tiles, this`lists, this`largeFree
      ensures Ready() && at != 0 && Outcome(first, at, words, kind, eff)
      ensures exact ==> at in first && first[at] == Free(z.Blocks(words))
    {
      ghost var before := tiles;
      Allocate(h, at, words, kind, n);
      TakenWell(first, before, h, at, words, kind, eff);
    }

    /** Nothing has been dropped or allocated. */
    ghost predicate Undropped(tiles0: Tiles, lists0: Lists, freeBlocks0: seq<nat>, largeFree0: nat)
      reads this
    {
      tiles == tiles0 && lists == lists0 && freeBlocks == freeBlocks0 && largeFree == largeFree0
    }

    /** What has become of a state in which a search began: blocks may have been dropped, if the request allows it. */
    ghost predicate Since(first: Tiles, lists0: Lists, counts: seq<nat>, free: nat, kind: Kind, needed: nat)
      requires blackLists.Valid()
      reads this, blackLists
    {
      OnlyDropped(first) && largeFree <= free && (MayDrop(kind, needed) || Undropped(first, lists0, counts, free))
    }

    /** Choosing whether to allocate from block h, and doing so or going on. */
    method Visit(h: nat, n: nat, ghost j: nat, words: nat, kind: Kind, eff: nat, ghost first: Tiles,
                 ghost lists0: Lists, ghost counts: seq<nat>, ghost free: nat, ghost exact: bool, ghost paced: bool)
        returns (r: nat, h': nat, ghost j': nat, again: bool)
      requires Ready() && n < |lists| && j < |lists[n]| && lists[n][j] == h && blackLists.Valid()
      requires words >= 1 && n <= N_HBLK_FLS && 1 <= eff <= z.Blocks(words)
      requires Since(first, lists0, counts, free, kind, z.Blocks(words))
      requires !exact ==> Open(n, MayDrop(kind, z.Blocks(words)), free, counts)
      requires paced ==> !MayDrop(kind, z.Blocks(words)) && Paced(n, free, counts)
      requires Passed(n, j, kind, z.Blocks(words), eff, exact)
      modifies this`index, this`heads, this`freeBlocks, this`tiles, this`lists, this`largeFree, this`dropCount
      ensures Ready()
      ensures r != 0 ==> Outcome(first, r, words, kind, eff)
      ensures r != 0 && paced ==> r in first && first[r] == Free(z.Blocks(words))
      ensures r == 0 ==> Since(first, lists0, counts, free, kind, z.Blocks(words))
      ensures r == 0 && again ==> MayDrop(kind, z.Blocks(words)) && |lists[n]| < |old(lists)[n]|
      ensures r == 0 && !again ==> j' <= |lists[n]| && h' == At(lists[n], j')
      ensures r == 0 && !again ==> |lists[n]| < |old(lists)[n]| || (|lists[n]| == |old(lists)[n]| && j' == j + 1)
      ensures r == 0 && !again ==> Passed(n, j', kind, z.Blocks(words), eff, exact)
    {
      r, h', j', again := 0, h, j, false;
      OnList(n, j);
      if !exact {
        StillOpen(n, MayDrop(kind, z.Blocks(words)), free, counts, largeFree, freeBlocks);
      }
      var verdict := Choose(h, kind, z.Blocks(words), eff, n);
      if verdict.Take? {
        Serve(h, verdict.at, words, kind, eff, n, first, paced);
        r := verdict.at;
      } else {
        h', j', again := GoOn(h, n, j, first, verdict, kind, z.Blocks(words), eff, exact);
      }
    }

    /** The loop of GC_allochblk_nth, up to an allocation, the end of the list, or a drop of its first block,
        which starts the search over again. */
    method SearchList(words: nat, kind: Kind, eff: nat, n: nat, ghost exact: bool, ghost paced: bool)
        returns (r: nat, again: bool)
      requires Ready() && blackLists.Valid() && words >= 1 && n <= N_HBLK_FLS && 1 <= eff <= z.Blocks(words)
      requires !exact ==> Open(n, MayDrop(kind, z.Blocks(words)), largeFree, freeBlocks)
      requires paced ==> !MayDrop(kind, z.Blocks(words)) && Paced(n, largeFree, freeBlocks)
      modifies this`index, this`heads, this`freeBlocks, this`tiles, this`lists, this`largeFree, this`dropCount
      ensures Ready() && (r != 0 ==> Outcome(old(tiles), r, words, kind, eff))
      ensures r == 0 ==> Since(old(tiles), old(lists), old(freeBlocks), old(largeFree), kind, z.Blocks(words))
      ensures again ==> r == 0 && |lists[n]| < |old(lists)[n]|
      ensures again ==> MayDrop(kind, z.Blocks(words))
      ensures r == 0 && !again ==>
                NoneSuits(n, |lists[n]|, kind, z.Blocks(words), eff, exact)
      ensures r != 0 && paced ==> r in old(tiles) && old(tiles)[r] == Free(z.Blocks(words))
    {
      SomeBlocks(z, words);
      assert HeadOk(heads, lists, n);
      ghost var j: nat := 0;
      var h := heads[n];
      r, again := 0, false;
      while h != 0
        invariant r == 0 && !again && Ready() && j <= |lists[n]| <= |old(lists)[n]| && h == At(lists[n], j)
        invariant Since(old(tiles), old(lists), old(freeBlocks), old(largeFree), kind, z.Blocks(words))
        invariant Passed(n, j, kind, z.Blocks(words), eff, exact)
        decreases |lists[n]|, |lists[n]| - j
      {
        r, h, j, again := Visit(h, n, j, words, kind, eff, old(tiles), old(lists), old(freeBlocks), old(largeFree),
                                exact, paced);
        if r != 0 || again {
          again := r == 0;
          return;
        }
      }
      AllPassed(n, j, kind, z.Blocks(words), eff, exact);
    }

    lemma AllPassed(n: nat, j: nat, kind: Kind, needed: nat, eff: nat, exact: bool)
      requires Good(0, 0) && blackLists.Valid() && n < |lists| && j <= |lists[n]| && At(lists[n], j) == 0
      requires Passed(n, j, kind, needed, eff, exact)
      ensures NoneSuits(n, |lists[n]|, kind, needed, eff, exact)
    {
      if j < |lists[n]| {
        OnList(n, j);
      }
    }

    /** GC_allochblk_nth. */
    method AllochblkNth(words: nat, kind: Kind, ignoreOffPage: bool, n: nat, ghost exact: bool, ghost paced: bool)
        returns (r: nat)
      requires Ready() && blackLists.Valid() && words >= 1 && n <= N_HBLK_FLS
      requires !exact ==> Open(n, MayDrop(kind, z.Blocks(words)), largeFree, freeBlocks)
      requires paced ==> !MayDrop(kind, z.Blocks(words)) && Paced(n, largeFree, freeBlocks)
      modifies this`index, this`heads, this`freeBlocks, this`tiles, this`lists, this`largeFree, this`dropCount
      ensures Ready()
      ensures Outcome(old(tiles), r, words, kind, if ignoreOffPage then 1 else z.Blocks(words))
      ensures r == 0 ==> FewerFree(old(tiles), tiles) && largeFree <= old(largeFree)
      ensures r == 0 && !MayDrop(kind, z.Blocks(words)) ==>
                Undropped(old(tiles), old(lists), old(freeBlocks), old(largeFree))
      ensures r == 0 ==>
                NoneSuits(n, |lists[n]|, kind, z.Blocks(words), if ignoreOffPage then 1 else z.Blocks(words), exact)
      ensures r != 0 && paced ==> r in old(tiles) && old(tiles)[r] == Free(z.Blocks(words))
      decreases |lists[n]|
    {
      SomeBlocks(z, words);
      var eff := if ignoreOffPage then 1 else z.Blocks(words);
      var again;
      r, again := SearchList(words, kind, eff, n, exact, paced);
      if r == 0 {
        NoneServed(old(tiles), words, kind, eff);
      }
      if again {
        ghost var mid := tiles;
        if !exact {
          StillOpen(n, true, old(largeFree), old(freeBlocks), largeFree, freeBlocks);
        }
        r := AllochblkNth(words, kind, ignoreOffPage, n, exact, false);
        Again(old(tiles), mid, r, words, kind, eff);
        if r == 0 {
          FewerAndFewer(old(tiles), mid, tiles);
        }
      }
    }

    /** GC_allochblk.  A request is served only from a free block that suits it.  It fails only if no block of just the
        needed size suits it, and, where the whole heap may be used or no collection is due, only if none at all does;
        for one that ignores the black lists that means that none is big enough.  If a collection comes before
        splitting blocks of any list, it is served only by a block of just the needed size. */
    method Allochblk(words: nat, kind: Kind, ignoreOffPage: bool) returns (r: nat)
      requires Ready() && blackLists.Valid() && words >= 1
      modifies this`index, this`heads, this`freeBlocks, this`tiles, this`lists, this`largeFree, this`dropCount
      ensures Ready()
      ensures Outcome(old(tiles), r, words, kind, if ignoreOffPage then 1 else z.Blocks(words))
      ensures r == 0 && !MayDrop(kind, z.Blocks(words)) ==> tiles == old(tiles)
      ensures r != 0 ==> SomeSuited(old(tiles), kind, z.Blocks(words), if ignoreOffPage then 1 else z.Blocks(words))
      ensures r == 0 ==>
                NothingSuits(kind, z.Blocks(words), if ignoreOffPage then 1 else z.Blocks(words),
                             !AllOpen(kind, z.Blocks(words), old(largeFree), old(freeBlocks)))
      ensures r != 0 && (kind.Normal? || (kind.PtrFree? && z.Blocks(words) > maxBlackListAlloc)) ==>
                Clean(old(tiles), r, z.Blocks(words), if ignoreOffPage then 1 else z.Blocks(words))
      ensures r == 0 && AllOpen(kind, z.Blocks(words), old(largeFree), old(freeBlocks))
              && (kind in {Uncollectable, AtomicUncollectable} ||
                  (kind.PtrFree? && z.Blocks(words) <= maxBlackListAlloc)) ==>
                forall b :: b in tiles && tiles[b].Free? ==> tiles[b].size < z.Blocks(words)
      ensures r != 0 && !MayDrop(kind, z.Blocks(words)) && AllPaced(old(largeFree), old(freeBlocks)) ==>
                r in old(tiles) && old(tiles)[r] == Free(z.Blocks(words))
    {
      ghost var exact := !AllOpen(kind, z.Blocks(words), largeFree, freeBlocks);
      ghost var paced := !MayDrop(kind, z.Blocks(words)) && AllPaced(largeFree, freeBlocks);
      r := SearchLists(words, kind, ignoreOffPage, exact, paced);
      if r == 0 {
        NothingFound(old(tiles), words, kind, if ignoreOffPage then 1 else z.Blocks(words), exact);
      }
    }

    /** The loop of GC_allochblk. */
    method SearchLists(words: nat, kind: Kind, ignoreOffPage: bool, ghost exact: bool, ghost paced: bool)
        returns (r: nat)
      requires Ready() && blackLists.Valid() && words >= 1
      requires !exact ==> AllOpen(kind, z.Blocks(words), largeFree, freeBlocks)
      requires paced ==> !MayDrop(kind, z.Blocks(words)) && AllPaced(largeFree, freeBlocks)
      modifies this`index, this`heads, this`freeBlocks, this`tiles, this`lists, this`largeFree, this`dropCount
      ensures Ready()
      ensures r != 0 ==> Outcome(old(tiles), r, words, kind, if ignoreOffPage then 1 else z.Blocks(words))
      ensures r != 0 ==> SomeSuited(old(tiles), kind, z.Blocks(words), if ignoreOffPage then 1 else z.Blocks(words))
      ensures r == 0 ==>
                InVain(old(tiles), N_HBLK_FLS + 1, words, kind, if ignoreOffPage then 1 else z.Blocks(words), exact)
      ensures r != 0 && paced ==> r in old(tiles) && old(tiles)[r] == Free(z.Blocks(words))
    {
      ghost var eff := if ignoreOffPage then 1 else z.Blocks(words);
      var i := FlIndex(z.Blocks(words));
      SmallUnserved(kind, z.Blocks(words), eff, exact);
      while i <= N_HBLK_FLS
        invariant FlIndex(z.Blocks(words)) <= i <= N_HBLK_FLS + 1
        invariant Ready() && InVain(old(tiles), i, words, kind, eff, exact)
        invariant paced ==> AllPaced(largeFree, freeBlocks)
      {
        r := NextList(words, kind, ignoreOffPage, i, old(tiles), exact, paced);
        if r != 0 { return; }
        i := i + 1;
      }
      r := 0;
    }

    lemma NothingFound(first: Tiles, words: nat, kind: Kind, eff: nat, exact: bool)
      requires Good(0, 0) && blackLists.Valid() && InVain(first, N_HBLK_FLS + 1, words, kind, eff, exact)
      ensures Outcome(first, 0, words, kind, eff) && NothingSuits(kind, z.Blocks(words), eff, exact)
      ensures !exact && Exempt(kind, z.Blocks(words)) ==>
                forall b :: b in tiles && tiles[b].Free? ==> tiles[b].size < z.Blocks(words)
    {
      AllUnserved(kind, z.Blocks(words), eff, exact);
      NoneServed(first, words, kind, eff);
    }

    /** The lists before list i have been searched in vain, since the tiling was first. */
    ghost predicate InVain(first: Tiles, i: nat, words: nat, kind: Kind, eff: nat, exact: bool)
      requires blackLists.Valid() && z.Sensible()
      reads this, blackLists
    {
      && OnlyDropped(first) && (MayDrop(kind, z.Blocks(words)) || tiles == first)
      && (!exact ==> AllOpen(kind, z.Blocks(words), largeFree, freeBlocks))
      && UnservedIn(tiles, i, kind, z.Blocks(words), eff, exact)
    }

    /** The search of one list. */
    method NextList(words: nat, kind: Kind, ignoreOffPage: bool, i: nat, ghost first: Tiles, ghost exact: bool,
                    ghost paced: bool)
        returns (r: nat)
      requires Ready() && blackLists.Valid() && words >= 1 && i <= N_HBLK_FLS
      requires InVain(first, i, words, kind, if ignoreOffPage then 1 else z.Blocks(words), exact)
      requires paced ==> !MayDrop(kind, z.Blocks(words)) && Paced(i, largeFree, freeBlocks)
      requires Tiling(first)
      modifies this`index, this`heads, this`freeBlocks, this`tiles, this`lists, this`largeFree, this`dropCount
      ensures Ready()
      ensures r != 0 ==> Outcome(first, r, words, kind, if ignoreOffPage then 1 else z.Blocks(words))
      ensures r == 0 ==> InVain(first, i + 1, words, kind, if ignoreOffPage then 1 else z.Blocks(words), exact)
      ensures r == 0 && !MayDrop(kind, z.Blocks(words)) ==>
                Undropped(old(tiles), old(lists), old(freeBlocks), old(largeFree))
      ensures r != 0 ==> SomeSuited(first, kind, z.Blocks(words), if ignoreOffPage then 1 else z.Blocks(words))
      ensures r != 0 && paced ==> r in first && first[r] == Free(z.Blocks(words))
    {
      ghost var eff := if ignoreOffPage then 1 else z.Blocks(words);
      ghost var mid := tiles;
      r := AllochblkNth(words, kind, ignoreOffPage, i, exact, paced);
      if MayDrop(kind, z.Blocks(words)) {
        Again(first, mid, r, words, kind, eff);
      }
      if r != 0 {
        ServedSuits(first, r, words, kind, eff);
        return;
      }
      FewerAndFewer(first, mid, tiles);
      UnservedList(mid, i, kind, z.Blocks(words), eff, exact);
      if !exact {
        StillAllOpen(kind, z.Blocks(words), old(largeFree), old(freeBlocks), largeFree, freeBlocks);
      }
    }

    /** No collection can come to be preferred to splitting any block while the request is served. */
    ghost predicate AllOpen(kind: Kind, needed: nat, free: nat, counts: seq<nat>)
      reads this`useEntireHeap, this`due, this`largeAllocd, this`maxLargeAllocd, this`finalizersFree
    {
      forall n {:trigger Open(n, MayDrop(kind, needed), free, counts)} :: 0 <= n <= N_HBLK_FLS ==>
        Open(n, MayDrop(kind, needed), free, counts)
    }

    /** A collection comes before splitting a block of any list. */
    ghost predicate AllPaced(free: nat, counts: seq<nat>)
      reads this`useEntireHeap, this`due, this`largeAllocd, this`maxLargeAllocd, this`finalizersFree
    {
      forall n {:trigger Paced(n, free, counts)} :: 0 <= n <= N_HBLK_FLS ==> Paced(n, free, counts)
    }

    lemma StillAllOpen(kind: Kind, needed: nat, free: nat, counts: seq<nat>, free': nat, counts': seq<nat>)
      requires AllOpen(kind, needed, free, counts) && free' <= free
      requires MayDrop(kind, needed) || (free' == free && counts' == counts)
      ensures AllOpen(kind, needed, free', counts')
    {
      forall n | 0 <= n <= N_HBLK_FLS
        ensures Open(n, MayDrop(kind, needed), free', counts')
      {
        StillOpen(n, MayDrop(kind, needed), free, counts, free', counts');
      }
    }

    /** No free block suits the request. */
    ghost predicate NothingSuits(kind: Kind, needed: nat, eff: nat, exact: bool)
      requires blackLists.Valid()
      reads this, blackLists
    {
      forall b {:trigger SuitsAs(tiles, b, kind, needed, eff, exact)} :: b in tiles && tiles[b].Free? ==>
        !SuitsAs(tiles, b, kind, needed, eff, exact)
    }

    lemma AllUnserved(kind: Kind, needed: nat, eff: nat, exact: bool)
      requires Good(0, 0) && blackLists.Valid() && UnservedIn(tiles, N_HBLK_FLS + 1, kind, needed, eff, exact)
      ensures NothingSuits(kind, needed, eff, exact)
      ensures Exempt(kind, needed) && !exact ==> forall b :: b in tiles && tiles[b].Free? ==> tiles[b].size < needed
    {
      forall b | b in tiles && tiles[b].Free?
        ensures !SuitsAs(tiles, b, kind, needed, eff, exact)
        ensures Exempt(kind, needed) && !exact ==> tiles[b].size < needed
      {
        var j := PlaceOf(b);
        assert !SuitsAs(tiles, b, kind, needed, eff, exact);
      }
    }

    /** No free block on a list before list i suits the request. */
    ghost predicate UnservedIn(t: Tiles, i: nat, kind: Kind, needed: nat, eff: nat, exact: bool)
      requires blackLists.Valid()
      reads this`limit, blackLists
    {
      forall b {:trigger SuitsAs(t, b, kind, needed, eff, exact)} :: b in t && t[b].Free? && FlIndex(t[b].size) < i ==>
        !SuitsAs(t, b, kind, needed, eff, exact)
    }

    /** Blocks on lists before that for the size needed are too small. */
    lemma SmallUnserved(kind: Kind, needed: nat, eff: nat, exact: bool)
      requires blackLists.Valid()
      ensures UnservedIn(tiles, FlIndex(needed), kind, needed, eff, exact)
    {
      forall b | b in tiles && tiles[b].Free? && FlIndex(tiles[b].size) < FlIndex(needed)
        ensures tiles[b].size < needed
      {
        if tiles[b].size >= needed {
          FlIndexIsMonotone(needed, tiles[b].size);
        }
      }
    }

    /** One more list has been searched in vain, since the tiling was mid. */
    lemma UnservedList(mid: Tiles, i: nat, kind: Kind, needed: nat, eff: nat, exact: bool)
      requires Good(0, 0) && blackLists.Valid() && i < |lists| && FewerFree(mid, tiles)
      requires UnservedIn(mid, i, kind, needed, eff, exact)
      requires NoneSuits(i, |lists[i]|, kind, needed, eff, exact)
      ensures UnservedIn(tiles, i + 1, kind, needed, eff, exact)
    {
      forall b | b in tiles && tiles[b].Free? && FlIndex(tiles[b].size) < i + 1
        ensures !SuitsAs(tiles, b, kind, needed, eff, exact)
      {
        if FlIndex(tiles[b].size) == i {
          var j := PlaceOf(b);
          assert !SuitsAs(tiles, lists[i][j], kind, needed, eff, exact);
        } else {
          assert Kept(mid, tiles, b) && !SuitsAs(mid, b, kind, needed, eff, exact);
        }
      }
    }

    /** GC_add_to_heap. */
    method AddToHeap(p: nat, size: nat)
      requires Ready() && p >= 1 && size >= 1 && Interval(p, size) !! heap
      modifies this`index, this`heads, this`freeBlocks, this`tiles, this`lists, this`heap, this`largeFree,
               this`heapSize, this`sections
      ensures Ready() && heap == old(heap) + Interval(p, size) && heapSize == old(heapSize) + size
      ensures SameUsed(old(tiles), tiles) && largeFree == old(largeFree) + size
      ensures sections == old(sections) + [(p, size)]
    {
      ghost var before := tiles;
      InstallSection(p, size);
      ghost var mid := tiles;
      Freehblk(p);
      CountIn(size);
      GrownUsed(before, mid, tiles, p, size);
    }

    /** The size of the heap when a section has been added. */
    method CountIn(size: nat)
      requires Good(0, 0) && SettledBut(tiles, 0) && MadeOf(sections, heap)
      requires largeFree == Sum(freeBlocks) && heapSize + size == |heap|
      modifies this`heapSize
      ensures Ready() && heapSize == old(heapSize) + size
    {
      heapSize := heapSize + size;
    }

    /** Every block of the heap is in one section, and in no other. */
    lemma SectionIsUnique(a: nat) returns (i: nat)
      requires Ready() && a in heap
      ensures i < |sections| && a in Interval(sections[i].0, sections[i].1)
      ensures forall k :: 0 <= k < |sections| && a in Interval(sections[k].0, sections[k].1) ==> k == i
    {
      i := OneSection(sections, heap, a);
    }

    /** A header for a new section of the heap, as if it was one block in use. */
    method InstallSection(p: nat, size: nat)
      requires Good(0, 0) && SettledBut(tiles, 0) && p >= 1 && size >= 1 && Interval(p, size) !! heap
      modifies this`index, this`tiles, this`heap, this`sections
      ensures Freeable(p) && heap == old(heap) + Interval(p, size) && |heap| == |old(heap)| + size
      ensures p !in old(tiles) && tiles == old(tiles)[p := Limbo(size, false)]
      ensures sections == old(sections) + [(p, size)] && (old(MadeOf(sections, heap)) ==> MadeOf(sections, heap))
    {
      var any: Hdr := *;
      BlocksOfWords(z, size);
      var hdr := any.(sz := Mul(size, z.wordsPerBlock), free := false);
      GrowSound(z, index, heads, freeBlocks, tiles, lists, heap, p, size, hdr);
      GrowTiling(tiles, heap, p, size);
      IntervalSize(p, size);
      index := index[p := Header(hdr)];
      tiles, heap := tiles[p := Limbo(size, false)], heap + Interval(p, size);
      MadeOfMore(sections, heap - Interval(p, size), p, size);
      sections := sections + [(p, size)];
    }

    /** What GC_check_blocks tests: the sizes in the headers of the blocks in use, each counted once, and the free
        blocks add up to the heap. */
    lemma NothingIsLost(used: seq<nat>)
      requires Ready() && AllIn(tiles, used) && Distinct(used)
      requires forall t :: t in used <==> t in tiles && tiles[t].Used?
      ensures Total(tiles, used) + largeFree == heapSize
      ensures forall t :: t in used ==> t in index && index[t].Header? && z.Blocks(index[t].hdr.sz) == tiles[t].size
    {
      UsedTotal(tiles, heap, used);
      UsedOrFree(tiles, heap);
      assert UsedCells(tiles, heap) <= heap;
      forall t | t in used
        ensures t in index && index[t].Header? && z.Blocks(index[t].hdr.sz) == tiles[t].size
      {
        assert HeaderOk(z, index, tiles, t);
      }
    }

    /** A free block is on one list, the one for its size, at one place, and its neighbours there are those that
        its header names; it has no free block behind it. */
    lemma FreeBlockIsFiledOnce(b: nat) returns (j: nat)
      requires Ready() && b in tiles && tiles[b].Free?
      ensures var i := FlIndex(tiles[b].size);
              && i < |lists| && j < |lists[i]| && lists[i][j] == b
              && (forall k, l :: 0 <= k < |lists| && 0 <= l < |lists[k]| && lists[k][l] == b ==> k == i && l == j)
              && b in index && index[b].Header? && index[b].hdr.free && index[b].hdr.sz == tiles[b].size
              && index[b].hdr.prev == At(lists[i], j - 1) && index[b].hdr.next == At(lists[i], j + 1)
      ensures var c := b + tiles[b].size; !(c in tiles && tiles[c].Free?)
    {
      j := PlaceOf(b);
      var i := FlIndex(tiles[b].size);
      forall k, l | 0 <= k < |lists| && 0 <= l < |lists[k]| && lists[k][l] == b
        ensures k == i && l == j
      {
        OnlyThere(tiles, lists, 0, 0, i, j, k, l);
      }
      assert HeaderOk(z, index, tiles, b) && LinkOk(index, lists[i], j) && Alone(tiles, b, 0);
    }
  }

  /** The heap is the disjoint union of the sections. */
  ghost predicate MadeOf(sections: seq<(nat, nat)>, heap: set<nat>) {
    if sections == [] then heap == {}
    else
      var n := |sections| - 1;
      var last := Interval(sections[n].0, sections[n].1);
      last <= heap && MadeOf(sections[..n], heap - last)
  }

  lemma MadeOfMore(sections: seq<(nat, nat)>, heap: set<nat>, p: nat, size: nat)
    requires Interval(p, size) !! heap
    ensures MadeOf(sections, heap) ==> MadeOf(sections + [(p, size)], heap + Interval(p, size))
  {
    assert (sections + [(p, size)])[..|sections|] == sections;
    assert heap + Interval(p, size) - Interval(p, size) == heap;
  }

  lemma {:induction false} OneSection(sections: seq<(nat, nat)>, heap: set<nat>, a: nat) returns (i: nat)
    requires MadeOf(sections, heap) && a in heap
    ensures i < |sections| && a in Interval(sections[i].0, sections[i].1)
    ensures forall k :: 0 <= k < |sections| && a in Interval(sections[k].0, sections[k].1) ==> k == i
  {
    var n := |sections| - 1;
    if a in Interval(sections[n].0, sections[n].1) {
      i := n;
      OutsideSections(sections[..n], heap - Interval(sections[n].0, sections[n].1), a);
    } else {
      i := OneSection(sections[..n], heap - Interval(sections[n].0, sections[n].1), a);
    }
  }

  lemma {:induction false} OutsideSections(sections: seq<(nat, nat)>, heap: set<nat>, a: nat)
    requires MadeOf(sections, heap) && a !in heap
    ensures forall k :: 0 <= k < |sections| ==> a !in Interval(sections[k].0, sections[k].1)
  {
    if sections != [] {
      var n := |sections| - 1;
      OutsideSections(sections[..n], heap - Interval(sections[n].0, sections[n].1), a);
    }
  }

  /** What a free block is good for: nothing, allocation at some block, or being dropped. */
  datatype Verdict = Pass | Take(at: nat) | ListedAllOver
}