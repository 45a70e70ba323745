/** The heap as the large-block allocator sees it: headers found through an index of block numbers, free
    lists threaded through the headers, and, behind them, a tiling of the heap by blocks. */
module HeapMap {
  import opened Arithmetic
  import opened Kinds

  const UNIQUE_THRESHOLD := 32
  const HUGE_THRESHOLD := 256
  const FL_COMPRESSION := 8
  const N_HBLK_FLS := (HUGE_THRESHOLD - UNIQUE_THRESHOLD) / FL_COMPRESSION + UNIQUE_THRESHOLD

  /** GC_hblk_fl_from_blocks. */
  function FlIndex(blocks: nat): (i: nat)
    ensures i <= N_HBLK_FLS
  {
    if blocks <= UNIQUE_THRESHOLD then blocks
    else if blocks >= HUGE_THRESHOLD then N_HBLK_FLS
    else (blocks - UNIQUE_THRESHOLD) / FL_COMPRESSION + UNIQUE_THRESHOLD
  }

  /** Which sizes share a list: those from 256 blocks on; and between 32 and 255 blocks, eight at a time.  So the list
      for 32 blocks, which is meant for that size only, has sizes up to 39. */
  lemma SameList(a: nat, b: nat)
    ensures FlIndex(a) == FlIndex(b) <==>
            || a == b
            || (a >= 256 && b >= 256)
            || (32 <= a < 256 && 32 <= b < 256 && (a - 32) / 8 == (b - 32) / 8)
  {
  }

  lemma FlIndexIsMonotone(a: nat, b: nat)
    requires a <= b
    ensures FlIndex(a) <= FlIndex(b)
  {
  }

  /** A block header: hb_sz counts blocks in a free block, and words of one object in a used one.  Block
      number 0 stands for no block. */
  datatype Hdr = Hdr(sz: nat, free: bool, prev: nat, next: nat, kind: Kind)

  /** What the index holds for a block number: a forwarding count or a header. */
  datatype Slot = Jump(back: nat) | Header(hdr: Hdr)

  type Index = map<nat, Slot>

  /** A piece of the heap: a free block, a used one, or one being taken apart, with or without forwarding
      counts for its inner blocks. */
  datatype Tile = Free(size: nat) | Used(size: nat) | Limbo(size: nat, counted: bool) {
    predicate Counted() {
      Used? || (Limbo? && counted)
    }
  }

  type Tiles = map<nat, Tile>

  /** Words per block, and the longest forwarding count. */
  datatype Sizes = Sizes(wordsPerBlock: nat, maxJump: nat) {
    predicate Sensible() {
      wordsPerBlock >= 1 && maxJump >= 1
    }

    /** OBJ_SZ_TO_BLOCKS. */
    function Blocks(words: nat): nat
      requires Sensible()
    {
      Div(words + wordsPerBlock - 1, wordsPerBlock)
    }

    function Count(i: nat): (r: nat)
      ensures r <= i && r <= maxJump && (r < i ==> r == maxJump)
    {
      if i > maxJump then maxJump else i
    }
  }

  // ---- The tiling ----

  ghost predicate Tiling(tiles: Tiles) {
    && (forall a {:trigger Positive(tiles, a)} :: a in tiles ==> Positive(tiles, a))
    && (forall a, b {:trigger Before(tiles, a, b)} :: a in tiles && b in tiles && a < b ==> Before(tiles, a, b))
  }

  ghost predicate Positive(tiles: Tiles, a: nat)
    requires a in tiles
  {
    a >= 1 && tiles[a].size >= 1
  }

  ghost predicate Before(tiles: Tiles, a: nat, b: nat)
    requires a in tiles
  {
    a + tiles[a].size <= b
  }

  /** No two free blocks are next to each other, block x excepted. */
  ghost predicate Coalesced(tiles: Tiles, x: nat) {
    forall a {:trigger Alone(tiles, a, x)} :: a in tiles && tiles[a].Free? && a != x ==> Alone(tiles, a, x)
  }

  ghost predicate Alone(tiles: Tiles, a: nat, x: nat)
    requires a in tiles
  {
    !FreeAt(tiles, a + tiles[a].size, x)
  }

  ghost predicate FreeAt(tiles: Tiles, a: nat, x: nat) {
    a in tiles && tiles[a].Free? && a != x
  }

  ghost predicate InTile(tiles: Tiles, t: nat, a: nat) {
    t in tiles && t <= a < t + tiles[t].size
  }

  /** The heap consists of the blocks of the tiles. */
  ghost predicate Covers(tiles: Tiles, heap: set<nat>) {
    && (forall a :: a in heap ==> exists t :: InTile(tiles, t, a))
    && (forall t, a: nat :: InTile(tiles, t, a) ==> a in heap)
  }

  // ---- The header index ----

  ghost predicate HeaderOk(z: Sizes, index: Index, tiles: Tiles, a: nat)
    requires z.Sensible() && a in tiles
  {
    && a in index && index[a].Header?
    && (tiles[a].Free? ==> index[a].hdr.free && index[a].hdr.sz == tiles[a].size)
    && (tiles[a].Used? ==> !index[a].hdr.free && z.Blocks(index[a].hdr.sz) == tiles[a].size)
  }

  lemma TileHasHeader(z: Sizes, index: Index, tiles: Tiles, a: nat)
    requires z.Sensible() && Indexed(z, index, tiles)
    ensures a in tiles ==> a in index && index[a].Header?
  {
    if a in tiles {
      assert HeaderOk(z, index, tiles, a);
    }
  }

  ghost predicate JumpOk(z: Sizes, index: Index, a: nat, i: nat) {
    a + i in index && index[a + i] == Jump(z.Count(i))
  }

  /** x is inside, not at the start of, a block with forwarding counts. */
  ghost predicate InnerOfCounted(tiles: Tiles, x: nat) {
    exists a :: a in tiles && tiles[a].Counted() && a < x < a + tiles[a].size
  }

  /** The index agrees with the tiling: headers at block starts, forwarding counts inside used blocks, and
      nothing anywhere else. */
  ghost predicate Indexed(z: Sizes, index: Index, tiles: Tiles)
    requires z.Sensible()
  {
    && (forall a {:trigger HeaderOk(z, index, tiles, a)} :: a in tiles ==> HeaderOk(z, index, tiles, a))
    && (forall a, i: nat {:trigger JumpOk(z, index, a, i)} ::
          a in tiles && tiles[a].Counted() && 0 < i < tiles[a].size ==> JumpOk(z, index, a, i))
    && (forall x {:trigger InnerOfCounted(tiles, x)} :: x in index && x !in tiles ==> InnerOfCounted(tiles, x))
  }

  // ---- The free lists ----

  type Lists = seq<seq<nat>>

  /** The list on which free block b is: the one for its size, except for block x, which is on list n. */
  function Home(tiles: Tiles, x: nat, n: nat, b: nat): nat
    requires b in tiles
  {
    if b == x then n else FlIndex(tiles[b].size)
  }

  ghost predicate ListedOk(tiles: Tiles, lists: Lists, x: nat, n: nat, i: nat, j: nat)
    requires i < |lists| && j < |lists[i]|
  {
    var b := lists[i][j];
    b in tiles && tiles[b].Free? && Home(tiles, x, n, b) == i
  }

  ghost predicate Filed(tiles: Tiles, lists: Lists, x: nat, n: nat, b: nat)
    requires b in tiles
  {
    Home(tiles, x, n, b) < |lists| && b in lists[Home(tiles, x, n, b)]
  }

  ghost predicate Differ(list: seq<nat>, j: nat, l: nat)
    requires j < |list| && l < |list|
  {
    list[j] != list[l]
  }

  /** The lists hold every free block once, where it belongs. */
  ghost predicate FiledAll(tiles: Tiles, lists: Lists, x: nat, n: nat) {
    && |lists| == N_HBLK_FLS + 1
    && (forall i, j {:trigger ListedOk(tiles, lists, x, n, i, j)} :: 0 <= i < |lists| && 0 <= j < |lists[i]| ==>
          ListedOk(tiles, lists, x, n, i, j))
    && (forall i, j, l {:trigger Differ(lists[i], j, l)} :: 0 <= i < |lists| && 0 <= j < l < |lists[i]| ==>
          Differ(lists[i], j, l))
    && (forall b {:trigger Filed(tiles, lists, x, n, b)} :: b in tiles && tiles[b].Free? ==>
          Filed(tiles, lists, x, n, b))
  }

  function At(list: seq<nat>, j: int): nat {
    if 0 <= j < |list| then list[j] else 0
  }

  ghost predicate LinkOk(index: Index, list: seq<nat>, j: nat)
    requires j < |list|
  {
    && list[j] in index && index[list[j]].Header?
    && index[list[j]].hdr.prev == At(list, j - 1)
    && index[list[j]].hdr.next == At(list, j + 1)
  }

  ghost predicate HeadOk(heads: seq<nat>, lists: Lists, i: nat)
    requires i < |lists| && i < |heads|
  {
    heads[i] == At(lists[i], 0)
  }

  /** The headers' links and the list heads spell out the lists. */
  ghost predicate Linked(index: Index, heads: seq<nat>, lists: Lists) {
    && |heads| == |lists|
    && (forall i {:trigger HeadOk(heads, lists, i)} :: 0 <= i < |lists| ==> HeadOk(heads, lists, i))
    && (forall i, j {:trigger LinkOk(index, lists[i], j)} :: 0 <= i < |lists| && 0 <= j < |lists[i]| ==>
          LinkOk(index, lists[i], j))
  }

  // ---- Sizes ----

  ghost predicate AllIn(tiles: Tiles, list: seq<nat>) {
    forall k :: 0 <= k < |list| ==> list[k] in tiles
  }

  /** Total size of the listed blocks. */
  ghost function Total(tiles: Tiles, list: seq<nat>): nat
    requires AllIn(tiles, list)
  {
    if list == [] then 0 else tiles[list[0]].size + Total(tiles, list[1..])
  }

  function Sum(counts: seq<nat>): nat {
    if counts == [] then 0 else counts[0] + Sum(counts[1..])
  }

  /** The counts are the total sizes of the lists. */
  ghost predicate Counts(tiles: Tiles, lists: Lists, counts: seq<nat>) {
    && |counts| == |lists|
    && forall i {:trigger CountOk(tiles, lists, counts, i)} :: 0 <= i < |lists| ==> CountOk(tiles, lists, counts, i)
  }

  ghost predicate CountOk(tiles: Tiles, lists: Lists, counts: seq<nat>, i: nat)
    requires i < |lists| && i < |counts|
  {
    AllIn(tiles, lists[i]) && counts[i] == Total(tiles, lists[i])
  }

  ghost predicate IsFree(tiles: Tiles, a: nat) {
    exists t :: InTile(tiles, t, a) && tiles[t].Free?
  }

  ghost predicate IsUsed(tiles: Tiles, a: nat) {
    exists t :: InTile(tiles, t, a) && tiles[t].Used?
  }

  /** Blocks of the heap inside free tiles. */
  ghost function FreeCells(tiles: Tiles, heap: set<nat>): set<nat> {
    set a | a in heap && IsFree(tiles, a)
  }

  /** Blocks of the heap inside used tiles. */
  ghost function UsedCells(tiles: Tiles, heap: set<nat>): set<nat> {
    set a | a in heap && IsUsed(tiles, a)
  }

  // ---- Changing links ----

  function WithNext(index: Index, a: nat, v: nat): Index
    requires a in index && index[a].Header?
  {
    index[a := Header(index[a].hdr.(next := v))]
  }

  function WithPrev(index: Index, a: nat, v: nat): Index
    requires a in index && index[a].Header?
  {
    index[a := Header(index[a].hdr.(prev := v))]
  }

  /** The same index, but for the links in headers. */
  ghost predicate SameButLinks(index: Index, index': Index) {
    && index'.Keys == index.Keys
    && forall a :: a in index ==>
         if index[a].Header?
         then index'[a].Header? && index'[a].hdr.sz == index[a].hdr.sz
              && index'[a].hdr.free == index[a].hdr.free
         else index'[a] == index[a]
  }

  lemma IndexedKept(z: Sizes, index: Index, index': Index, tiles: Tiles)
    requires z.Sensible() && Indexed(z, index, tiles) && SameButLinks(index, index')
    ensures Indexed(z, index', tiles)
  {
    forall a | a in tiles
      ensures HeaderOk(z, index', tiles, a)
    {
      assert HeaderOk(z, index, tiles, a);
    }
    forall a, i: nat | a in tiles && tiles[a].Counted() && 0 < i < tiles[a].size
      ensures JumpOk(z, index', a, i)
    {
      assert JumpOk(z, index, a, i);
    }
  }

  function Without(list: seq<nat>, j: nat): seq<nat>
    requires j < |list|
  {
    list[..j] + list[j+1..]
  }

  /** A block is on one list only, and there only once. */
  lemma OnlyThere(tiles: Tiles, lists: Lists, x: nat, n: nat, i: nat, j: nat, k: nat, l: nat)
    requires FiledAll(tiles, lists, x, n)
    requires i < |lists| && j < |lists[i]| && k < |lists| && l < |lists[k]| && lists[i][j] == lists[k][l]
    ensures i == k && j == l
  {
    assert ListedOk(tiles, lists, x, n, i, j) && ListedOk(tiles, lists, x, n, k, l);
    if j < l {
      EntriesDiffer(tiles, lists, x, n, i, j, l);
    } else if l < j {
      EntriesDiffer(tiles, lists, x, n, i, l, j);
    }
  }

  lemma EntriesDiffer(tiles: Tiles, lists: Lists, x: nat, n: nat, i: nat, j: nat, l: nat)
    requires FiledAll(tiles, lists, x, n) && i < |lists| && j < l < |lists[i]|
    ensures lists[i][j] != lists[i][l]
  {
    assert Differ(lists[i], j, l);
  }

  /** The index after unlinking the block at position j of list i. */
  function Unlinked(index: Index, prev: nat, next: nat): Index
    requires prev != 0 ==> prev in index && index[prev].Header?
    requires next != 0 ==> next in index && index[next].Header?
  {
    var index1 := if prev != 0 then WithNext(index, prev, next) else index;
    if next != 0 then WithPrev(index1, next, prev) else index1
  }

  lemma UnlinkNeighbours(tiles: Tiles, index: Index, heads: seq<nat>, lists: Lists, x: nat, n: nat, i: nat, j: nat)
    requires Tiling(tiles) && FiledAll(tiles, lists, x, n) && Linked(index, heads, lists)
    requires i < |lists| && j < |lists[i]|
    ensures var b := lists[i][j];
            && b in index && index[b].Header? && b in tiles && tiles[b].Free?
            && index[b].hdr.prev == At(lists[i], j - 1) && index[b].hdr.next == At(lists[i], j + 1)
            && (index[b].hdr.prev != 0 <==> j > 0) && (index[b].hdr.next != 0 <==> j + 1 < |lists[i]|)
            && (j > 0 ==> index[b].hdr.prev in index && index[index[b].hdr.prev].Header?)
            && (j + 1 < |lists[i]| ==> index[b].hdr.next in index && index[index[b].hdr.next].Header?)
  {
    assert LinkOk(index, lists[i], j) && ListedOk(tiles, lists, x, n, i, j);
    if j > 0 {
      assert LinkOk(index, lists[i], j - 1) && ListedOk(tiles, lists, x, n, i, j - 1);
      assert Positive(tiles, lists[i][j-1]);
    }
    if j + 1 < |lists[i]| {
      assert LinkOk(index, lists[i], j + 1) && ListedOk(tiles, lists, x, n, i, j + 1);
      assert Positive(tiles, lists[i][j+1]);
    }
  }

  lemma UnlinkLinked(tiles: Tiles, index: Index, heads: seq<nat>, lists: Lists, x: nat, n: nat, i: nat, j: nat)
    requires Tiling(tiles) && FiledAll(tiles, lists, x, n) && Linked(index, heads, lists)
    requires i < |lists| && j < |lists[i]|
    requires forall k :: 0 <= k < |lists[i]| ==> lists[i][k] in index && index[lists[i][k]].Header?
    ensures var prev, next := At(lists[i], j - 1), At(lists[i], j + 1);
            && (prev != 0 ==> prev in index && index[prev].Header?)
            && (next != 0 ==> next in index && index[next].Header?)
            && var index' := Unlinked(index, prev, next);
               var heads' := if prev == 0 then heads[i := next] else heads;
               SameButLinks(index, index') && Linked(index', heads', lists[i := Without(lists[i], j)])
  {
    UnlinkNeighbours(tiles, index, heads, lists, x, n, i, j);
    var list := lists[i];
    var prev, next := At(list, j - 1), At(list, j + 1);
    var index' := Unlinked(index, prev, next);
    var lists' := lists[i := Without(list, j)];
    var heads' := if prev == 0 then heads[i := next] else heads;
    forall k | 0 <= k < |lists'|
      ensures HeadOk(heads', lists', k)
    {
      assert HeadOk(heads, lists, k);
    }
    forall k, l | 0 <= k < |lists'| && 0 <= l < |lists'[k]|
      ensures LinkOk(index', lists'[k], l)
    {
      var l0 := if k == i && l >= j then l + 1 else l;
      assert LinkOk(index, lists[k], l0);
      UnlinkLink(tiles, index, lists, x, n, i, j, k, l0);
    }
  }

  /** The links of the other blocks after one has been unlinked. */
  lemma UnlinkLink(tiles: Tiles, index: Index, lists: Lists, x: nat, n: nat, i: nat, j: nat, k: nat, l0: nat)
    requires FiledAll(tiles, lists, x, n) && i < |lists| && j < |lists[i]| && k < |lists| && l0 < |lists[k]|
    requires LinkOk(index, lists[k], l0) && !(k == i && l0 == j)
    requires var prev, next := At(lists[i], j - 1), At(lists[i], j + 1);
             && (prev != 0 ==> prev in index && index[prev].Header?) && (j > 0 <==> prev != 0)
             && (next != 0 ==> next in index && index[next].Header?) && (j + 1 < |lists[i]| <==> next != 0)
    ensures var l := if k == i && l0 > j then l0 - 1 else l0;
            var lists' := lists[i := Without(lists[i], j)];
            l < |lists'[k]| && LinkOk(Unlinked(index, At(lists[i], j - 1), At(lists[i], j + 1)), lists'[k], l)
  {
    var list := lists[i];
    var c := lists[k][l0];
    if j > 0 && c == list[j-1] {
      OnlyThere(tiles, lists, x, n, k, l0, i, j - 1);
    }
    if j + 1 < |list| && c == list[j+1] {
      OnlyThere(tiles, lists, x, n, k, l0, i, j + 1);
    }
  }

  /** Taking the block at position j of list i off its list, to be worked on. */
  lemma UnlinkFiled(tiles: Tiles, lists: Lists, x: nat, n: nat, i: nat, j: nat, size: nat)
    requires Tiling(tiles) && FiledAll(tiles, lists, x, n) && i < |lists| && j < |lists[i]|
    ensures FiledAll(tiles[lists[i][j] := Limbo(size, false)], lists[i := Without(lists[i], j)],
                     if lists[i][j] == x then 0 else x, n)
  {
    var b := lists[i][j];
    var tiles', lists' := tiles[b := Limbo(size, false)], lists[i := Without(lists[i], j)];
    var x' := if b == x then 0 else x;
    assert ListedOk(tiles, lists, x, n, i, j);
    forall k, l | 0 <= k < |lists'| && 0 <= l < |lists'[k]|
      ensures ListedOk(tiles', lists', x', n, k, l)
    {
      var l0 := if k == i && l >= j then l + 1 else l;
      assert ListedOk(tiles, lists, x, n, k, l0) && Positive(tiles, lists[k][l0]);
      if lists[k][l0] == b {
        OnlyThere(tiles, lists, x, n, k, l0, i, j);
      }
    }
    forall k, l, m | 0 <= k < |lists'| && 0 <= l < m < |lists'[k]|
      ensures Differ(lists'[k], l, m)
    {
      var l0 := if k == i && l >= j then l + 1 else l;
      var m0 := if k == i && m >= j then m + 1 else m;
      assert Differ(lists[k], l0, m0);
    }
    forall c | c in tiles' && tiles'[c].Free?
      ensures Filed(tiles', lists', x', n, c)
    {
      assert Filed(tiles, lists, x, n, c) && Positive(tiles, c);
      var k := Home(tiles, x, n, c);
      var l :| 0 <= l < |lists[k]| && lists[k][l] == c;
      if k == i {
        assert lists'[k][if l < j then l else l - 1] == c;
      } else {
        assert lists'[k][l] == c;
      }
    }
  }

  lemma {:induction false} TotalSplit(tiles: Tiles, a: seq<nat>, b: seq<nat>)
    requires AllIn(tiles, a + b)
    ensures AllIn(tiles, a) && AllIn(tiles, b) && Total(tiles, a + b) == Total(tiles, a) + Total(tiles, b)
  {
    forall k | 0 <= k < |a|
      ensures a[k] in tiles
    {
      assert (a + b)[k] == a[k];
    }
    forall k | 0 <= k < |b|
      ensures b[k] in tiles
    {
      assert (a + b)[|a| + k] == b[k];
    }
    if a == [] {
      assert a + b == b;
    } else {
      assert (a + b)[1..] == a[1..] + b;
      TotalSplit(tiles, a[1..], b);
    }
  }

  lemma TotalWithout(tiles: Tiles, list: seq<nat>, j: nat)
    requires AllIn(tiles, list) && j < |list|
    ensures AllIn(tiles, Without(list, j)) && Total(tiles, list) == Total(tiles, Without(list, j)) + tiles[list[j]].size
  {
    assert list == list[..j] + ([list[j]] + list[j+1..]);
    TotalSplit(tiles, list[..j], [list[j]] + list[j+1..]);
    TotalSplit(tiles, [list[j]], list[j+1..]);
    assert Total(tiles, [list[j]]) == tiles[list[j]].size + Total(tiles, []);
    assert AllIn(tiles, Without(list, j));
    TotalSplit(tiles, list[..j], list[j+1..]);
  }

  /** Tiles that are not listed do not matter to a total. */
  lemma {:induction false} TotalFrame(tiles: Tiles, tiles': Tiles, list: seq<nat>)
    requires AllIn(tiles, list)
    requires forall k :: 0 <= k < |list| ==> list[k] in tiles' && tiles'[list[k]].size == tiles[list[k]].size
    ensures AllIn(tiles', list) && Total(tiles', list) == Total(tiles, list)
  {
    if list != [] {
      TotalFrame(tiles, tiles', list[1..]);
    }
  }

  lemma UnlinkCounts(tiles: Tiles, lists: Lists, counts: seq<nat>, x: nat, n: nat, i: nat, j: nat)
    requires FiledAll(tiles, lists, x, n) && Counts(tiles, lists, counts)
    requires i < |lists| && j < |lists[i]|
    ensures lists[i][j] in tiles && counts[i] >= tiles[lists[i][j]].size
    ensures var b := lists[i][j];
            var counts' := counts[i := counts[i] - tiles[b].size];
            && Counts(tiles[b := Limbo(tiles[b].size, false)], lists[i := Without(lists[i], j)], counts')
            && Sum(counts') == Sum(counts) - tiles[b].size
  {
    var b := lists[i][j];
    assert ListedOk(tiles, lists, x, n, i, j) && CountOk(tiles, lists, counts, i);
    TotalWithout(tiles, lists[i], j);
    var tiles', lists' := tiles[b := Limbo(tiles[b].size, false)], lists[i := Without(lists[i], j)];
    var counts' := counts[i := counts[i] - tiles[b].size];
    forall k | 0 <= k < |lists'|
      ensures CountOk(tiles', lists', counts', k)
    {
      assert CountOk(tiles, lists, counts, k);
      TotalFrame(tiles, tiles', lists'[k]);
    }
    SumChange(counts, i, counts[i] - tiles[b].size);
  }

  lemma {:induction false} SumChange(counts: seq<nat>, i: nat, v: nat)
    requires i < |counts|
    ensures Sum(counts[i := v]) == Sum(counts) - counts[i] + v
  {
    if i > 0 {
      assert counts[i := v][1..] == counts[1..][i - 1 := v];
      SumChange(counts[1..], i - 1, v);
    } else {
      assert counts[i := v][1..] == counts[1..];
    }
  }

  // ---- Putting a block on a list ----

  function With(list: seq<nat>, j: nat, b: nat): seq<nat>
    requires j <= |list|
  {
    list[..j] + [b] + list[j..]
  }

  /** The index after linking block b, with header hdr, between two blocks. */
  function Relinked(index: Index, b: nat, hdr: Hdr, prev: nat, next: nat): Index
    requires prev != 0 && prev != b ==> prev in index && index[prev].Header?
    requires next != 0 && next != b ==> next in index && index[next].Header?
  {
    var index1 := index[b := Header(hdr.(free := true, prev := prev, next := next))];
    var index2 := if prev != 0 then WithNext(index1, prev, b) else index1;
    if next != 0 then WithPrev(index2, next, b) else index2
  }

  lemma InsertNeighbours(tiles: Tiles, index: Index, heads: seq<nat>, lists: Lists, x: nat, n: nat, i: nat, j: nat,
                         b: nat)
    requires Tiling(tiles) && FiledAll(tiles, lists, x, n) && Linked(index, heads, lists)
    requires i < |lists| && j <= |lists[i]| && b in tiles && !tiles[b].Free?
    ensures var prev, next := At(lists[i], j - 1), At(lists[i], j);
            && (j > 0 <==> prev != 0) && (prev != 0 ==> prev != b && prev in index && index[prev].Header?)
            && (j < |lists[i]| <==> next != 0) && (next != 0 ==> next != b && next in index && index[next].Header?)
            && (prev != 0 ==> prev != next)
            && i < |heads| && heads[i] == At(lists[i], 0)
  {
    assert HeadOk(heads, lists, i);
    if j > 0 {
      assert LinkOk(index, lists[i], j - 1) && ListedOk(tiles, lists, x, n, i, j - 1);
      assert Positive(tiles, lists[i][j-1]);
    }
    if j < |lists[i]| {
      assert LinkOk(index, lists[i], j) && ListedOk(tiles, lists, x, n, i, j);
      assert Positive(tiles, lists[i][j]);
    }
    if 0 < j < |lists[i]| {
      EntriesDiffer(tiles, lists, x, n, i, j - 1, j);
    }
  }

  lemma InsertLinked(tiles: Tiles, index: Index, heads: seq<nat>, lists: Lists, x: nat, n: nat, i: nat, j: nat,
                     b: nat, hdr: Hdr)
    requires Tiling(tiles) && FiledAll(tiles, lists, x, n) && Linked(index, heads, lists)
    requires i < |lists| && j <= |lists[i]|
    requires b in tiles && !tiles[b].Free? && b in index && index[b].Header?
    ensures i < |heads|
    ensures var prev, next := At(lists[i], j - 1), At(lists[i], j);
            && (prev != 0 && prev != b ==> prev in index && index[prev].Header?)
            && (next != 0 && next != b ==> next in index && index[next].Header?)
            && var index' := Relinked(index, b, hdr, prev, next);
               && Linked(index', if j == 0 then heads[i := b] else heads, lists[i := With(lists[i], j, b)])
               && SameButLinks(index[b := Header(hdr.(free := true))], index')
  {
    InsertNeighbours(tiles, index, heads, lists, x, n, i, j, b);
    var list := lists[i];
    var prev, next := At(list, j - 1), At(list, j);
    var index' := Relinked(index, b, hdr, prev, next);
    var lists' := lists[i := With(list, j, b)];
    var heads' := if j == 0 then heads[i := b] else heads;
    assert Positive(tiles, b);
    forall k | 0 <= k < |lists'|
      ensures HeadOk(heads', lists', k)
    {
      assert HeadOk(heads, lists, k);
    }
    forall k, l | 0 <= k < |lists'| && 0 <= l < |lists'[k]|
      ensures LinkOk(index', lists'[k], l)
    {
      if k == i && l == j {
        assert lists'[k][l] == b;
      } else {
        InsertLink(tiles, index, lists, x, n, i, j, b, hdr, k, if k == i && l > j then l - 1 else l);
      }
    }
  }

  /** The links of the other blocks after an insertion. */
  lemma InsertLink(tiles: Tiles, index: Index, lists: Lists, x: nat, n: nat, i: nat, j: nat, b: nat, hdr: Hdr,
                   k: nat, l0: nat)
    requires FiledAll(tiles, lists, x, n) && b in tiles && !tiles[b].Free? && b != 0
    requires i < |lists| && j <= |lists[i]| && k < |lists| && l0 < |lists[k]|
    requires LinkOk(index, lists[k], l0) && b in index && index[b].Header?
    requires var prev, next := At(lists[i], j - 1), At(lists[i], j);
             && (j > 0 <==> prev != 0) && (prev != 0 ==> prev != b && prev in index && index[prev].Header?)
             && (j < |lists[i]| <==> next != 0) && (next != 0 ==> next != b && next in index && index[next].Header?)
    ensures var l := if k == i && l0 >= j then l0 + 1 else l0;
            LinkOk(Relinked(index, b, hdr, At(lists[i], j - 1), At(lists[i], j)),
                   lists[i := With(lists[i], j, b)][k], l)
  {
    var list := lists[i];
    assert ListedOk(tiles, lists, x, n, k, l0);
    var c := lists[k][l0];
    if j > 0 && c == list[j-1] {
      OnlyThere(tiles, lists, x, n, k, l0, i, j - 1);
    }
    if j < |list| && c == list[j] {
      OnlyThere(tiles, lists, x, n, k, l0, i, j);
    }
  }

  /** Which block is the exception after block b goes on list i. */
  ghost predicate Exception(x: nat, n: nat, x': nat, n': nat, b: nat, sz: nat, i: nat) {
    || (x' == x && n' == n && b != x && i == FlIndex(sz))
    || (x == 0 && x' == b && n' == i)
  }

  lemma InsertFiled(tiles: Tiles, lists: Lists, x: nat, n: nat, x': nat, n': nat, i: nat, j: nat, b: nat, sz: nat)
    requires Tiling(tiles) && FiledAll(tiles, lists, x, n) && b in tiles && !tiles[b].Free?
    requires i < |lists| && j <= |lists[i]| && Exception(x, n, x', n', b, sz, i)
    ensures FiledAll(tiles[b := Free(sz)], lists[i := With(lists[i], j, b)], x', n')
  {
    var tiles', lists' := tiles[b := Free(sz)], lists[i := With(lists[i], j, b)];
    forall k, l | 0 <= k < |lists'| && 0 <= l < |lists'[k]|
      ensures ListedOk(tiles', lists', x', n', k, l)
    {
      if !(k == i && l == j) {
        var l0 := if k == i && l > j then l - 1 else l;
        assert ListedOk(tiles, lists, x, n, k, l0) && Positive(tiles, lists[k][l0]);
      }
    }
    forall k, l, m | 0 <= k < |lists'| && 0 <= l < m < |lists'[k]|
      ensures Differ(lists'[k], l, m)
    {
      var l0 := if k == i && l > j then l - 1 else l;
      var m0 := if k == i && m > j then m - 1 else m;
      if k == i && l == j {
        assert ListedOk(tiles, lists, x, n, k, m0);
      } else if k == i && m == j {
        assert ListedOk(tiles, lists, x, n, k, l0);
      } else {
        assert Differ(lists[k], l0, m0);
      }
    }
    forall c | c in tiles' && tiles'[c].Free?
      ensures Filed(tiles', lists', x', n', c)
    {
      if c == b {
        assert lists'[i][j] == b;
      } else {
        assert Filed(tiles, lists, x, n, c) && Positive(tiles, c);
        var k := Home(tiles, x, n, c);
        var l :| 0 <= l < |lists[k]| && lists[k][l] == c;
        assert lists'[k][if k == i && l >= j then l + 1 else l] == c;
      }
    }
  }

  lemma InsertCounts(tiles: Tiles, lists: Lists, counts: seq<nat>, x: nat, n: nat, i: nat, j: nat, b: nat, sz: nat)
    requires FiledAll(tiles, lists, x, n) && Counts(tiles, lists, counts) && b in tiles && !tiles[b].Free?
    requires i < |lists| && j <= |lists[i]|
    ensures var counts' := counts[i := counts[i] + sz];
            && Counts(tiles[b := Free(sz)], lists[i := With(lists[i], j, b)], counts')
            && Sum(counts') == Sum(counts) + sz
  {
    var tiles', lists' := tiles[b := Free(sz)], lists[i := With(lists[i], j, b)];
    var counts' := counts[i := counts[i] + sz];
    forall k | 0 <= k < |lists'|
      ensures CountOk(tiles', lists', counts', k)
    {
      assert CountOk(tiles, lists, counts, k);
      forall l | 0 <= l < |lists[k]|
        ensures lists[k][l] in tiles' && tiles'[lists[k][l]].size == tiles[lists[k][l]].size
      {
        assert ListedOk(tiles, lists, x, n, k, l);
      }
      TotalFrame(tiles, tiles', lists[k]);
      if k == i {
        TotalWithout(tiles', lists'[i], j);
        assert Without(lists'[i], j) == lists[i];
      }
    }
    SumChange(counts, i, counts[i] + sz);
  }

  // ---- Changing tiles ----

  function Interval(lo: nat, len: nat): set<nat> {
    Range(lo, lo + len)
  }

  lemma {:induction false} IntervalSize(lo: nat, len: nat)
    ensures |Interval(lo, len)| == len
  {
    if len > 0 {
      IntervalSize(lo, len - 1);
      assert Interval(lo, len) == Interval(lo, len - 1) + {lo + len - 1};
    }
  }

  /** Tiles do not overlap. */
  lemma OneTile(tiles: Tiles, t: nat, u: nat, a: nat)
    requires Tiling(tiles) && InTile(tiles, t, a) && InTile(tiles, u, a)
    ensures t == u
  {
    assert (t < u ==> Before(tiles, t, u)) && (u < t ==> Before(tiles, u, t));
  }

  /** A tile changes its state but not its size. */
  lemma ChangeState(tiles: Tiles, heap: set<nat>, b: nat, tile: Tile)
    requires Tiling(tiles) && Covers(tiles, heap) && b in tiles && tile.size == tiles[b].size
    ensures Tiling(tiles[b := tile]) && Covers(tiles[b := tile], heap)
  {
    var tiles' := tiles[b := tile];
    forall a | a in tiles'
      ensures Positive(tiles', a)
    {
      assert Positive(tiles, a);
    }
    forall a, c | a in tiles' && c in tiles' && a < c
      ensures Before(tiles', a, c)
    {
      assert Before(tiles, a, c);
    }
    assert forall t, a: nat :: InTile(tiles', t, a) <==> InTile(tiles, t, a);
  }

  /** What the cells of a tile are is what the tile is. */
  lemma CellOf(tiles: Tiles, t: nat, a: nat)
    requires Tiling(tiles) && InTile(tiles, t, a)
    ensures IsFree(tiles, a) <==> tiles[t].Free?
    ensures IsUsed(tiles, a) <==> tiles[t].Used?
  {
    forall u | InTile(tiles, u, a)
      ensures u == t
    {
      OneTile(tiles, t, u, a);
    }
  }

  lemma StopBeingFree(tiles: Tiles, heap: set<nat>, b: nat, tile: Tile)
    requires Tiling(tiles) && Covers(tiles, heap) && b in tiles
    requires tiles[b].Free? && !tile.Free? && tile.size == tiles[b].size
    ensures |FreeCells(tiles[b := tile], heap)| == |FreeCells(tiles, heap)| - tile.size
  {
    var tiles' := tiles[b := tile];
    ChangeState(tiles, heap, b, tile);
    forall a | a in heap
      ensures IsFree(tiles', a) <==> IsFree(tiles, a) && a !in Interval(b, tile.size)
      ensures a in Interval(b, tile.size) ==> IsFree(tiles, a)
    {
      var t :| InTile(tiles, t, a);
      CellOf(tiles, t, a);
      CellOf(tiles', t, a);
      if a in Interval(b, tile.size) {
        OneTile(tiles, t, b, a);
      }
    }
    forall a | a in Interval(b, tile.size)
      ensures a in heap
    {
      assert InTile(tiles, b, a);
    }
    assert FreeCells(tiles', heap) == FreeCells(tiles, heap) - Interval(b, tile.size);
    IntervalSize(b, tile.size);
  }

  lemma BecomeFree(tiles: Tiles, heap: set<nat>, b: nat, size: nat)
    requires Tiling(tiles) && Covers(tiles, heap) && b in tiles && !tiles[b].Free? && size == tiles[b].size
    ensures |FreeCells(tiles[b := Free(size)], heap)| == |FreeCells(tiles, heap)| + size
  {
    ChangeState(tiles, heap, b, Free(size));
    StopBeingFree(tiles[b := Free(size)], heap, b, tiles[b]);
    assert tiles[b := Free(size)][b := tiles[b]] == tiles;
  }

  lemma BecomeLimbo(z: Sizes, index: Index, tiles: Tiles, b: nat)
    requires z.Sensible() && Indexed(z, index, tiles) && b in tiles && tiles[b].Free?
    ensures Indexed(z, index, tiles[b := Limbo(tiles[b].size, false)])
  {
    var tiles' := tiles[b := Limbo(tiles[b].size, false)];
    forall a | a in tiles'
      ensures HeaderOk(z, index, tiles', a)
    {
      assert HeaderOk(z, index, tiles, a);
    }
    forall a, i: nat | a in tiles' && tiles'[a].Counted() && 0 < i < tiles'[a].size
      ensures JumpOk(z, index, a, i)
    {
      assert JumpOk(z, index, a, i);
    }
    forall x | x in index && x !in tiles'
      ensures InnerOfCounted(tiles', x)
    {
      assert InnerOfCounted(tiles, x);
      var a :| a in tiles && tiles[a].Counted() && a < x < a + tiles[a].size;
      assert a in tiles' && tiles'[a].Counted();
    }
  }

  lemma {:induction false} SumOfMore(counts: seq<nat>, n: nat, i: nat)
    requires n <= i <= |counts|
    ensures Sum(counts[i..]) <= Sum(counts[n..])
    decreases i - n
  {
    if n < i {
      assert counts[n..][1..] == counts[n + 1..];
      SumOfMore(counts, n + 1, i);
    }
  }

  lemma {:induction false} SumOfZeros(counts: seq<nat>)
    requires forall i :: 0 <= i < |counts| ==> counts[i] == 0
    ensures Sum(counts) == 0
  {
    if counts != [] {
      SumOfZeros(counts[1..]);
    }
  }

  // ---- The whole state ----

  /** Everything but the totals kept elsewhere is in order, except that block x, while it is being split, may
      be on the list n of the block it was part of, and next to another free block. */
  ghost predicate Sound(z: Sizes, index: Index, heads: seq<nat>, counts: seq<nat>, tiles: Tiles, lists: Lists,
                        heap: set<nat>, x: nat, n: nat) {
    && z.Sensible()
    && Tiling(tiles) && Covers(tiles, heap)
    && Indexed(z, index, tiles)
    && FiledAll(tiles, lists, x, n) && Linked(index, heads, lists)
    && Counts(tiles, lists, counts) && Sum(counts) == |FreeCells(tiles, heap)|
    && Coalesced(tiles, x)
  }

  lemma ListedHaveHeaders(index: Index, heads: seq<nat>, lists: Lists, i: nat)
    requires Linked(index, heads, lists) && i < |lists|
    ensures forall k :: 0 <= k < |lists[i]| ==> lists[i][k] in index && index[lists[i][k]].Header?
  {
    forall k | 0 <= k < |lists[i]|
      ensures lists[i][k] in index && index[lists[i][k]].Header?
    {
      assert LinkOk(index, lists[i], k);
    }
  }

  lemma CoalescedWithout(tiles: Tiles, x: nat, b: nat, tile: Tile)
    requires Tiling(tiles) && Coalesced(tiles, x) && b in tiles && !tile.Free?
    ensures Coalesced(tiles[b := tile], if b == x then 0 else x)
  {
    var tiles', x' := tiles[b := tile], if b == x then 0 else x;
    forall a | a in tiles' && tiles'[a].Free? && a != x'
      ensures Alone(tiles', a, x')
    {
      assert Positive(tiles, a) && Alone(tiles, a, x);
    }
  }

  /** Taking the block at position j of list i off its list. */
  lemma Unlink(z: Sizes, index: Index, heads: seq<nat>, counts: seq<nat>, tiles: Tiles, lists: Lists,
               heap: set<nat>, x: nat, n: nat, i: nat, j: nat)
    requires Sound(z, index, heads, counts, tiles, lists, heap, x, n) && i < |lists| && j < |lists[i]|
    ensures var b := lists[i][j];
            && b in tiles && tiles[b].Free? && Home(tiles, x, n, b) == i && b in index && index[b].Header?
            && i < |counts| && i < |heads| && counts[i] >= tiles[b].size
            && index[b].hdr.free && index[b].hdr.sz == tiles[b].size
            && var prev, next := index[b].hdr.prev, index[b].hdr.next;
               && (prev != 0 ==> prev in index && index[prev].Header?)
               && (next != 0 ==> next in index && index[next].Header?)
               && SameButLinks(index, Unlinked(index, prev, next))
               && Sound(z, Unlinked(index, prev, next), if prev == 0 then heads[i := next] else heads,
                        counts[i := counts[i] - tiles[b].size], tiles[b := Limbo(tiles[b].size, false)],
                        lists[i := Without(lists[i], j)], heap, if b == x then 0 else x, n)
               && Sum(counts[i := counts[i] - tiles[b].size]) == Sum(counts) - tiles[b].size
  {
    var b := lists[i][j];
    assert ListedOk(tiles, lists, x, n, i, j);
    assert HeaderOk(z, index, tiles, b);
    var tile := Limbo(tiles[b].size, false);
    UnlinkNeighbours(tiles, index, heads, lists, x, n, i, j);
    ListedHaveHeaders(index, heads, lists, i);
    UnlinkLinked(tiles, index, heads, lists, x, n, i, j);
    UnlinkFiled(tiles, lists, x, n, i, j, tile.size);
    UnlinkCounts(tiles, lists, counts, x, n, i, j);
    IndexedKept(z, index, Unlinked(index, index[b].hdr.prev, index[b].hdr.next), tiles);
    BecomeLimbo(z, Unlinked(index, index[b].hdr.prev, index[b].hdr.next), tiles, b);
    StopBeingFree(tiles, heap, b, tile);
    ChangeState(tiles, heap, b, tile);
    CoalescedWithout(tiles, x, b, tile);
  }

  /** Block b has no free block, other than block x, before or behind it. */
  ghost predicate NoFreeNeighbour(tiles: Tiles, b: nat, x: nat)
    requires b in tiles
  {
    && Alone(tiles, b, x)
    && forall a :: a in tiles && tiles[a].Free? && a != x ==> a + tiles[a].size != b
  }

  lemma CoalescedWith(tiles: Tiles, x: nat, x': nat, b: nat)
    requires Tiling(tiles) && Coalesced(tiles, x) && b in tiles
    requires x == x' || (x == 0 && x' == b)
    requires x' == b || NoFreeNeighbour(tiles, b, x)
    ensures Coalesced(tiles[b := Free(tiles[b].size)], x')
  {
    var tiles' := tiles[b := Free(tiles[b].size)];
    forall a | a in tiles' && tiles'[a].Free? && a != x'
      ensures Alone(tiles', a, x')
    {
      assert Positive(tiles, a);
      if a != b {
        assert Alone(tiles, a, x);
      }
    }
  }

  lemma BecomeFreeIndexed(z: Sizes, index: Index, tiles: Tiles, b: nat, hdr: Hdr)
    requires z.Sensible() && Indexed(z, index, tiles) && b in tiles && tiles[b].Limbo? && !tiles[b].counted
    requires hdr.free && hdr.sz == tiles[b].size
    ensures Indexed(z, index[b := Header(hdr)], tiles[b := Free(tiles[b].size)])
  {
    var index', tiles' := index[b := Header(hdr)], tiles[b := Free(tiles[b].size)];
    forall a | a in tiles'
      ensures HeaderOk(z, index', tiles', a)
    {
      assert HeaderOk(z, index, tiles, a);
    }
    forall a, i: nat | a in tiles' && tiles'[a].Counted() && 0 < i < tiles'[a].size
      ensures JumpOk(z, index', a, i)
    {
      assert JumpOk(z, index, a, i);
      assert HeaderOk(z, index, tiles, b);
    }
    forall y | y in index' && y !in tiles'
      ensures InnerOfCounted(tiles', y)
    {
      assert InnerOfCounted(tiles, y);
      var a :| a in tiles && tiles[a].Counted() && a < y < a + tiles[a].size;
      assert a in tiles' && tiles'[a].Counted();
    }
  }

  /** Putting block b, whose header will be hdr, on list i at position j. */
  lemma Insert(z: Sizes, index: Index, heads: seq<nat>, counts: seq<nat>, tiles: Tiles, lists: Lists,
               heap: set<nat>, x: nat, n: nat, x': nat, n': nat, i: nat, j: nat, b: nat, hdr: Hdr)
    requires Sound(z, index, heads, counts, tiles, lists, heap, x, n) && i < |lists| && j <= |lists[i]|
    requires b in tiles && tiles[b].Limbo? && !tiles[b].counted && hdr.sz == tiles[b].size
    requires Exception(x, n, x', n', b, hdr.sz, i) && (x' == b || NoFreeNeighbour(tiles, b, x))
    ensures i < |heads| && i < |counts| && heads[i] == At(lists[i], 0)
    ensures var prev, next := At(lists[i], j - 1), At(lists[i], j);
            && b in index && index[b].Header?
            && (j > 0 <==> prev != 0) && (j < |lists[i]| <==> next != 0) && (prev != 0 ==> prev != next)
            && (prev != 0 ==> prev != b && prev in index && index[prev].Header?)
            && (next != 0 ==> next != b && next in index && index[next].Header?)
            && Sound(z, Relinked(index, b, hdr, prev, next), if j == 0 then heads[i := b] else heads,
                     counts[i := counts[i] + hdr.sz], tiles[b := Free(hdr.sz)],
                     lists[i := With(lists[i], j, b)], heap, x', n')
            && Sum(counts[i := counts[i] + hdr.sz]) == Sum(counts) + hdr.sz
  {
    InsertNeighbours(tiles, index, heads, lists, x, n, i, j, b);
    assert HeaderOk(z, index, tiles, b);
    InsertLinked(tiles, index, heads, lists, x, n, i, j, b, hdr);
    InsertFiled(tiles, lists, x, n, x', n', i, j, b, hdr.sz);
    InsertCounts(tiles, lists, counts, x, n, i, j, b, hdr.sz);
    BecomeFree(tiles, heap, b, hdr.sz);
    ChangeState(tiles, heap, b, Free(hdr.sz));
    CoalescedWith(tiles, x, x', b);
    BecomeFreeIndexed(z, index, tiles, b, hdr.(free := true));
    IndexedKept(z, index[b := Header(hdr.(free := true))],
                Relinked(index, b, hdr, At(lists[i], j - 1), At(lists[i], j)), tiles[b := Free(hdr.sz)]);
  }

  // ---- Changes that leave the free blocks alone ----

  /** The same blocks are free. */
  ghost predicate SameFree(tiles: Tiles, tiles': Tiles) {
    && (forall a :: a in tiles && tiles[a].Free? ==> a in tiles' && tiles'[a] == tiles[a])
    && (forall a :: a in tiles' && tiles'[a].Free? ==> a in tiles && tiles[a] == tiles'[a])
  }

  lemma FiledKept(tiles: Tiles, tiles': Tiles, lists: Lists, x: nat, n: nat)
    requires FiledAll(tiles, lists, x, n) && SameFree(tiles, tiles')
    ensures FiledAll(tiles', lists, x, n)
  {
    forall k, l | 0 <= k < |lists| && 0 <= l < |lists[k]|
      ensures ListedOk(tiles', lists, x, n, k, l)
    {
      assert ListedOk(tiles, lists, x, n, k, l);
    }
    forall c | c in tiles' && tiles'[c].Free?
      ensures Filed(tiles', lists, x, n, c)
    {
      assert Filed(tiles, lists, x, n, c);
    }
  }

  lemma LinkedKept(tiles: Tiles, index: Index, index': Index, heads: seq<nat>, lists: Lists, x: nat, n: nat)
    requires FiledAll(tiles, lists, x, n) && Linked(index, heads, lists)
    requires forall a :: a in tiles && tiles[a].Free? && a in index ==> a in index' && index'[a] == index[a]
    ensures Linked(index', heads, lists)
  {
    forall k, l | 0 <= k < |lists| && 0 <= l < |lists[k]|
      ensures LinkOk(index', lists[k], l)
    {
      assert ListedOk(tiles, lists, x, n, k, l) && LinkOk(index, lists[k], l);
    }
  }

  lemma CountsKept(tiles: Tiles, tiles': Tiles, lists: Lists, counts: seq<nat>, x: nat, n: nat)
    requires FiledAll(tiles, lists, x, n) && Counts(tiles, lists, counts) && SameFree(tiles, tiles')
    ensures Counts(tiles', lists, counts)
  {
    forall k | 0 <= k < |lists|
      ensures CountOk(tiles', lists, counts, k)
    {
      assert CountOk(tiles, lists, counts, k);
      forall l | 0 <= l < |lists[k]|
        ensures lists[k][l] in tiles' && tiles'[lists[k][l]].size == tiles[lists[k][l]].size
      {
        assert ListedOk(tiles, lists, x, n, k, l);
      }
      TotalFrame(tiles, tiles', lists[k]);
    }
  }

  lemma CoalescedKept(tiles: Tiles, tiles': Tiles, x: nat)
    requires Coalesced(tiles, x) && SameFree(tiles, tiles')
    ensures Coalesced(tiles', x)
  {
    forall a | a in tiles' && tiles'[a].Free? && a != x
      ensures Alone(tiles', a, x)
    {
      assert Alone(tiles, a, x);
    }
  }

  lemma FreeCellsKept(tiles: Tiles, tiles': Tiles, heap: set<nat>)
    requires SameFree(tiles, tiles')
    ensures FreeCells(tiles', heap) == FreeCells(tiles, heap)
  {
    forall a
      ensures IsFree(tiles, a) <==> IsFree(tiles', a)
    {
      if IsFree(tiles, a) {
        var t :| InTile(tiles, t, a) && tiles[t].Free?;
        assert InTile(tiles', t, a);
      }
      if IsFree(tiles', a) {
        var t :| InTile(tiles', t, a) && tiles'[t].Free?;
        assert InTile(tiles, t, a);
      }
    }
  }

  /** A change that leaves the free blocks and their headers alone keeps the state sound, if what is left of
      it is. */
  lemma Aside(z: Sizes, index: Index, index': Index, heads: seq<nat>, counts: seq<nat>, tiles: Tiles, tiles': Tiles,
              lists: Lists, heap: set<nat>, x: nat, n: nat)
    requires Sound(z, index, heads, counts, tiles, lists, heap, x, n) && SameFree(tiles, tiles')
    requires forall a :: a in tiles && tiles[a].Free? && a in index ==> a in index' && index'[a] == index[a]
    requires Tiling(tiles') && Covers(tiles', heap) && Indexed(z, index', tiles')
    ensures Sound(z, index', heads, counts, tiles', lists, heap, x, n)
  {
    FiledKept(tiles, tiles', lists, x, n);
    LinkedKept(tiles, index, index', heads, lists, x, n);
    CountsKept(tiles, tiles', lists, counts, x, n);
    CoalescedKept(tiles, tiles', x);
    FreeCellsKept(tiles, tiles', heap);
  }

  /** Cutting a block that is being worked on in two. */
  function Cut(tiles: Tiles, b: nat, k: nat): Tiles
    requires b in tiles && k <= tiles[b].size
  {
    tiles[b := Limbo(k, false)][b + k := Limbo(tiles[b].size - k, false)]
  }

  lemma CutTiling(tiles: Tiles, heap: set<nat>, b: nat, k: nat)
    requires Tiling(tiles) && Covers(tiles, heap) && b in tiles && 0 < k < tiles[b].size
    ensures b + k !in tiles && Tiling(Cut(tiles, b, k)) && Covers(Cut(tiles, b, k), heap)
  {
    var tiles' := Cut(tiles, b, k);
    assert b + k in tiles ==> Before(tiles, b, b + k);
    forall a | a in tiles'
      ensures Positive(tiles', a)
    {
      assert Positive(tiles, b) && (a in tiles ==> Positive(tiles, a));
    }
    forall a, c | a in tiles' && c in tiles' && a < c
      ensures Before(tiles', a, c)
    {
      var a0, c0 := if a == b + k then b else a, if c == b + k then b else c;
      assert (a0 < c0 ==> Before(tiles, a0, c0)) && (c0 < a0 ==> Before(tiles, c0, a0));
    }
    forall a | a in heap
      ensures exists t :: InTile(tiles', t, a)
    {
      var t :| InTile(tiles, t, a);
      if t == b {
        assert InTile(tiles', if a < b + k then b else b + k, a);
      } else {
        assert InTile(tiles', t, a);
      }
    }
    forall t, a: nat | InTile(tiles', t, a)
      ensures a in heap
    {
      assert InTile(tiles, if t == b + k then b else t, a);
    }
  }

  lemma CutIndexed(z: Sizes, index: Index, tiles: Tiles, b: nat, k: nat, hdr: Hdr)
    requires z.Sensible() && Tiling(tiles) && Indexed(z, index, tiles)
    requires b in tiles && tiles[b].Limbo? && !tiles[b].counted && 0 < k < tiles[b].size && b + k !in tiles
    ensures b + k !in index && Indexed(z, index[b + k := Header(hdr)], Cut(tiles, b, k))
  {
    var index', tiles' := index[b + k := Header(hdr)], Cut(tiles, b, k);
    if b + k in index {
      assert InnerOfCounted(tiles, b + k);
      var a :| a in tiles && tiles[a].Counted() && a < b + k < a + tiles[a].size;
      OneTile(tiles, a, b, b + k);
    }
    forall a | a in tiles'
      ensures HeaderOk(z, index', tiles', a)
    {
      if a != b + k {
        assert HeaderOk(z, index, tiles, a);
      }
    }
    forall a, i: nat | a in tiles' && tiles'[a].Counted() && 0 < i < tiles'[a].size
      ensures JumpOk(z, index', a, i)
    {
      assert JumpOk(z, index, a, i);
    }
    forall y | y in index' && y !in tiles'
      ensures InnerOfCounted(tiles', y)
    {
      assert InnerOfCounted(tiles, y);
      var a :| a in tiles && tiles[a].Counted() && a < y < a + tiles[a].size;
      assert a in tiles' && tiles'[a].Counted();
    }
  }

  lemma CutSound(z: Sizes, index: Index, heads: seq<nat>, counts: seq<nat>, tiles: Tiles, lists: Lists,
                 heap: set<nat>, x: nat, n: nat, b: nat, k: nat, hdr: Hdr)
    requires Sound(z, index, heads, counts, tiles, lists, heap, x, n)
    requires b in tiles && tiles[b].Limbo? && !tiles[b].counted && 0 < k < tiles[b].size
    ensures b + k !in tiles && b + k !in index
    ensures Sound(z, index[b + k := Header(hdr)], heads, counts, Cut(tiles, b, k), lists, heap, x, n)
  {
    CutTiling(tiles, heap, b, k);
    CutIndexed(z, index, tiles, b, k, hdr);
    Aside(z, index, index[b + k := Header(hdr)], heads, counts, tiles, Cut(tiles, b, k), lists, heap, x, n);
  }

  /** Joining two neighbouring blocks that are being worked on. */
  function Join(tiles: Tiles, b: nat, c: nat): Tiles
    requires b in tiles && c in tiles
  {
    (tiles - {c})[b := Limbo(tiles[b].size + tiles[c].size, false)]
  }

  lemma JoinTiling(tiles: Tiles, heap: set<nat>, b: nat, c: nat)
    requires Tiling(tiles) && Covers(tiles, heap) && b in tiles && c in tiles && c == b + tiles[b].size
    ensures Tiling(Join(tiles, b, c)) && Covers(Join(tiles, b, c), heap)
  {
    var tiles' := Join(tiles, b, c);
    assert Positive(tiles, b);
    forall a | a in tiles'
      ensures Positive(tiles', a)
    {
      assert Positive(tiles, a);
    }
    forall a, d | a in tiles' && d in tiles' && a < d
      ensures Before(tiles', a, d)
    {
      assert Before(tiles, a, d);
      assert (d < c ==> Before(tiles, d, c)) && (c < d ==> Before(tiles, c, d));
    }
    forall a | a in heap
      ensures exists t :: InTile(tiles', t, a)
    {
      var t :| InTile(tiles, t, a);
      assert InTile(tiles', if t == c then b else t, a);
    }
    forall t, a: nat | InTile(tiles', t, a)
      ensures a in heap
    {
      if t == b && a >= c {
        assert InTile(tiles, c, a);
      } else {
        assert InTile(tiles, t, a);
      }
    }
  }

  lemma JoinSound(z: Sizes, index: Index, heads: seq<nat>, counts: seq<nat>, tiles: Tiles, lists: Lists,
                  heap: set<nat>, x: nat, n: nat, b: nat, c: nat)
    requires Sound(z, index, heads, counts, tiles, lists, heap, x, n)
    requires b in tiles && tiles[b].Limbo? && !tiles[b].counted && c in tiles && tiles[c].Limbo? && !tiles[c].counted
    requires c == b + tiles[b].size
    ensures Sound(z, index - {c}, heads, counts, Join(tiles, b, c), lists, heap, x, n)
  {
    var index', tiles' := index - {c}, Join(tiles, b, c);
    JoinTiling(tiles, heap, b, c);
    assert Positive(tiles, b);
    forall a | a in tiles'
      ensures HeaderOk(z, index', tiles', a)
    {
      assert HeaderOk(z, index, tiles, a);
    }
    forall a, i: nat | a in tiles' && tiles'[a].Counted() && 0 < i < tiles'[a].size
      ensures JumpOk(z, index', a, i)
    {
      assert JumpOk(z, index, a, i);
      assert HeaderOk(z, index, tiles, c);
    }
    forall y | y in index' && y !in tiles'
      ensures InnerOfCounted(tiles', y)
    {
      assert InnerOfCounted(tiles, y);
      var a :| a in tiles && tiles[a].Counted() && a < y < a + tiles[a].size;
      assert a in tiles' && tiles'[a].Counted();
    }
    Aside(z, index, index', heads, counts, tiles, tiles', lists, heap, x, n);
  }

  // ---- Forwarding counts ----

  /** index' is index with forwarding counts for the inner blocks of the n blocks at b, up to block b + k. */
  ghost predicate CountsSet(z: Sizes, index: Index, index': Index, b: nat, k: nat) {
    && index'.Keys == index.Keys + Range(b + 1, b + k)
    && forall a :: a in index' ==> index'[a] == if Between(b + 1, a, b + k) then Jump(z.Count(a - b)) else index[a]
  }

  /** A block that is not free changes its state, with an index that fits. */
  lemma Retag(z: Sizes, index: Index, index': Index, heads: seq<nat>, counts: seq<nat>, tiles: Tiles, lists: Lists,
              heap: set<nat>, x: nat, n: nat, b: nat, tile: Tile)
    requires Sound(z, index, heads, counts, tiles, lists, heap, x, n)
    requires b in tiles && !tiles[b].Free? && !tile.Free? && tile.size == tiles[b].size
    requires forall a :: !Between(b, a, b + tile.size) ==> (a in index' <==> a in index)
    requires forall a :: a in index && !Between(b, a, b + tile.size) ==> index'[a] == index[a]
    requires b in index' && index'[b].Header?
    requires tile.Used? ==> !index'[b].hdr.free && z.Blocks(index'[b].hdr.sz) == tile.size
    requires tile.Counted() ==> forall i: nat {:trigger JumpOk(z, index', b, i)} :: 0 < i < tile.size ==>
               JumpOk(z, index', b, i)
    requires !tile.Counted() ==> forall a {:trigger a in index'} :: Between(b + 1, a, b + tile.size) ==> a !in index'
    ensures Sound(z, index', heads, counts, tiles[b := tile], lists, heap, x, n)
  {
    var tiles' := tiles[b := tile];
    ChangeState(tiles, heap, b, tile);
    forall a | a in tiles && a != b
      ensures !Between(b, a, b + tile.size)
    {
      assert (b < a ==> Before(tiles, b, a));
    }
    forall a | a in tiles'
      ensures HeaderOk(z, index', tiles', a)
    {
      assert a != b ==> HeaderOk(z, index, tiles, a);
    }
    forall a, i: nat | a in tiles' && tiles'[a].Counted() && 0 < i < tiles'[a].size
      ensures JumpOk(z, index', a, i)
    {
      if a != b {
        assert JumpOk(z, index, a, i);
        assert (b < a ==> Before(tiles, b, a)) && (a < b ==> Before(tiles, a, b));
      }
    }
    forall y | y in index' && y !in tiles'
      ensures InnerOfCounted(tiles', y)
    {
      RetagInner(z, index, index', tiles, b, tile, y);
    }
    Aside(z, index, index', heads, counts, tiles, tiles', lists, heap, x, n);
  }

  lemma RetagInner(z: Sizes, index: Index, index': Index, tiles: Tiles, b: nat, tile: Tile, y: nat)
    requires z.Sensible() && Tiling(tiles) && Indexed(z, index, tiles) && b in tiles && tile.size == tiles[b].size
    requires !Between(b, y, b + tile.size) ==> (y in index' <==> y in index)
    requires !tile.Counted() && Between(b + 1, y, b + tile.size) ==> y !in index'
    requires y in index' && y !in tiles
    ensures InnerOfCounted(tiles[b := tile], y)
  {
    var tiles' := tiles[b := tile];
    if Between(b, y, b + tile.size) {
      assert b in tiles' && tiles'[b].Counted() && b < y < b + tiles'[b].size;
    } else {
      assert InnerOfCounted(tiles, y);
      var a :| a in tiles && tiles[a].Counted() && a < y < a + tiles[a].size;
      assert a in tiles' && tiles'[a].Counted();
    }
  }

  /** Forwarding counts for all inner blocks. */
  lemma CountsInstalled(z: Sizes, index: Index, index': Index, heads: seq<nat>, counts: seq<nat>, tiles: Tiles,
                        lists: Lists, heap: set<nat>, x: nat, n: nat, b: nat)
    requires Sound(z, index, heads, counts, tiles, lists, heap, x, n)
    requires b in tiles && tiles[b].Limbo? && CountsSet(z, index, index', b, tiles[b].size)
    ensures Sound(z, index', heads, counts, tiles[b := Limbo(tiles[b].size, true)], lists, heap, x, n)
  {
    assert HeaderOk(z, index, tiles, b);
    assert !Between(b + 1, b, b + tiles[b].size);
    forall i: nat | 0 < i < tiles[b].size
      ensures JumpOk(z, index', b, i)
    {
      assert Between(b + 1, b + i, b + tiles[b].size);
    }
    var lo, hi := b + 1, b + tiles[b].size;
    assert forall a :: Between(lo, a, hi) ==> Between(b, a, hi);
    Retag(z, index, index', heads, counts, tiles, lists, heap, x, n, b, Limbo(tiles[b].size, true));
  }

  /** No forwarding counts any more. */
  lemma CountsRemoved(z: Sizes, index: Index, heads: seq<nat>, counts: seq<nat>, tiles: Tiles,
                      lists: Lists, heap: set<nat>, x: nat, n: nat, b: nat)
    requires Sound(z, index, heads, counts, tiles, lists, heap, x, n)
    requires b in tiles && !tiles[b].Free?
    ensures Sound(z, index - Range(b + 1, b + tiles[b].size), heads, counts,
                  tiles[b := Limbo(tiles[b].size, false)], lists, heap, x, n)
  {
    var index' := index - Range(b + 1, b + tiles[b].size);
    assert HeaderOk(z, index, tiles, b);
    var lo, hi := b + 1, b + tiles[b].size;
    assert forall a :: Between(lo, a, hi) ==> Between(b, a, hi);
    Retag(z, index, index', heads, counts, tiles, lists, heap, x, n, b, Limbo(tiles[b].size, false));
  }

  /** The header of a used block. */
  lemma HeaderSet(z: Sizes, index: Index, heads: seq<nat>, counts: seq<nat>, tiles: Tiles,
                  lists: Lists, heap: set<nat>, x: nat, n: nat, b: nat, hdr: Hdr)
    requires Sound(z, index, heads, counts, tiles, lists, heap, x, n)
    requires b in tiles && tiles[b].Limbo? && (tiles[b].counted || tiles[b].size == 1)
    requires !hdr.free && z.Blocks(hdr.sz) == tiles[b].size
    ensures Sound(z, index[b := Header(hdr)], heads, counts, tiles[b := Used(tiles[b].size)], lists, heap, x, n)
  {
    var index' := index[b := Header(hdr)];
    assert HeaderOk(z, index, tiles, b) && Positive(tiles, b);
    assert Between(b, b, b + tiles[b].size);
    forall i: nat | 0 < i < tiles[b].size
      ensures JumpOk(z, index', b, i)
    {
      assert JumpOk(z, index, b, i);
    }
    Retag(z, index, index', heads, counts, tiles, lists, heap, x, n, b, Used(tiles[b].size));
  }

  // ---- Growing the heap ----

  lemma GrowTiling(tiles: Tiles, heap: set<nat>, b: nat, size: nat)
    requires Tiling(tiles) && Covers(tiles, heap) && b >= 1 && size >= 1 && Interval(b, size) !! heap
    ensures b !in tiles && Tiling(tiles[b := Limbo(size, false)])
    ensures Covers(tiles[b := Limbo(size, false)], heap + Interval(b, size))
  {
    var tiles' := tiles[b := Limbo(size, false)];
    forall t, a: nat | InTile(tiles, t, a)
      ensures !(b <= a < b + size)
    {
      assert a in heap && a !in Interval(b, size);
    }
    if b in tiles {
      assert Positive(tiles, b);
      assert InTile(tiles, b, b);
    }
    forall a | a in tiles'
      ensures Positive(tiles', a)
    {
      assert a != b ==> Positive(tiles, a);
    }
    forall a, c | a in tiles' && c in tiles' && a < c
      ensures Before(tiles', a, c)
    {
      if a != b && c != b {
        assert Before(tiles, a, c);
      } else if a == b {
        assert Positive(tiles, c) && InTile(tiles, c, c);
      } else {
        assert Positive(tiles, a) && !InTile(tiles, a, b);
      }
    }
    forall a | a in heap + Interval(b, size)
      ensures exists t :: InTile(tiles', t, a)
    {
      if a in heap {
        var t :| InTile(tiles, t, a);
        assert InTile(tiles', t, a);
      } else {
        assert InTile(tiles', b, a);
      }
    }
    forall t, a: nat | InTile(tiles', t, a)
      ensures a in heap + Interval(b, size)
    {
      if t == b {
        assert Between(b, a, b + size);
      } else {
        assert InTile(tiles, t, a);
      }
    }
  }

  lemma GrowSound(z: Sizes, index: Index, heads: seq<nat>, counts: seq<nat>, tiles: Tiles,
                  lists: Lists, heap: set<nat>, b: nat, size: nat, hdr: Hdr)
    requires Sound(z, index, heads, counts, tiles, lists, heap, 0, 0)
    requires b >= 1 && size >= 1 && Interval(b, size) !! heap
    ensures b !in index
    ensures Sound(z, index[b := Header(hdr)], heads, counts, tiles[b := Limbo(size, false)], lists,
                  heap + Interval(b, size), 0, 0)
  {
    var index', tiles', heap' := index[b := Header(hdr)], tiles[b := Limbo(size, false)], heap + Interval(b, size);
    GrowTiling(tiles, heap, b, size);
    assert Between(b, b, b + size);
    if b in index {
      assert InnerOfCounted(tiles, b);
      var a :| a in tiles && tiles[a].Counted() && a < b < a + tiles[a].size;
      assert InTile(tiles, a, b);
      assert false;
    }
    forall a | a in tiles'
      ensures HeaderOk(z, index', tiles', a)
    {
      assert a != b ==> HeaderOk(z, index, tiles, a);
    }
    forall a, i: nat | a in tiles' && tiles'[a].Counted() && 0 < i < tiles'[a].size
      ensures JumpOk(z, index', a, i)
    {
      assert JumpOk(z, index, a, i);
    }
    forall y | y in index' && y !in tiles'
      ensures InnerOfCounted(tiles', y)
    {
      assert InnerOfCounted(tiles, y);
      var a :| a in tiles && tiles[a].Counted() && a < y < a + tiles[a].size;
      assert a in tiles' && tiles'[a].Counted();
    }
    FreeOfGrown(tiles, heap, b, size);
    FiledKept(tiles, tiles', lists, 0, 0);
    LinkedKept(tiles, index, index', heads, lists, 0, 0);
    CountsKept(tiles, tiles', lists, counts, 0, 0);
    CoalescedKept(tiles, tiles', 0);
  }

  lemma FreeOfGrown(tiles: Tiles, heap: set<nat>, b: nat, size: nat)
    requires Tiling(tiles) && Covers(tiles, heap) && b !in tiles && Interval(b, size) !! heap
    ensures FreeCells(tiles[b := Limbo(size, false)], heap + Interval(b, size)) == FreeCells(tiles, heap)
  {
    var tiles', heap' := tiles[b := Limbo(size, false)], heap + Interval(b, size);
    FreeCellsKept(tiles, tiles', heap');
    forall a | a in Interval(b, size)
      ensures !IsFree(tiles, a)
    {
      assert forall t :: InTile(tiles, t, a) ==> a in heap;
    }
  }

  // ---- Reading the index ----

  /** A block with a header starts a tile; one with a forwarding count is inside a block that has them. */
  lemma ReadSlot(z: Sizes, index: Index, tiles: Tiles, a: nat) returns (t: nat)
    requires z.Sensible() && Tiling(tiles) && Indexed(z, index, tiles) && a in index
    ensures InTile(tiles, t, a) && (index[a].Header? <==> t == a)
    ensures index[a].Jump? ==> tiles[t].Counted() && t < a && index[a].back == z.Count(a - t)
  {
    if a in tiles {
      assert Positive(tiles, a) && HeaderOk(z, index, tiles, a);
      t := a;
    } else {
      assert InnerOfCounted(tiles, a);
      t :| t in tiles && tiles[t].Counted() && t < a < t + tiles[t].size;
      assert JumpOk(z, index, t, a - t);
    }
  }

  /** Every tile, but for h if that is not 0, is free or used. */
  ghost predicate SettledBut(tiles: Tiles, h: nat) {
    forall a :: a in tiles && !(a == h != 0) ==> !tiles[a].Limbo?
  }

  lemma Outside(tiles: Tiles, t: nat, a: nat)
    requires Tiling(tiles) && t in tiles && a in tiles && t != a
    ensures !InTile(tiles, t, a)
  {
    assert (t < a ==> Before(tiles, t, a));
  }

  /** The header of a free block: that of a block in the tiling, which is free unless it is worked on. */
  lemma ReadFreeHeader(z: Sizes, index: Index, tiles: Tiles, a: nat)
    requires z.Sensible() && Tiling(tiles) && Indexed(z, index, tiles)
    requires a in index && index[a].Header? && (a in tiles ==> !tiles[a].Limbo?)
    ensures a in tiles && HeaderOk(z, index, tiles, a) && (index[a].hdr.free <==> tiles[a].Free?)
  {
    var t := ReadSlot(z, index, tiles, a);
    assert HeaderOk(z, index, tiles, a);
  }

  lemma UsedOrFree(tiles: Tiles, heap: set<nat>)
    requires Tiling(tiles) && Covers(tiles, heap) && SettledBut(tiles, 0)
    ensures FreeCells(tiles, heap) == heap - UsedCells(tiles, heap)
  {
    forall a | a in heap
      ensures IsFree(tiles, a) <==> !IsUsed(tiles, a)
    {
      var t :| InTile(tiles, t, a);
      assert Positive(tiles, t);
      CellOf(tiles, t, a);
    }
  }

  /** The free blocks of tiles' are free in tiles. */
  ghost predicate FewerFree(tiles: Tiles, tiles': Tiles) {
    forall a {:trigger Kept(tiles, tiles', a)} :: a in tiles' && tiles'[a].Free? ==> Kept(tiles, tiles', a)
  }

  ghost predicate Kept(tiles: Tiles, tiles': Tiles, a: nat) {
    a in tiles && a in tiles' && tiles[a] == tiles'[a]
  }

  /** The used blocks of tiles, block h excepted if it is not 0, are used in tiles'. */
  ghost predicate UsedKept(tiles: Tiles, tiles': Tiles, h: nat) {
    forall a {:trigger Kept(tiles, tiles', a)} :: a in tiles && tiles[a].Used? && !(a == h != 0) ==>
      Kept(tiles, tiles', a)
  }

  ghost predicate NextNotFree(tiles: Tiles, b: nat)
    requires b in tiles
  {
    !FreeAt(tiles, b + tiles[b].size, 0)
  }

  ghost predicate PrevNotFree(tiles: Tiles, b: nat)
    requires b in tiles
  {
    forall a {:trigger EndsAt(tiles, a, b)} :: a in tiles && tiles[a].Free? ==> !EndsAt(tiles, a, b)
  }

  ghost predicate EndsAt(tiles: Tiles, a: nat, b: nat) {
    a in tiles && a + tiles[a].size == b
  }

  /** A change to the header of a block that is being worked on. */
  lemma HeaderTouched(z: Sizes, index: Index, heads: seq<nat>, counts: seq<nat>, tiles: Tiles,
                      lists: Lists, heap: set<nat>, x: nat, n: nat, b: nat, hdr: Hdr)
    requires Sound(z, index, heads, counts, tiles, lists, heap, x, n)
    requires b in tiles && tiles[b].Limbo?
    ensures Sound(z, index[b := Header(hdr)], heads, counts, tiles, lists, heap, x, n)
  {
    var index' := index[b := Header(hdr)];
    assert HeaderOk(z, index, tiles, b) && Positive(tiles, b);
    assert Between(b, b, b + tiles[b].size);
    forall i: nat | tiles[b].counted && 0 < i < tiles[b].size
      ensures JumpOk(z, index', b, i)
    {
      assert JumpOk(z, index, b, i);
    }
    forall a {:trigger a in index'} | !tiles[b].counted && Between(b + 1, a, b + tiles[b].size)
      ensures a !in index'
    {
      if a in index {
        var t := ReadSlot(z, index, tiles, a);
        OneTile(tiles, t, b, a);
      }
    }
    assert tiles[b := tiles[b]] == tiles;
    Retag(z, index, index', heads, counts, tiles, lists, heap, x, n, b, tiles[b]);
  }

  /** Inside a tile with forwarding counts, or at the start of any, the index has a slot, with a header just
      at the start. */
  lemma InTileIsIndexed(z: Sizes, index: Index, tiles: Tiles, t: nat, a: nat)
    requires z.Sensible() && Tiling(tiles) && Indexed(z, index, tiles)
    requires InTile(tiles, t, a) && (t == a || tiles[t].Counted())
    ensures a in index && (index[a].Header? <==> t == a)
  {
    assert HeaderOk(z, index, tiles, t);
    assert a != t ==> JumpOk(z, index, t, a - t);
  }

  /** The tile just before h is the only one that can end at h. */
  lemma LastBefore(tiles: Tiles, t: nat, h: nat)
    requires Tiling(tiles) && h in tiles && h >= 1 && InTile(tiles, t, h - 1)
    ensures EndsAt(tiles, t, h)
    ensures t != 0 && !tiles[t].Free? ==> PrevNotFree(tiles, h)
  {
    assert Positive(tiles, t) && Before(tiles, t, h);
    forall a | EndsAt(tiles, a, h)
      ensures a == t
    {
      assert Positive(tiles, a) && InTile(tiles, a, h - 1);
      OneTile(tiles, t, a, h - 1);
    }
  }

  /** A block that ends at h is the last one before h. */
  lemma NoneEndsAt(tiles: Tiles, p: nat, h: nat)
    requires Tiling(tiles) && h >= 1 && h in tiles
    requires p == 0 ==> forall t {:trigger t in tiles} :: t in tiles ==> t > h - 1
    requires p != 0 ==> p in tiles && p < h && forall t {:trigger t in tiles} :: t in tiles && t <= h - 1 ==> t <= p
    requires p != 0 ==> !(tiles[p].Free? && p + tiles[p].size == h)
    ensures PrevNotFree(tiles, h)
  {
    forall a | a in tiles && tiles[a].Free?
      ensures !EndsAt(tiles, a, h)
    {
      assert Positive(tiles, a);
      assert p != 0 && a < p ==> Before(tiles, a, p) && Positive(tiles, p);
    }
  }

  // ---- Coalescing ----

  ghost predicate SameUsed(tiles: Tiles, tiles': Tiles) {
    UsedKept(tiles, tiles', 0) && UsedKept(tiles', tiles, 0)
  }

  /** The free blocks before h stay. */
  ghost predicate FreeKeptBefore(tiles: Tiles, tiles': Tiles, h: nat) {
    forall a {:trigger Kept(tiles, tiles', a)} :: a in tiles && tiles[a].Free? && a < h ==> Kept(tiles, tiles', a)
  }

  /** A block that is worked on absorbs the free block behind it. */
  function Absorb(tiles: Tiles, b: nat, c: nat): Tiles
    requires b in tiles && c in tiles
  {
    Join(tiles[c := Limbo(tiles[c].size, false)], b, c)
  }

  lemma AbsorbNext(tiles: Tiles, h: nat)
    requires Tiling(tiles) && Coalesced(tiles, 0) && SettledBut(tiles, h) && h in tiles && tiles[h].Limbo?
    requires var next := h + tiles[h].size; next in tiles && tiles[next].Free?
    ensures var next := h + tiles[h].size;
            var tiles' := Absorb(tiles, h, next);
            && SettledBut(tiles', h) && NextNotFree(tiles', h)
            && SameUsed(tiles, tiles') && FewerFree(tiles, tiles') && FreeKeptBefore(tiles, tiles', h)
            && (PrevNotFree(tiles, h) ==> PrevNotFree(tiles', h))
  {
    var next := h + tiles[h].size;
    var tiles' := Absorb(tiles, h, next);
    assert Positive(tiles, h) && Positive(tiles, next) && Alone(tiles, next, 0);
    if PrevNotFree(tiles, h) {
      forall a | a in tiles' && tiles'[a].Free?
        ensures !EndsAt(tiles', a, h)
      {
        assert !EndsAt(tiles, a, h);
      }
    }
  }

  /** A free block absorbs the block behind it, which is worked on. */
  function AbsorbedBy(tiles: Tiles, b: nat, c: nat): Tiles
    requires b in tiles && c in tiles
  {
    Join(tiles[b := Limbo(tiles[b].size, false)], b, c)
  }

  lemma AbsorbPrev(tiles: Tiles, p: nat, h: nat)
    requires Tiling(tiles) && Coalesced(tiles, 0) && SettledBut(tiles, h) && h in tiles && tiles[h].Limbo?
    requires p in tiles && tiles[p].Free? && p + tiles[p].size == h && NextNotFree(tiles, h)
    ensures var tiles' := AbsorbedBy(tiles, p, h);
            && SettledBut(tiles', p) && NextNotFree(tiles', p) && PrevNotFree(tiles', p)
            && SameUsed(tiles, tiles') && FewerFree(tiles, tiles')
  {
    var tiles' := AbsorbedBy(tiles, p, h);
    assert Positive(tiles, h) && Positive(tiles, p);
    forall a | a in tiles' && tiles'[a].Free?
      ensures !EndsAt(tiles', a, p)
    {
      assert Positive(tiles, a) && Alone(tiles, a, 0);
    }
  }

  lemma UsedAsBefore(tiles: Tiles, mid: Tiles, tiles': Tiles)
    requires SameUsed(tiles, mid) && SameUsed(mid, tiles')
    ensures SameUsed(tiles, tiles')
  {
    forall a | a in tiles && tiles[a].Used?
      ensures Kept(tiles, tiles', a)
    {
      assert Kept(tiles, mid, a);
      assert Kept(mid, tiles', a);
    }
    forall a | a in tiles' && tiles'[a].Used?
      ensures Kept(tiles', tiles, a)
    {
      assert Kept(tiles', mid, a);
      assert Kept(mid, tiles, a);
    }
  }

  lemma NoneBeside(tiles: Tiles, b: nat)
    requires b in tiles && NextNotFree(tiles, b) && PrevNotFree(tiles, b)
    ensures NoFreeNeighbour(tiles, b, 0)
  {
    forall a | a in tiles && tiles[a].Free?
      ensures a + tiles[a].size != b
    {
      assert !EndsAt(tiles, a, b);
    }
  }

  /** Block h was freed: taken out of use, coalesced, and added to a list as part of block b. */
  lemma UsedButFreed(tiles: Tiles, loose: Tiles, last: Tiles, tiles': Tiles, h: nat, b: nat)
    requires h in tiles && h != 0 && loose == tiles[h := Limbo(tiles[h].size, false)] && SameUsed(loose, last)
    requires b in last && last[b].Limbo? && SettledBut(last, b) && tiles' == last[b := Free(last[b].size)]
    ensures UsedKept(tiles, tiles', h) && UsedKept(tiles', tiles, 0) && SettledBut(tiles', 0)
    ensures h in tiles' ==> !tiles'[h].Used?
  {
    forall a | a in tiles && tiles[a].Used? && !(a == h != 0)
      ensures Kept(tiles, tiles', a)
    {
      assert Kept(loose, last, a);
    }
    forall a | a in tiles' && tiles'[a].Used?
      ensures Kept(tiles', tiles, a)
    {
      assert Kept(last, loose, a);
    }
    assert h in tiles' && tiles'[h].Used? ==> Kept(last, loose, h);
  }

  // ---- Splitting a block that is on a list ----

  /** The index after block at, with header hdr, has replaced block h, of which it was the end, on h's list. */
  function SplitIndex(index: Index, h: nat, at: nat, hdr: Hdr): Index
    requires h in index && index[h].Header? && h < at
    requires index[h].hdr.prev != 0 ==> index[h].hdr.prev in index && index[index[h].hdr.prev].Header?
    requires index[h].hdr.next != 0 ==> index[h].hdr.next in index && index[index[h].hdr.next].Header?
  {
    var was := index[h].hdr;
    var index1 := index[at := Header(hdr.(free := true, prev := was.prev, next := was.next))];
    var index2 := if was.prev != 0 then WithNext(index1, was.prev, at) else index1;
    var index3 := if was.next != 0 then WithPrev(index2, was.next, at) else index2;
    index3[h := Header(was.(sz := at - h))]
  }

  function Put(list: seq<nat>, j: nat, b: nat): seq<nat>
    requires j < |list|
  {
    list[j := b]
  }

  ghost function SplitTiles(tiles: Tiles, h: nat, at: nat): Tiles
    requires h in tiles && h <= at <= h + tiles[h].size
  {
    tiles[h := Limbo(at - h, false)][at := Free(h + tiles[h].size - at)]
  }

  /** Block at, inside block h at position j of list n, takes the place of h on the list, wrong as that list may
      be for its size; the part of h in front of it is left to be put on its own list. */
  lemma SplitSound(z: Sizes, index: Index, heads: seq<nat>, counts: seq<nat>, tiles: Tiles, lists: Lists,
                   heap: set<nat>, n: nat, j: nat, h: nat, at: nat, hdr: Hdr)
    requires Sound(z, index, heads, counts, tiles, lists, heap, 0, 0)
    requires n < |lists| && j < |lists[n]| && lists[n][j] == h && InTile(tiles, h, at) && h < at
    requires hdr.sz == h + tiles[h].size - at
    ensures h in index && index[h].Header? && n < |heads| && n < |counts| && counts[n] >= at - h
    ensures tiles[h].Free? && index[h].hdr.sz == tiles[h].size && at !in index && at != 0
    ensures var prev, next := index[h].hdr.prev, index[h].hdr.next;
            && (prev != 0 ==> prev in index && index[prev].Header?)
            && (next != 0 ==> next in index && index[next].Header?)
            && var index' := SplitIndex(index, h, at, hdr);
               && Sound(z, index', if prev == 0 then heads[n := at] else heads,
                        counts[n := counts[n] - (at - h)], SplitTiles(tiles, h, at), lists[n := Put(lists[n], j, at)],
                        heap, at, n)
               && h in index' && index'[h].Header? && index'[h].hdr.sz == at - h
    ensures Sum(counts[n := counts[n] - (at - h)]) == Sum(counts) - (at - h)
  {
    Unlink(z, index, heads, counts, tiles, lists, heap, 0, 0, n, j);
    assert LinkOk(index, lists[n], j) && HeadOk(heads, lists, n);
    SplitRejoin(z, index, heads, counts, tiles, lists, heap, n, j, h, at, hdr);
    NeighboursDiffer(tiles, index, heads, lists, n, j);
    HeaderTouched(z, SplitRelinked(index, h, at, hdr), if index[h].hdr.prev == 0 then heads[n := at] else heads,
                  counts[n := counts[n] - (at - h)], SplitTiles(tiles, h, at), lists[n := Put(lists[n], j, at)], heap,
                  at, n, h, index[h].hdr.(sz := at - h));
    SplitLinks(index, h, at, hdr);
    SumChange(counts, n, counts[n] - (at - h));
  }

  lemma SplitRejoin(z: Sizes, index: Index, heads: seq<nat>, counts: seq<nat>, tiles: Tiles, lists: Lists,
                    heap: set<nat>, n: nat, j: nat, h: nat, at: nat, hdr: Hdr)
    requires n < |lists| && j < |lists[n]| && lists[n][j] == h && InTile(tiles, h, at) && h < at
    requires hdr.sz == h + tiles[h].size - at && h in index && index[h].Header?
    requires n < |counts| && n < |heads| && counts[n] >= tiles[h].size && LinkOk(index, lists[n], j)
    requires HeadOk(heads, lists, n)
    requires var prev, next := index[h].hdr.prev, index[h].hdr.next;
             && (prev != 0 ==> prev in index && index[prev].Header?)
             && (next != 0 ==> next in index && index[next].Header?)
             && Sound(z, Unlinked(index, prev, next), if prev == 0 then heads[n := next] else heads,
                      counts[n := counts[n] - tiles[h].size], tiles[h := Limbo(tiles[h].size, false)],
                      lists[n := Without(lists[n], j)], heap, 0, 0)
    ensures at !in index && at != 0
    ensures Sound(z, SplitRelinked(index, h, at, hdr), if index[h].hdr.prev == 0 then heads[n := at] else heads,
                  counts[n := counts[n] - (at - h)], SplitTiles(tiles, h, at), lists[n := Put(lists[n], j, at)],
                  heap, at, n)
  {
    var prev, next, k, size := index[h].hdr.prev, index[h].hdr.next, at - h, tiles[h].size;
    var index1, heads1 := Unlinked(index, prev, next), if prev == 0 then heads[n := next] else heads;
    var counts1, tiles1 := counts[n := counts[n] - size], tiles[h := Limbo(size, false)];
    var lists1 := lists[n := Without(lists[n], j)];
    CutSound(z, index1, heads1, counts1, tiles1, lists1, heap, 0, 0, h, k, hdr);
    var tiles2 := Cut(tiles1, h, k);
    assert tiles2 == tiles[h := Limbo(k, false)][at := Limbo(size - k, false)];
    var index2 := index1[at := Header(hdr)];
    Insert(z, index2, heads1, counts1, tiles2, lists1, heap, 0, 0, at, n, n, j, at, hdr);
    Replaced(lists[n], j, at);
    assert lists1[n := With(lists1[n], j, at)] == lists[n := Put(lists[n], j, at)];
    assert tiles2[at := Free(hdr.sz)] == SplitTiles(tiles, h, at);
    assert counts1[n := counts1[n] + hdr.sz] == counts[n := counts[n] - k];
    var heads3 := if prev == 0 then heads[n := at] else heads;
    assert (if j == 0 then heads1[n := at] else heads1) == heads3;
  }

  /** Block at linked in the place of h, which has been unlinked. */
  function SplitRelinked(index: Index, h: nat, at: nat, hdr: Hdr): Index
    requires h in index && index[h].Header?
    requires index[h].hdr.prev != 0 ==> index[h].hdr.prev in index && index[index[h].hdr.prev].Header?
    requires index[h].hdr.next != 0 ==> index[h].hdr.next in index && index[index[h].hdr.next].Header?
  {
    var prev, next := index[h].hdr.prev, index[h].hdr.next;
    Relinked(Unlinked(index, prev, next)[at := Header(hdr)], at, hdr, prev, next)
  }

  lemma NeighboursDiffer(tiles: Tiles, index: Index, heads: seq<nat>, lists: Lists, n: nat, j: nat)
    requires Tiling(tiles) && FiledAll(tiles, lists, 0, 0) && Linked(index, heads, lists)
    requires n < |lists| && j < |lists[n]|
    ensures var h := lists[n][j];
            && h in index && index[h].Header?
            && index[h].hdr.prev != h && index[h].hdr.next != h
            && (index[h].hdr.prev != 0 ==> index[h].hdr.prev != index[h].hdr.next)
  {
    UnlinkNeighbours(tiles, index, heads, lists, 0, 0, n, j);
    assert ListedOk(tiles, lists, 0, 0, n, j) && Positive(tiles, lists[n][j]);
    if j > 0 {
      EntriesDiffer(tiles, lists, 0, 0, n, j - 1, j);
    }
    if j + 1 < |lists[n]| {
      EntriesDiffer(tiles, lists, 0, 0, n, j, j + 1);
    }
    if 0 < j < |lists[n]| - 1 {
      EntriesDiffer(tiles, lists, 0, 0, n, j - 1, j + 1);
    }
  }

  /** Unlinking h and linking at in its place. */
  lemma SplitLinks(index: Index, h: nat, at: nat, hdr: Hdr)
    requires h in index && index[h].Header? && h < at && at !in index
    requires var prev, next := index[h].hdr.prev, index[h].hdr.next;
             && (prev != 0 ==> prev in index && index[prev].Header? && prev != h && prev != next)
             && (next != 0 ==> next in index && index[next].Header? && next != h)
    ensures var prev, next := index[h].hdr.prev, index[h].hdr.next;
            SplitRelinked(index, h, at, hdr)[h := Header(index[h].hdr.(sz := at - h))] == SplitIndex(index, h, at, hdr)
  {
  }

  lemma Replaced(list: seq<nat>, j: nat, b: nat)
    requires j < |list|
    ensures |Without(list, j)| == |list| - 1 && With(Without(list, j), j, b) == Put(list, j, b)
    ensures At(Without(list, j), j - 1) == At(list, j - 1) && At(Without(list, j), j) == At(list, j + 1)
  {
  }

  lemma SplitNeighbours(tiles: Tiles, h: nat, at: nat)
    requires Tiling(tiles) && Coalesced(tiles, 0) && InTile(tiles, h, at) && h < at && tiles[h].Free?
    ensures NoFreeNeighbour(SplitTiles(tiles, h, at), h, at) && NextNotFree(SplitTiles(tiles, h, at), at)
  {
    var tiles' := SplitTiles(tiles, h, at);
    assert Positive(tiles, h) && Alone(tiles, h, 0);
    forall a | a in tiles' && tiles'[a].Free? && a != at
      ensures a + tiles'[a].size != h
    {
      assert Positive(tiles, a) && Alone(tiles, a, 0);
    }
  }

  /** The rest of a block whose front is being allocated has no free neighbours. */
  lemma RestNeighbours(tiles: Tiles, h: nat, k: nat)
    requires Tiling(tiles) && h in tiles && tiles[h].Limbo? && NextNotFree(tiles, h) && 0 < k < tiles[h].size
    ensures NoFreeNeighbour(Cut(tiles, h, k), h + k, 0)
  {
    var tiles' := Cut(tiles, h, k);
    forall a | a in tiles' && tiles'[a].Free? && a != 0
      ensures a + tiles'[a].size != h + k
    {
      assert Positive(tiles, a) && (a < h ==> Before(tiles, a, h)) && (h < a ==> Before(tiles, h, a));
    }
  }

  /** Part of free block b of tiles, k blocks at h, is now being worked on; the rest of b is free. */
  ghost predicate TakenFrom(tiles: Tiles, tiles': Tiles, b: nat, h: nat, k: nat) {
    && b in tiles && tiles[b].Free? && b <= h && h + k <= b + tiles[b].size
    && h in tiles' && tiles'[h] == Limbo(k, false)
    && SettledBut(tiles', h) && SameUsed(tiles, tiles')
  }

  lemma TookFront(tiles: Tiles, tiles': Tiles, h: nat, k: nat)
    requires Tiling(tiles) && h in tiles && tiles[h].Free? && SettledBut(tiles, 0) && 0 < k <= tiles[h].size
    requires var taken := tiles[h := Limbo(tiles[h].size, false)];
             tiles' == if k == tiles[h].size then taken else Cut(taken, h, k)[h + k := Free(tiles[h].size - k)]
    ensures TakenFrom(tiles, tiles', h, h, k)
  {
    assert Positive(tiles, h);
    if k < tiles[h].size {
      assert h + k !in tiles by {
        assert h + k in tiles ==> Before(tiles, h, h + k);
      }
    }
    forall a | a in tiles' && a != h
      ensures !tiles'[a].Limbo?
    {
      assert a in tiles ==> Positive(tiles, a);
    }
  }

  lemma TookMiddle(tiles: Tiles, mid: Tiles, tiles': Tiles, b: nat, h: nat, k: nat)
    requires Tiling(tiles) && InTile(tiles, b, h) && b < h && tiles[b].Free? && SettledBut(tiles, 0)
    requires mid == tiles[b := Free(h - b)][h := Free(b + tiles[b].size - h)]
    requires TakenFrom(mid, tiles', h, h, k)
    ensures TakenFrom(tiles, tiles', b, h, k)
  {
    assert h in tiles ==> Before(tiles, b, h);
    assert SameUsed(tiles, mid);
    UsedAsBefore(tiles, mid, tiles');
  }

  lemma NoException(tiles: Tiles, lists: Lists, n: nat)
    requires Tiling(tiles) && FiledAll(tiles, lists, 0, n)
    ensures FiledAll(tiles, lists, 0, 0)
  {
    forall k, l | 0 <= k < |lists| && 0 <= l < |lists[k]|
      ensures ListedOk(tiles, lists, 0, 0, k, l)
    {
      assert ListedOk(tiles, lists, 0, n, k, l) && Positive(tiles, lists[k][l]);
    }
    forall c | c in tiles && tiles[c].Free?
      ensures Filed(tiles, lists, 0, 0, c)
    {
      assert Filed(tiles, lists, 0, n, c) && Positive(tiles, c);
    }
  }

  /** Blocks lo up to hi have become one-block used tiles. */
  ghost predicate AllUsed(tiles: Tiles, lo: nat, hi: nat) {
    forall a {:trigger Single(tiles, a)} :: lo <= a < hi ==> Single(tiles, a)
  }

  ghost predicate Single(tiles: Tiles, a: nat) {
    a in tiles && tiles[a] == Used(1)
  }

  /** One step of dropping a block: the front of what is left of it becomes a used block. */
  lemma DropStep(z: Sizes, index: Index, heads: seq<nat>, counts: seq<nat>, tiles: Tiles, lists: Lists,
                 heap: set<nat>, b: nat, hdr: Hdr)
    requires Sound(z, index, heads, counts, tiles, lists, heap, 0, 0)
    requires b in tiles && tiles[b].Limbo? && !tiles[b].counted && tiles[b].size > 1
    requires b in index && index[b].Header? && !index[b].hdr.free && z.Blocks(index[b].hdr.sz) == 1
    ensures b + 1 !in tiles
    ensures Sound(z, index[b + 1 := Header(hdr)], heads, counts,
                  tiles[b := Used(1)][b + 1 := Limbo(tiles[b].size - 1, false)], lists, heap, 0, 0)
  {
    CutSound(z, index, heads, counts, tiles, lists, heap, 0, 0, b, 1, hdr);
    var index1, tiles1 := index[b + 1 := Header(hdr)], Cut(tiles, b, 1);
    HeaderSet(z, index1, heads, counts, tiles1, lists, heap, 0, 0, b, index[b].hdr);
    assert index1[b := Header(index[b].hdr)] == index1;
    assert tiles1[b := Used(1)] == tiles[b := Used(1)][b + 1 := Limbo(tiles[b].size - 1, false)];
  }

  lemma DropLast(z: Sizes, index: Index, heads: seq<nat>, counts: seq<nat>, tiles: Tiles, lists: Lists,
                 heap: set<nat>, b: nat)
    requires Sound(z, index, heads, counts, tiles, lists, heap, 0, 0)
    requires b in tiles && tiles[b] == Limbo(1, false)
    requires b in index && index[b].Header? && !index[b].hdr.free && z.Blocks(index[b].hdr.sz) == 1
    ensures Sound(z, index, heads, counts, tiles[b := Used(1)], lists, heap, 0, 0)
  {
    HeaderSet(z, index, heads, counts, tiles, lists, heap, 0, 0, b, index[b].hdr);
    assert index[b := Header(index[b].hdr)] == index;
  }

  /** OBJ_SZ_TO_BLOCKS inverts the multiplication by the words in a block. */
  lemma BlocksOfWords(z: Sizes, blocks: nat)
    requires z.Sensible()
    ensures z.Blocks(Mul(blocks, z.wordsPerBlock)) == blocks
  {
    Quotient(blocks, z.wordsPerBlock - 1, z.wordsPerBlock);
  }

  /** It gives just enough blocks. */
  lemma SomeBlocks(z: Sizes, words: nat)
    requires z.Sensible()
    ensures words <= Mul(z.Blocks(words), z.wordsPerBlock) < words + z.wordsPerBlock
    ensures words >= 1 ==> z.Blocks(words) >= 1
  {
    DivMod(words + z.wordsPerBlock - 1, z.wordsPerBlock);
  }

  lemma {:induction false} SumBound(counts: seq<nat>, i: nat)
    requires i < |counts|
    ensures counts[i] <= Sum(counts)
  {
    if i > 0 {
      SumBound(counts[1..], i - 1);
    }
  }

  /** The used blocks of tiles' outside a range are used in tiles. */
  ghost predicate OnlyPieces(tiles: Tiles, tiles': Tiles, lo: nat, hi: nat) {
    forall a {:trigger Kept(tiles', tiles, a)} ::
      a in tiles' && tiles'[a].Used? && !(lo <= a < hi) ==> Kept(tiles', tiles, a)
  }

  /** Block h of tiles has been broken into one-block pieces up to block b. */
  ghost predicate Breaking(tiles: Tiles, tiles': Tiles, h: nat, b: nat, total: nat)
    requires b <= h + total
  {
    forall a {:trigger BrokenAt(tiles, tiles', h, b, total, a)} :: BrokenAt(tiles, tiles', h, b, total, a)
  }

  ghost predicate BrokenAt(tiles: Tiles, tiles': Tiles, h: nat, b: nat, total: nat, a: nat)
    requires b <= h + total
  {
    && (a in tiles' <==> a in tiles || h <= a <= b)
    && (a in tiles' ==> tiles'[a] == if h <= a < b then Used(1)
                                    else if a == b then Limbo(h + total - b, false) else tiles[a])
  }

  /** What is left of the block, and how the tiling goes on from it. */
  lemma BreakingStep(tiles: Tiles, mid: Tiles, h: nat, b: nat, total: nat)
    requires h <= b < h + total && Breaking(tiles, mid, h, b, total)
    ensures b in mid && mid[b] == Limbo(h + total - b, false)
    ensures b + 1 < h + total ==>
              Breaking(tiles, mid[b := Used(1)][b + 1 := Limbo(mid[b].size - 1, false)], h, b + 1, total)
  {
    assert BrokenAt(tiles, mid, h, b, total, b);
    if b + 1 < h + total {
      var tiles' := mid[b := Used(1)][b + 1 := Limbo(mid[b].size - 1, false)];
      var next := b + 1;
      forall a
        ensures BrokenAt(tiles, tiles', h, next, total, a)
      {
        assert BrokenAt(tiles, mid, h, b, total, a);
      }
    }
  }

  lemma Broken(tiles: Tiles, tiles': Tiles, h: nat, total: nat)
    requires Tiling(tiles) && h in tiles && tiles[h] == Limbo(total, false) && SettledBut(tiles, h)
    requires total >= 1 && Breaking(tiles, tiles', h, h + total - 1, total)
    ensures var done := tiles'[h + total - 1 := Used(1)];
            && SettledBut(done, 0) && AllUsed(done, h, h + total) && UsedKept(tiles, done, 0) && FewerFree(tiles, done)
            && OnlyPieces(tiles, done, h, h + total)
  {
    var done := tiles'[h + total - 1 := Used(1)];
    assert Positive(tiles, h);
    forall a: nat
      ensures (a in done <==> a in tiles || h <= a < h + total)
      ensures a in done ==> done[a] == if h <= a < h + total then Used(1) else tiles[a]
    {
      assert BrokenAt(tiles, tiles', h, h + total - 1, total, a);
    }
    forall a | a in tiles && tiles[a].Used?
      ensures Kept(tiles, done, a)
    {
      assert h < a ==> Before(tiles, h, a);
    }
  }

  /** A free block is taken off its list and changed, with whatever else is not in use. */
  lemma KeptWhenDropped(tiles: Tiles, tiles': Tiles, h: nat)
    requires h in tiles && tiles[h].Free?
    requires var mid := tiles[h := Limbo(tiles[h].size, false)];
             && UsedKept(mid, tiles', 0) && FewerFree(mid, tiles')
             && OnlyPieces(mid, tiles', h, h + tiles[h].size)
    ensures UsedKept(tiles, tiles', 0) && FewerFree(tiles, tiles') && OnlyPieces(tiles, tiles', h, h + tiles[h].size)
  {
    var mid := tiles[h := Limbo(tiles[h].size, false)];
    forall a | a in tiles && tiles[a].Used?
      ensures Kept(tiles, tiles', a)
    {
      assert Kept(mid, tiles', a);
    }
    forall a | a in tiles' && tiles'[a].Free?
      ensures Kept(tiles, tiles', a)
    {
      assert Kept(mid, tiles', a);
    }
    forall a | a in tiles' && tiles'[a].Used? && !(h <= a < h + tiles[h].size)
      ensures Kept(tiles', tiles, a)
    {
      assert Kept(tiles', mid, a);
    }
  }

  /** A block that was taken from free blocks becomes a used one. */
  lemma TookForUse(tiles: Tiles, mid: Tiles, b: nat, h: nat, k: nat)
    requires Tiling(tiles) && TakenFrom(tiles, mid, b, h, k) && h != 0
    ensures UsedKept(tiles, mid[h := Used(k)], 0) && UsedKept(mid[h := Used(k)], tiles, h)
    ensures SettledBut(mid[h := Used(k)], 0)
  {
    var tiles' := mid[h := Used(k)];
    forall a | a in tiles && tiles[a].Used?
      ensures Kept(tiles, tiles', a)
    {
      assert Kept(tiles, mid, a);
    }
    forall a | a in tiles' && tiles'[a].Used? && a != h
      ensures Kept(tiles', tiles, a)
    {
      assert Kept(mid, tiles, a);
    }
  }

  lemma FewerAndFewer(tiles: Tiles, mid: Tiles, tiles': Tiles)
    requires FewerFree(tiles, mid) && FewerFree(mid, tiles')
    ensures FewerFree(tiles, tiles')
  {
    forall a | a in tiles' && tiles'[a].Free?
      ensures Kept(tiles, tiles', a)
    {
      assert Kept(mid, tiles', a) && Kept(tiles, mid, a);
    }
  }

  lemma GrownUsed(tiles: Tiles, mid: Tiles, tiles': Tiles, p: nat, size: nat)
    requires p !in tiles && mid == tiles[p := Limbo(size, false)] && p != 0
    requires UsedKept(mid, tiles', p) && UsedKept(tiles', mid, 0)
    ensures SameUsed(tiles, tiles')
  {
    forall a | a in tiles && tiles[a].Used?
      ensures Kept(tiles, tiles', a)
    {
      assert Kept(mid, tiles', a);
    }
    forall a | a in tiles' && tiles'[a].Used?
      ensures Kept(tiles', tiles, a)
    {
      assert Kept(tiles', mid, a);
    }
  }

  // ---- What is free and what is used ----

  /** If the tilings use the same blocks, except that tiles also uses h, the cells in use differ by those of h. */
  lemma CellsOfUse(tiles: Tiles, tiles': Tiles, heap: set<nat>, h: nat)
    requires Tiling(tiles) && Tiling(tiles') && Covers(tiles, heap) && Covers(tiles', heap)
    requires h in tiles && tiles[h].Used? && (h in tiles' ==> !tiles'[h].Used?) && h != 0
    requires UsedKept(tiles, tiles', h) && UsedKept(tiles', tiles, 0)
    ensures UsedCells(tiles', heap) == UsedCells(tiles, heap) - Interval(h, tiles[h].size)
    ensures Interval(h, tiles[h].size) <= UsedCells(tiles, heap)
  {
    forall a | a in heap
      ensures IsUsed(tiles', a) <==> IsUsed(tiles, a) && a !in Interval(h, tiles[h].size)
    {
      assert InTile(tiles, h, a) <==> Between(h, a, h + tiles[h].size);
      if IsUsed(tiles', a) {
        var t :| InTile(tiles', t, a) && tiles'[t].Used?;
        assert Kept(tiles', tiles, t) && InTile(tiles, t, a);
        if a in Interval(h, tiles[h].size) {
          OneTile(tiles, t, h, a);
        }
      }
      if IsUsed(tiles, a) && a !in Interval(h, tiles[h].size) {
        var t :| InTile(tiles, t, a) && tiles[t].Used?;
        assert Kept(tiles, tiles', t) && InTile(tiles', t, a);
      }
    }
    forall a | a in Interval(h, tiles[h].size)
      ensures a in UsedCells(tiles, heap)
    {
      assert InTile(tiles, h, a);
    }
  }

  ghost predicate Distinct(list: seq<nat>) {
    forall i, j :: 0 <= i < j < |list| ==> list[i] != list[j]
  }

  ghost function CellsOf(tiles: Tiles, list: seq<nat>): set<nat>
    requires AllIn(tiles, list)
  {
    if list == [] then {} else Interval(list[0], tiles[list[0]].size) + CellsOf(tiles, list[1..])
  }

  lemma {:induction false} CellsOfTotal(tiles: Tiles, list: seq<nat>)
    requires Tiling(tiles) && AllIn(tiles, list) && Distinct(list)
    ensures |CellsOf(tiles, list)| == Total(tiles, list)
    ensures forall a :: a in CellsOf(tiles, list) <==> exists k :: 0 <= k < |list| && InTile(tiles, list[k], a)
  {
    if list != [] {
      var rest := list[1..];
      CellsOfTotal(tiles, rest);
      IntervalSize(list[0], tiles[list[0]].size);
      forall a | a in Interval(list[0], tiles[list[0]].size)
        ensures a !in CellsOf(tiles, rest)
      {
        if a in CellsOf(tiles, rest) {
          var k :| 0 <= k < |rest| && InTile(tiles, rest[k], a);
          OneTile(tiles, list[0], list[k + 1], a);
        }
      }
      forall a
        ensures a in CellsOf(tiles, list) <==> exists k :: 0 <= k < |list| && InTile(tiles, list[k], a)
      {
        if a in CellsOf(tiles, rest) {
          var k :| 0 <= k < |rest| && InTile(tiles, rest[k], a);
          assert InTile(tiles, list[k + 1], a);
        }
        if a in Interval(list[0], tiles[list[0]].size) {
          assert InTile(tiles, list[0], a);
        }
        if k :| 0 <= k < |list| && InTile(tiles, list[k], a) {
          if k == 0 {
            assert Between(list[0], a, list[0] + tiles[list[0]].size);
          } else {
            assert InTile(tiles, rest[k - 1], a);
          }
        }
      }
    }
  }

  /** The sizes of the blocks in use, each counted once, add up to the blocks in use. */
  lemma UsedTotal(tiles: Tiles, heap: set<nat>, used: seq<nat>)
    requires Tiling(tiles) && Covers(tiles, heap) && AllIn(tiles, used) && Distinct(used)
    requires forall t :: t in used <==> t in tiles && tiles[t].Used?
    ensures Total(tiles, used) == |UsedCells(tiles, heap)|
  {
    CellsOfTotal(tiles, used);
    forall a
      ensures a in CellsOf(tiles, used) <==> a in UsedCells(tiles, heap)
    {
      if k :| 0 <= k < |used| && InTile(tiles, used[k], a) {
        assert used[k] in used && a in heap;
      }
      if a in UsedCells(tiles, heap) {
        var t :| InTile(tiles, t, a) && tiles[t].Used?;
        assert t in used;
        var k :| 0 <= k < |used| && used[k] == t;
      }
    }
    assert CellsOf(tiles, used) == UsedCells(tiles, heap);
  }
}
