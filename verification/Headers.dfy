/** The two-level index of block headers (boehmgc/src/headers.c): bottom indices for runs of blocks, found by key
    through a top-level table and chained in ascending order of their keys. */
module Headers {
  import opened Arithmetic
  import opened HeapMap

  datatype Link = Nil | To(key: nat)

  datatype Cell = Empty | Filled(slot: Slot)

  /** A bottom index; its own key is the one it is found by. */
  datatype Bottom = Bottom(cells: seq<Cell>, asc: Link, desc: Link)

  function LinkAt(keys: seq<nat>, i: int): Link {
    if 0 <= i < |keys| then To(keys[i]) else Nil
  }

  /** The chain of bottom indices: ascending keys, linked both ways. */
  ghost predicate Chained(bottoms: map<nat, Bottom>, keys: seq<nat>, first: Link, last: Link) {
    && (forall i, j {:trigger Less(keys, i, j)} :: 0 <= i < j < |keys| ==> Less(keys, i, j))
    && (forall k {:trigger Listed(keys, k)} :: k in bottoms ==> Listed(keys, k))
    && (forall i {:trigger ChainedAt(bottoms, keys, i)} :: 0 <= i < |keys| ==> ChainedAt(bottoms, keys, i))
    && first == LinkAt(keys, 0) && last == LinkAt(keys, |keys| - 1)
  }

  ghost predicate Less(keys: seq<nat>, i: nat, j: nat)
    requires i < |keys| && j < |keys|
  {
    keys[i] < keys[j]
  }

  ghost predicate Listed(keys: seq<nat>, k: nat) {
    exists i :: 0 <= i < |keys| && keys[i] == k
  }

  ghost predicate ChainedAt(bottoms: map<nat, Bottom>, keys: seq<nat>, i: nat)
    requires i < |keys|
  {
    && keys[i] in bottoms
    && bottoms[keys[i]].asc == LinkAt(keys, i + 1) && bottoms[keys[i]].desc == LinkAt(keys, i - 1)
  }

  /** The chain after bottom index hi has been put in at place i. */
  function Chain(bottoms: map<nat, Bottom>, hi: nat, added: Bottom): map<nat, Bottom>
    requires added.desc.To? ==> added.desc.key in bottoms
    requires added.asc.To? ==> added.asc.key in bottoms
  {
    var b1 := if added.asc.To? then bottoms[added.asc.key := bottoms[added.asc.key].(desc := To(hi))] else bottoms;
    var b2 := if added.desc.To? then b1[added.desc.key := b1[added.desc.key].(asc := To(hi))] else b1;
    b2[hi := added]
  }

  function Inserted(keys: seq<nat>, i: nat, hi: nat): seq<nat>
    requires i <= |keys|
  {
    keys[..i] + [hi] + keys[i..]
  }

  lemma ChainInsert(bottoms: map<nat, Bottom>, keys: seq<nat>, first: Link, last: Link, i: nat, hi: nat,
                    cells: seq<Cell>)
    requires Chained(bottoms, keys, first, last) && hi !in bottoms && i <= |keys|
    requires (forall j :: 0 <= j < i ==> keys[j] < hi) && (i < |keys| ==> hi < keys[i])
    ensures i > 0 ==> keys[i-1] in bottoms
    ensures i < |keys| ==> keys[i] in bottoms
    ensures var added := Bottom(cells, LinkAt(keys, i), LinkAt(keys, i - 1));
            && Chained(Chain(bottoms, hi, added), Inserted(keys, i, hi),
                       if i == 0 then To(hi) else first, if i == |keys| then To(hi) else last)
            && forall k :: k in bottoms ==>
              k in Chain(bottoms, hi, added) && Chain(bottoms, hi, added)[k].cells == bottoms[k].cells
  {
    if i > 0 {
      assert ChainedAt(bottoms, keys, i - 1);
    }
    if i < |keys| {
      assert ChainedAt(bottoms, keys, i);
    }
    var added := Bottom(cells, LinkAt(keys, i), LinkAt(keys, i - 1));
    var bottoms', keys' := Chain(bottoms, hi, added), Inserted(keys, i, hi);
    assert 0 < i < |keys| ==> Less(keys, i - 1, i);
    forall j | 0 <= j < |keys'|
      ensures ChainedAt(bottoms', keys', j)
    {
      if j != i {
        ChainLink(bottoms, keys, i, hi, added, if j < i then j else j - 1);
      }
    }
    forall j, l | 0 <= j < l < |keys'|
      ensures Less(keys', j, l)
    {
      InsertedLess(keys, i, hi, j, l);
    }
    forall k | k in bottoms'
      ensures Listed(keys', k)
    {
      assert keys'[i] == hi;
      if k != hi {
        assert Listed(keys, k);
        var j :| 0 <= j < |keys| && keys[j] == k;
        assert keys'[if j < i then j else j + 1] == k;
      }
    }
  }

  lemma InsertedLess(keys: seq<nat>, i: nat, hi: nat, j: nat, l: nat)
    requires i <= |keys| && j < l <= |keys|
    requires forall i, j {:trigger Less(keys, i, j)} :: 0 <= i < j < |keys| ==> Less(keys, i, j)
    requires (forall j :: 0 <= j < i ==> keys[j] < hi) && (i < |keys| ==> hi < keys[i])
    ensures Less(Inserted(keys, i, hi), j, l)
  {
    var j0, l0 := if j < i then j else j - 1, if l < i then l else l - 1;
    if j != i && l != i {
      assert Less(keys, j0, l0);
    } else if j == i && l0 != i {
      assert Less(keys, i, l0);
    }
  }

  lemma ChainLink(bottoms: map<nat, Bottom>, keys: seq<nat>, i: nat, hi: nat, added: Bottom, j: nat)
    requires i <= |keys| && j < |keys| && ChainedAt(bottoms, keys, j) && hi !in bottoms
    requires added.asc == LinkAt(keys, i) && added.desc == LinkAt(keys, i - 1)
    requires (i > 0 ==> keys[i-1] in bottoms) && (i < |keys| ==> keys[i] in bottoms)
    requires forall i, j {:trigger Less(keys, i, j)} :: 0 <= i < j < |keys| ==> Less(keys, i, j)
    ensures ChainedAt(Chain(bottoms, hi, added), Inserted(keys, i, hi), if j < i then j else j + 1)
  {
    if i < |keys| {
      assert (j < i ==> Less(keys, j, i)) && (i < j ==> Less(keys, i, j));
    }
    if i > 0 {
      assert (j < i - 1 ==> Less(keys, j, i - 1)) && (i - 1 < j ==> Less(keys, i - 1, j));
    }
  }

  class HeaderIndex {
    const bottomSize: nat                  // BOTTOM_SZ
    const z: Sizes
    var bottoms: map<nat, Bottom>          // GC_top_index
    var first: Link                        // GC_all_bottom_indices
    var last: Link                         // GC_all_bottom_indices_end
    ghost var keys: seq<nat>

    ghost predicate Valid()
      reads this
    {
      && bottomSize >= 1 && z.Sensible()
      && Chained(bottoms, keys, first, last) && Sized(bottoms)
    }

    ghost predicate Sized(bottoms: map<nat, Bottom>) {
      forall k :: k in bottoms ==> |bottoms[k].cells| == bottomSize
    }

    function Key(a: nat): (k: nat)
      requires bottomSize >= 1
    {
      Div(a, bottomSize)
    }

    function Offset(a: nat): (j: nat)
      requires bottomSize >= 1
      ensures j < bottomSize
    {
      DivMod(a, bottomSize);
      Mod(a, bottomSize)
    }

    /** What the index says of block a (HDR). */
    function Get(bottoms: map<nat, Bottom>, a: nat): Cell
      requires bottomSize >= 1 && Sized(bottoms)
    {
      if Key(a) in bottoms then bottoms[Key(a)].cells[Offset(a)] else Empty
    }

    /** An index that knows no block. */
    constructor (bottomSize: nat, z: Sizes)
      requires bottomSize >= 1 && z.Sensible()
      ensures Valid() && forall a :: Get(bottoms, a) == Empty
      ensures this.bottomSize == bottomSize && this.z == z
    {
      this.bottomSize, this.z, bottoms, first, last, keys := bottomSize, z, map[], Nil, Nil, [];
    }

    /** get_index, by key. */
    method GetIndex(hi: nat)
      requires Valid()
      modifies this`bottoms, this`first, this`last, this`keys
      ensures Valid() && bottoms.Keys == old(bottoms).Keys + {hi}
      ensures forall a :: Get(bottoms, a) == Get(old(bottoms), a)
    {
      if hi in bottoms {
        return;
      }
      var p, pi := first, Nil;
      ghost var i := 0;
      while p.To? && p.key < hi
        invariant 0 <= i <= |keys| && p == LinkAt(keys, i) && pi == LinkAt(keys, i - 1)
        invariant forall j :: 0 <= j < i ==> keys[j] < hi
        decreases |keys| - i
      {
        assert ChainedAt(bottoms, keys, i);
        pi := p;
        p := bottoms[p.key].asc;
        i := i + 1;
      }
      assert i < |keys| ==> ChainedAt(bottoms, keys, i);
      var cells := seq(bottomSize, _ => Empty);
      ChainInsert(bottoms, keys, first, last, i, hi, cells);
      var added := Bottom(cells, p, pi);
      if p.Nil? {
        last := To(hi);
      } else {
        bottoms := bottoms[p.key := bottoms[p.key].(desc := To(hi))];
      }
      if pi.Nil? {
        first := To(hi);
      } else {
        bottoms := bottoms[pi.key := bottoms[pi.key].(asc := To(hi))];
      }
      bottoms := bottoms[hi := added];
      keys := Inserted(keys, i, hi);
    }

    /** SET_HDR, for a block whose bottom index is there. */
    method Set(a: nat, c: Cell)
      requires Valid() && Key(a) in bottoms
      modifies this`bottoms
      ensures Valid() && bottoms.Keys == old(bottoms).Keys
      ensures forall b :: Get(bottoms, b) == if b == a then c else Get(old(bottoms), b)
    {
      bottoms := bottoms[Key(a) := bottoms[Key(a)].(cells := bottoms[Key(a)].cells[Offset(a) := c])];
      forall i | 0 <= i < |keys|
        ensures ChainedAt(bottoms, keys, i)
      {
        assert ChainedAt(old(bottoms), keys, i);
      }
      forall b | Key(b) == Key(a) && Offset(b) == Offset(a)
        ensures b == a
      {
        PartsOf(a);
        PartsOf(b);
      }
    }

    // ---- Blocks and places in bottom indices ----

    function Addr(k: nat, j: int): int {
      Mul(k, bottomSize) + j
    }

    lemma PartsOf(a: nat)
      requires bottomSize >= 1
      ensures Addr(Key(a), Offset(a)) == a
    {
      DivMod(a, bottomSize);
    }

    lemma AddrParts(k: nat, j: nat)
      requires j < bottomSize
      ensures Key(Addr(k, j)) == k && Offset(Addr(k, j)) == j
    {
      Quotient(k, j, bottomSize);
    }

    lemma AddrLess(k: nat, j: nat, l: nat, i: nat)
      requires k < l && j < bottomSize
      ensures Addr(k, j) < Addr(l, 0) <= Addr(l, i)
    {
      MulMore(k, l, bottomSize);
    }

    /** The index shows the same as a map from block numbers. */
    ghost predicate Shows(bottoms: map<nat, Bottom>, index: Index) {
      && bottomSize >= 1 && Sized(bottoms)
      && forall a {:trigger ShowsAt(bottoms, index, a)} :: ShowsAt(bottoms, index, a)
    }

    ghost predicate ShowsAt(bottoms: map<nat, Bottom>, index: Index, a: nat)
      requires bottomSize >= 1 && Sized(bottoms)
    {
      Get(bottoms, a) == if a in index then Filled(index[a]) else Empty
    }

    /** It shows a map that agrees with a tiling of free and used blocks. */
    ghost predicate Agrees(index: Index, tiles: Tiles)
      reads this
    {
      Valid() && Shows(bottoms, index) && Tiling(tiles) && Indexed(z, index, tiles) && SettledBut(tiles, 0)
    }

    lemma ShowsSame(bottoms: map<nat, Bottom>, bottoms': map<nat, Bottom>, index: Index)
      requires Shows(bottoms, index) && Sized(bottoms')
      requires forall a :: Get(bottoms', a) == Get(bottoms, a)
      ensures Shows(bottoms', index)
    {
      forall a
        ensures ShowsAt(bottoms', index, a)
      {
        assert ShowsAt(bottoms, index, a);
      }
    }

    lemma ShowsChanged(bottoms: map<nat, Bottom>, bottoms': map<nat, Bottom>, index: Index, index': Index, h: nat,
                       c: Cell)
      requires Shows(bottoms, index) && Sized(bottoms')
      requires forall a :: Get(bottoms', a) == if a == h then c else Get(bottoms, a)
      requires index' == if c.Filled? then index[h := c.slot] else index - {h}
      ensures Shows(bottoms', index')
    {
      forall a
        ensures ShowsAt(bottoms', index', a)
      {
        assert ShowsAt(bottoms, index, a);
      }
    }

    // ---- Changes ----

    /** GC_install_header. */
    method InstallHeader(h: nat, hdr: Hdr, ghost index: Index)
      requires Valid() && Shows(bottoms, index)
      modifies this`bottoms, this`first, this`last, this`keys
      ensures Valid() && Shows(bottoms, index[h := Header(hdr)])
    {
      GetIndex(Key(h));
      ShowsSame(old(bottoms), bottoms, index);
      ghost var mid := bottoms;
      Set(h, Filled(Header(hdr)));
      ShowsChanged(mid, bottoms, index, index[h := Header(hdr)], h, Filled(Header(hdr)));
    }

    lemma Present(bottoms: map<nat, Bottom>, index: Index, h: nat)
      requires Shows(bottoms, index) && h in index
      ensures Key(h) in bottoms
    {
      assert ShowsAt(bottoms, index, h);
    }

    /** GC_remove_header. */
    method RemoveHeader(h: nat, ghost index: Index)
      requires Valid() && Shows(bottoms, index) && h in index
      modifies this`bottoms
      ensures Valid() && Shows(bottoms, index - {h})
    {
      Present(bottoms, index, h);
      Set(h, Empty);
      ShowsChanged(old(bottoms), bottoms, index, index - {h}, h, Empty);
    }

    /** All blocks from h up to the given end have bottom indices. */
    ghost predicate AllPresent(bottoms: map<nat, Bottom>, h: nat, end: nat)
      requires bottomSize >= 1
    {
      forall a {:trigger Key(a)} :: h <= a < end ==> Key(a) in bottoms
    }

    /** GC_install_counts: forwarding counts for the inner blocks of the size blocks at h.  All bottom indices are
        made first, one for every bottomSize-th block and one for the last block. */
    method InstallCounts(h: nat, size: nat, ghost index: Index) returns (ghost index': Index)
      requires Valid() && Shows(bottoms, index) && size >= 1
      modifies this`bottoms, this`first, this`last, this`keys
      ensures Valid() && Shows(bottoms, index') && CountsSet(z, index, index', h, size)
    {
      MakePresent(h, size, index);
      index' := index;
      var b := h + 1;
      assert Range(h + 1, h + 1) == {};
      while b < h + size
        invariant h + 1 <= b <= h + size && Valid() && AllPresent(bottoms, h, h + size)
        invariant Shows(bottoms, index') && CountsSet(z, index, index', h, b - h)
      {
        ghost var before := bottoms;
        assert Key(b) in bottoms;
        Set(b, Filled(Jump(z.Count(b - h))));
        ShowsChanged(before, bottoms, index', index'[b := Jump(z.Count(b - h))], b, Filled(Jump(z.Count(b - h))));
        index' := index'[b := Jump(z.Count(b - h))];
        b := b + 1;
      }
    }

    /** Bottom indices for the size blocks at h. */
    method MakePresent(h: nat, size: nat, ghost index: Index)
      requires Valid() && Shows(bottoms, index) && size >= 1
      modifies this`bottoms, this`first, this`last, this`keys
      ensures Valid() && Shows(bottoms, index) && AllPresent(bottoms, h, h + size)
    {
      var b := h;
      ghost var latest := h;
      while b < h + size
        invariant Valid() && Shows(bottoms, index) && h <= b && h <= latest < h + size
        invariant if b == h then latest == h else b == latest + bottomSize && AllPresent(bottoms, h, latest + 1)
        decreases h + size - b
      {
        ghost var before := bottoms;
        GetIndex(Key(b));
        ShowsSame(before, bottoms, index);
        if b > h {
          MorePresent(before, bottoms, h, latest, b);
        }
        latest := b;
        b := b + bottomSize;
      }
      ghost var before := bottoms;
      GetIndex(Key(h + size - 1));
      ShowsSame(before, bottoms, index);
      MorePresent(before, bottoms, h, latest, h + size - 1);
    }

    /** The blocks between two that are at most bottomSize apart need no further bottom index. */
    lemma MorePresent(before: map<nat, Bottom>, after: map<nat, Bottom>, h: nat, p: nat, b: nat)
      requires bottomSize >= 1 && h <= p <= b <= p + bottomSize
      requires AllPresent(before, h, p + 1) && after.Keys == before.Keys + {Key(b)}
      ensures AllPresent(after, h, b + 1)
    {
      forall a | h <= a < b + 1
        ensures Key(a) in after
      {
        if a > p {
          NearKeys(p, a, b);
          assert Key(p) in before;
        } else {
          assert Key(a) in before;
        }
      }
    }

    lemma NearKeys(p: nat, a: nat, b: nat)
      requires bottomSize >= 1 && p <= a <= b <= p + bottomSize
      ensures Key(a) == Key(p) || Key(a) == Key(b)
    {
      KeyOrder(p, a);
      KeyOrder(a, b);
      if Key(p) < Key(a) < Key(b) {
        PartsOf(p);
        PartsOf(b);
        MulMore(Key(p), Key(a), bottomSize);
        MulMore(Key(a), Key(b), bottomSize);
      }
    }

    lemma KeyOrder(a: nat, b: nat)
      requires bottomSize >= 1 && a <= b
      ensures Key(a) <= Key(b)
    {
      if Key(b) < Key(a) {
        PartsOf(a);
        PartsOf(b);
        AddrLess(Key(b), Offset(b), Key(a), Offset(a));
      }
    }

    /** GC_remove_counts. */
    method RemoveCounts(h: nat, size: nat, ghost index: Index)
      requires Valid() && Shows(bottoms, index) && size >= 1
      requires forall b :: Between(h + 1, b, h + size) ==> b in index
      modifies this`bottoms
      ensures Valid() && Shows(bottoms, index - Range(h + 1, h + size))
    {
      var b := h + 1;
      assert index - Range(h + 1, b) == index;
      while b < h + size
        invariant h + 1 <= b <= h + size && Valid() && Shows(bottoms, index - Range(h + 1, b))
      {
        ghost var before := bottoms;
        ghost var lo, hi := h + 1, b;
        assert Between(lo, b, h + size) && !Between(lo, b, hi);
        Present(bottoms, index - Range(h + 1, b), b);
        Set(b, Empty);
        assert Between(lo, b, b + 1);
        assert Range(h + 1, b + 1) == Range(h + 1, b) + {b};
        ShowsChanged(before, bottoms, index - Range(h + 1, b), index - Range(h + 1, b + 1), b, Empty);
        b := b + 1;
      }
    }

    // ---- Searches ----

    /** No used block lies in [lo, hi). */
    ghost predicate NoneUsed(tiles: Tiles, lo: nat, hi: int) {
      forall t: nat {:trigger UsedBlock(tiles, t)} :: UsedBlock(tiles, t) && lo <= t ==> hi <= t
    }

    ghost predicate UsedBlock(tiles: Tiles, t: nat) {
      t in tiles && tiles[t].Used?
    }

    /** No block starts in (lo, hi]. */
    ghost predicate NoneStarts(tiles: Tiles, lo: int, hi: nat) {
      forall t: nat {:trigger StartsTile(tiles, t)} :: StartsTile(tiles, t) && t <= hi ==> t <= lo
    }

    ghost predicate StartsTile(tiles: Tiles, t: nat) {
      t in tiles
    }

    /** The cell at a place of a bottom index. */
    lemma CellAt(index: Index, k: nat, j: nat)
      requires Valid() && Shows(bottoms, index) && k in bottoms && j < bottomSize
      ensures Addr(k, j) >= 0
      ensures bottoms[k].cells[j] == if Addr(k, j) in index then Filled(index[Addr(k, j)]) else Empty
    {
      AddrParts(k, j);
      assert ShowsAt(bottoms, index, Addr(k, j));
    }

    /** The part of GC_next_used_block within one bottom index. */
    method ScanUp(k: nat, start: nat, h: nat, ghost index: Index, ghost tiles: Tiles) returns (j: nat)
      requires Agrees(index, tiles) && k in bottoms && NoneUsed(tiles, h, Addr(k, start))
      ensures NoneUsed(tiles, h, Addr(k, j)) && j >= start
      ensures j < bottomSize ==> Addr(k, j) >= 0 && UsedBlock(tiles, Addr(k, j))
    {
      j := start;
      while j < bottomSize
        invariant j >= start && NoneUsed(tiles, h, Addr(k, j))
      {
        CellAt(index, k, j);
        var cell := bottoms[k].cells[j];
        if cell.Empty? || cell.slot.Jump? {
          NotUsedAt(index, tiles, Addr(k, j));
          j := j + 1;
        } else {
          ReadFreeHeader(z, index, tiles, Addr(k, j));
          assert Positive(tiles, Addr(k, j));
          if !cell.slot.hdr.free {
            return;
          }
          assert forall t: nat :: UsedBlock(tiles, t) && Addr(k, j) < t ==> Before(tiles, Addr(k, j), t);
          j := j + cell.slot.hdr.sz;
        }
      }
    }

    lemma NotUsedAt(index: Index, tiles: Tiles, a: nat)
      requires Agrees(index, tiles) && !(a in index && index[a].Header?)
      ensures a !in tiles
    {
      TileHasHeader(z, index, tiles, a);
    }

    /** A block that starts at t has a bottom index. */
    lemma KeyOfTile(index: Index, tiles: Tiles, t: nat) returns (i: nat)
      requires Agrees(index, tiles) && t in tiles
      ensures i < |keys| && keys[i] == Key(t)
    {
      assert HeaderOk(z, index, tiles, t);
      Present(bottoms, index, t);
      assert Listed(keys, Key(t));
      i :| 0 <= i < |keys| && keys[i] == Key(t);
    }

    lemma KeysAscend(i: nat, j: nat)
      requires Valid() && i <= j < |keys|
      ensures keys[i] <= keys[j]
    {
      assert i < j ==> Less(keys, i, j);
    }

    /** Going on from the end of one bottom index to the next. */
    lemma NextBottom(index: Index, tiles: Tiles, h: nat, i: nat, j: nat)
      requires Agrees(index, tiles) && i < |keys| && j >= bottomSize && NoneUsed(tiles, h, Addr(keys[i], j))
      ensures i + 1 < |keys| ==> NoneUsed(tiles, h, Addr(keys[i + 1], 0))
      ensures i + 1 == |keys| ==> forall t: nat {:trigger UsedBlock(tiles, t)} :: UsedBlock(tiles, t) ==> t < h
    {
      forall t: nat | UsedBlock(tiles, t) && h <= t
        ensures i + 1 < |keys| && Addr(keys[i + 1], 0) <= t
      {
        var l := KeyOfTile(index, tiles, t);
        PartsOf(t);
        if l <= i {
          KeysAscend(l, i);
          MulUpTo(keys[l], keys[i], bottomSize);
          assert false;
        }
        KeysAscend(i + 1, l);
        MulUpTo(keys[i + 1], keys[l], bottomSize);
      }
    }

    /** The first bottom index at or behind block h, whose own bottom index is missing. */
    lemma FirstBottom(index: Index, tiles: Tiles, h: nat, i: nat)
      requires Agrees(index, tiles) && Key(h) !in bottoms && i <= |keys|
      requires forall j :: 0 <= j < i ==> keys[j] < Key(h)
      ensures i < |keys| ==> NoneUsed(tiles, h, Addr(keys[i], 0))
      ensures i == |keys| ==> forall t: nat {:trigger UsedBlock(tiles, t)} :: UsedBlock(tiles, t) ==> t < h
    {
      forall t: nat | UsedBlock(tiles, t) && h <= t
        ensures i < |keys| && Addr(keys[i], 0) <= t
      {
        var l := KeyOfTile(index, tiles, t);
        KeyOrder(h, t);
        PartsOf(t);
        assert l >= i;
        KeysAscend(i, l);
        MulUpTo(keys[i], keys[l], bottomSize);
      }
    }

    /** GC_next_used_block: the first block in use at or behind h, or 0. */
    method NextUsedBlock(h: nat, ghost index: Index, ghost tiles: Tiles) returns (r: nat)
      requires Agrees(index, tiles)
      ensures r == 0 ==> forall t: nat {:trigger UsedBlock(tiles, t)} :: UsedBlock(tiles, t) ==> t < h
      ensures r != 0 ==> UsedBlock(tiles, r) && h <= r && NoneUsed(tiles, h, r)
    {
      var j: nat := Offset(h);
      var bi := To(Key(h));
      ghost var i := 0;
      PartsOf(h);
      if Key(h) !in bottoms {
        bi := first;
        while bi.To? && bi.key < Key(h)
          invariant 0 <= i <= |keys| && bi == LinkAt(keys, i)
          invariant forall l :: 0 <= l < i ==> keys[l] < Key(h)
          decreases |keys| - i
        {
          assert ChainedAt(bottoms, keys, i);
          bi := bottoms[bi.key].asc;
          i := i + 1;
        }
        j := 0;
        FirstBottom(index, tiles, h, i);
        assert i < |keys| ==> ChainedAt(bottoms, keys, i);
      } else {
        assert Listed(keys, Key(h));
        i :| 0 <= i < |keys| && keys[i] == Key(h);
      }
      while bi.To?
        invariant 0 <= i <= |keys| && bi == LinkAt(keys, i)
        invariant i < |keys| ==> NoneUsed(tiles, h, Addr(keys[i], j))
        invariant i < |keys| ==> keys[i] > Key(h) || (keys[i] == Key(h) && j >= Offset(h))
        invariant i == |keys| ==> forall t: nat {:trigger UsedBlock(tiles, t)} :: UsedBlock(tiles, t) ==> t < h
        decreases |keys| - i
      {
        assert ChainedAt(bottoms, keys, i);
        assert i + 1 < |keys| ==> Less(keys, i, i + 1);
        j := ScanUp(bi.key, j, h, index, tiles);
        if j < bottomSize {
          if keys[i] > Key(h) {
            AddrLess(Key(h), Offset(h), keys[i], j);
          }
          r := Mul(bi.key, bottomSize) + j;
          assert Positive(tiles, r);
          return;
        }
        NextBottom(index, tiles, h, i, j);
        j := 0;
        bi := bottoms[bi.key].asc;
        i := i + 1;
      }
      r := 0;
    }

    /** A forwarding count leads to a block at or behind the start of the tile, past no other start. */
    lemma JumpPasses(index: Index, tiles: Tiles, a: nat)
      requires Agrees(index, tiles) && a in index && index[a].Jump?
      ensures 1 <= index[a].back <= a
      ensures forall t: nat {:trigger StartsTile(tiles, t)} :: StartsTile(tiles, t) && t <= a ==> t <= a - index[a].back
    {
      var u := ReadSlot(z, index, tiles, a);
      forall t: nat | StartsTile(tiles, t) && t <= a
        ensures t <= a - index[a].back
      {
        assert u < t ==> Before(tiles, u, t);
      }
    }

    /** The part of GC_prev_block within one bottom index. */
    method ScanDown(k: nat, start: int, h: nat, ghost index: Index, ghost tiles: Tiles) returns (j: int)
      requires Agrees(index, tiles) && k in bottoms && start < bottomSize && Addr(k, start) <= h
      requires NoneStarts(tiles, Addr(k, start), h)
      ensures j < bottomSize && Addr(k, j) <= h && NoneStarts(tiles, Addr(k, j), h)
      ensures j >= 0 ==> Addr(k, j) in tiles
    {
      j := start;
      while j >= 0
        invariant j < bottomSize && Addr(k, j) <= h && NoneStarts(tiles, Addr(k, j), h)
      {
        CellAt(index, k, j);
        var cell := bottoms[k].cells[j];
        if cell.Empty? {
          NotUsedAt(index, tiles, Addr(k, j));
          j := j - 1;
        } else if cell.slot.Jump? {
          JumpPasses(index, tiles, Addr(k, j));
          j := j - cell.slot.back;
        } else {
          ReadFreeHeader(z, index, tiles, Addr(k, j));
          return;
        }
      }
    }

    /** Going on from the start of one bottom index to the one before. */
    lemma PrevBottom(index: Index, tiles: Tiles, h: nat, i: nat, j: int)
      requires Agrees(index, tiles) && i < |keys| && j < 0 && NoneStarts(tiles, Addr(keys[i], j), h)
      ensures i > 0 ==> NoneStarts(tiles, Addr(keys[i - 1], bottomSize - 1), h)
      ensures i == 0 ==> forall t: nat {:trigger StartsTile(tiles, t)} :: StartsTile(tiles, t) ==> h < t
    {
      forall t: nat | StartsTile(tiles, t) && t <= h
        ensures i > 0 && t <= Addr(keys[i - 1], bottomSize - 1)
      {
        var l := KeyOfTile(index, tiles, t);
        PartsOf(t);
        if l >= i {
          KeysAscend(i, l);
          MulUpTo(keys[i], keys[l], bottomSize);
          assert false;
        }
        KeysAscend(l, i - 1);
        MulUpTo(keys[l], keys[i - 1], bottomSize);
      }
    }

    /** The last bottom index before block h, whose own bottom index is missing. */
    lemma LastBottom(index: Index, tiles: Tiles, h: nat, i: int)
      requires Agrees(index, tiles) && Key(h) !in bottoms && -1 <= i < |keys|
      requires forall j :: i < j < |keys| ==> keys[j] > Key(h)
      ensures i >= 0 ==> NoneStarts(tiles, Addr(keys[i], bottomSize - 1), h)
      ensures i == -1 ==> forall t: nat {:trigger StartsTile(tiles, t)} :: StartsTile(tiles, t) ==> h < t
    {
      forall t: nat | StartsTile(tiles, t) && t <= h
        ensures i >= 0 && t <= Addr(keys[i], bottomSize - 1)
      {
        var l := KeyOfTile(index, tiles, t);
        KeyOrder(t, h);
        PartsOf(t);
        assert l <= i;
        KeysAscend(l, i);
        MulUpTo(keys[l], keys[i], bottomSize);
      }
    }

    /** GC_prev_block: the last block at or before h that has a header, used or free, or 0. */
    method PrevBlock(h: nat, ghost index: Index, ghost tiles: Tiles) returns (r: nat)
      requires Agrees(index, tiles)
      ensures r == 0 ==> forall t: nat {:trigger StartsTile(tiles, t)} :: StartsTile(tiles, t) ==> h < t
      ensures r != 0 ==> r in tiles && r <= h && NoneStarts(tiles, r, h)
    {
      var j: int := Offset(h);
      var bi := To(Key(h));
      ghost var i: int := 0;
      PartsOf(h);
      if Key(h) !in bottoms {
        bi, i := last, |keys| - 1;
        while bi.To? && bi.key > Key(h)
          invariant -1 <= i < |keys| && bi == LinkAt(keys, i)
          invariant forall l :: i < l < |keys| ==> keys[l] > Key(h)
          decreases i
        {
          assert ChainedAt(bottoms, keys, i);
          bi := bottoms[bi.key].desc;
          i := i - 1;
        }
        j := bottomSize - 1;
        LastBottom(index, tiles, h, i);
        assert i >= 0 ==> ChainedAt(bottoms, keys, i);
      } else {
        assert Listed(keys, Key(h));
        i :| 0 <= i < |keys| && keys[i] == Key(h);
      }
      while bi.To?
        invariant -1 <= i < |keys| && bi == LinkAt(keys, i) && j < bottomSize
        invariant i >= 0 ==> NoneStarts(tiles, Addr(keys[i], j), h)
        invariant i >= 0 ==> keys[i] < Key(h) || (keys[i] == Key(h) && j <= Offset(h))
        invariant i == -1 ==> forall t: nat {:trigger StartsTile(tiles, t)} :: StartsTile(tiles, t) ==> h < t
        decreases i
      {
        assert ChainedAt(bottoms, keys, i);
        assert i > 0 ==> Less(keys, i - 1, i);
        EarlierAddr(keys[i], j, h);
        j := ScanDown(bi.key, j, h, index, tiles);
        if j >= 0 {
          r := Mul(bi.key, bottomSize) + j;
          assert Positive(tiles, r);
          return;
        }
        PrevBottom(index, tiles, h, i, j);
        j := bottomSize - 1;
        bi := bottoms[bi.key].desc;
        i := i - 1;
      }
      r := 0;
    }

    lemma EarlierAddr(k: nat, j: int, h: nat)
      requires bottomSize >= 1 && j < bottomSize && (k < Key(h) || (k == Key(h) && j <= Offset(h)))
      ensures Addr(k, j) <= h
    {
      PartsOf(h);
      if k < Key(h) {
        MulMore(k, Key(h), bottomSize);
      }
    }

    // ---- All blocks ----

    /** The list holds the used blocks in [lo, hi), each once. */
    ghost predicate AllUsedIn(tiles: Tiles, list: seq<nat>, lo: int, hi: int) {
      && Distinct(list)
      && forall t: nat {:trigger UsedBlock(tiles, t)} :: t in list <==> UsedBlock(tiles, t) && lo <= t < hi
    }

    /** The part of GC_apply_to_all_blocks within one bottom index: the blocks to which the function is applied. */
    method VisitBottom(k: nat, ghost index: Index, ghost tiles: Tiles) returns (visited: seq<nat>)
      requires Agrees(index, tiles) && k in bottoms
      ensures AllUsedIn(tiles, visited, Addr(k, 0), Addr(k, bottomSize))
    {
      visited := [];
      var j := bottomSize - 1;
      while j >= 0
        invariant j < bottomSize
        invariant AllUsedIn(tiles, visited, Addr(k, j) + 1, Addr(k, bottomSize))
        invariant forall t: nat :: t in visited ==> Addr(k, 0) <= t
      {
        CellAt(index, k, j);
        var cell := bottoms[k].cells[j];
        if cell.Filled? && cell.slot.Header? {
          ReadFreeHeader(z, index, tiles, Addr(k, j));
          if cell.slot.hdr.free {
            NothingThere(tiles, visited, Addr(k, j), Addr(k, j) + 1, Addr(k, bottomSize));
          } else {
            AddedFirst(tiles, visited, Addr(k, j), Addr(k, bottomSize));
            visited := visited + [Mul(k, bottomSize) + j];
          }
          j := j - 1;
        } else if cell.Empty? {
          NotUsedAt(index, tiles, Addr(k, j));
          NothingThere(tiles, visited, Addr(k, j), Addr(k, j) + 1, Addr(k, bottomSize));
          j := j - 1;
        } else {
          JumpPasses(index, tiles, Addr(k, j));
          assert forall t: nat :: UsedBlock(tiles, t) ==> StartsTile(tiles, t);
          NothingThere(tiles, visited, Addr(k, j - cell.slot.back) + 1, Addr(k, j) + 1, Addr(k, bottomSize));
          j := j - cell.slot.back;
        }
      }
    }

    /** GC_apply_to_all_blocks: the blocks to which the function is applied, in that order. */
    method ApplyToAllBlocks(ghost index: Index, ghost tiles: Tiles) returns (visited: seq<nat>)
      requires Agrees(index, tiles)
      ensures Distinct(visited) && forall t: nat :: t in visited <==> UsedBlock(tiles, t)
    {
      visited := [];
      var bi := first;
      ghost var i: nat := 0;
      while bi.To?
        invariant i <= |keys| && bi == LinkAt(keys, i)
        invariant AllUsedIn(tiles, visited, 0, if i == 0 then 0 else Addr(keys[i - 1], bottomSize))
        decreases |keys| - i
      {
        assert ChainedAt(bottoms, keys, i);
        var more := VisitBottom(bi.key, index, tiles);
        Visited(index, tiles, visited, more, i);
        visited := visited + more;
        bi := bottoms[bi.key].asc;
        i := i + 1;
      }
      forall t: nat | UsedBlock(tiles, t)
        ensures i > 0 && t < Addr(keys[i - 1], bottomSize)
      {
        var l := KeyOfTile(index, tiles, t);
        KeysAscend(l, i - 1);
        PartsOf(t);
        MulUpTo(keys[l], keys[i - 1], bottomSize);
      }
    }

    lemma Visited(index: Index, tiles: Tiles, visited: seq<nat>, more: seq<nat>, i: nat)
      requires Agrees(index, tiles) && i < |keys|
      requires AllUsedIn(tiles, visited, 0, if i == 0 then 0 else Addr(keys[i - 1], bottomSize))
      requires AllUsedIn(tiles, more, Addr(keys[i], 0), Addr(keys[i], bottomSize))
      ensures AllUsedIn(tiles, visited + more, 0, Addr(keys[i], bottomSize))
    {
      if i > 0 {
        assert Less(keys, i - 1, i);
        MulMore(keys[i - 1], keys[i], bottomSize);
        assert Addr(keys[i - 1], bottomSize) <= Addr(keys[i], 0);
      }
      forall t: nat | UsedBlock(tiles, t) && t < Addr(keys[i], 0)
        ensures i > 0 && t < Addr(keys[i - 1], bottomSize)
      {
        var l := KeyOfTile(index, tiles, t);
        PartsOf(t);
        if l >= i {
          KeysAscend(i, l);
          MulUpTo(keys[i], keys[l], bottomSize);
          assert false;
        }
        KeysAscend(l, i - 1);
        MulUpTo(keys[l], keys[i - 1], bottomSize);
      }
      forall t: nat
        ensures t in visited <==> UsedBlock(tiles, t) && 0 <= t < Addr(keys[i], 0)
      {
        assert UsedBlock(tiles, t) || !UsedBlock(tiles, t);
      }
      Joined(tiles, visited, more, Addr(keys[i], 0), Addr(keys[i], bottomSize));
    }

    lemma NothingThere(tiles: Tiles, list: seq<nat>, lo: int, mid: int, hi: int)
      requires AllUsedIn(tiles, list, mid, hi) && lo <= mid
      requires forall t: nat {:trigger UsedBlock(tiles, t)} :: UsedBlock(tiles, t) ==> !(lo <= t < mid)
      ensures AllUsedIn(tiles, list, lo, hi)
    {
      forall t: nat
        ensures t in list <==> UsedBlock(tiles, t) && lo <= t < hi
      {
        assert UsedBlock(tiles, t) || !UsedBlock(tiles, t);
      }
    }

    lemma AddedFirst(tiles: Tiles, list: seq<nat>, a: nat, hi: int)
      requires AllUsedIn(tiles, list, a + 1, hi) && UsedBlock(tiles, a) && a < hi
      ensures AllUsedIn(tiles, list + [a], a, hi)
    {
      assert UsedBlock(tiles, a) && a !in list;
      forall t: nat
        ensures t in list + [a] <==> UsedBlock(tiles, t) && a <= t < hi
      {
        assert UsedBlock(tiles, t) || !UsedBlock(tiles, t);
        assert t in list + [a] <==> t in list || t == a;
      }
    }

    lemma Joined(tiles: Tiles, a: seq<nat>, b: seq<nat>, mid: int, hi: int)
      requires AllUsedIn(tiles, a, 0, mid) && AllUsedIn(tiles, b, mid, hi) && 0 <= mid <= hi
      ensures AllUsedIn(tiles, a + b, 0, hi)
    {
      var c := a + b;
      forall t: nat
        ensures t in c <==> UsedBlock(tiles, t) && 0 <= t < hi
      {
        assert t in c <==> t in a || t in b;
        assert UsedBlock(tiles, t) || !UsedBlock(tiles, t);
        assert t in a <==> UsedBlock(tiles, t) && 0 <= t < mid;
        assert t in b <==> UsedBlock(tiles, t) && mid <= t < hi;
      }
      forall j, l | 0 <= j < l < |c|
        ensures c[j] != c[l]
      {
        if l < |a| {
          assert a[j] != a[l];
        } else if |a| <= j {
          assert b[j - |a|] != b[l - |a|];
        } else {
          assert a[j] in a && b[l - |a|] in b;
          assert UsedBlock(tiles, a[j]) && UsedBlock(tiles, b[l - |a|]);
        }
      }
    }

    /** From every block of a used tile, following forwarding counts ends at the block where the tile starts
        (FORWARDED_ADDR, as in GC_base). */
    method FindHeader(a: nat, ghost t: nat, ghost index: Index, ghost tiles: Tiles) returns (r: nat)
      requires Agrees(index, tiles) && InTile(tiles, t, a) && tiles[t].Used?
      ensures r == t
    {
      r := a;
      InTileIsIndexed(z, index, tiles, t, r);
      assert ShowsAt(bottoms, index, r);
      while Get(bottoms, r).slot.Jump?
        invariant InTile(tiles, t, r) && r in index && (index[r].Header? <==> t == r)
        invariant Get(bottoms, r) == Filled(index[r])
        decreases r
      {
        ghost var u := ReadSlot(z, index, tiles, r);
        OneTile(tiles, t, u, r);
        r := r - Get(bottoms, r).slot.back;
        InTileIsIndexed(z, index, tiles, t, r);
        assert ShowsAt(bottoms, index, r);
      }
    }
  }
}
