/** Object maps and GC_base (boehmgc/src/obj_map.c, boehmgc/src/misc.c): for every object size a table that leads
    from a displacement within a block to the start of the object there. */
module ObjectMap {
  import opened HeapMap
  import opened Headers
  import opened Arithmetic

  /** A map: for every displacement in a block, the offset in words from the start of its object, or one of two
      larger values, for offsets that are too big or not valid.  The entry behind them is not part of the map's
      MAP_SIZE, which is HBLKSIZE, but the loop for large objects may write it. */
  type Map = seq<nat>

  class ObjectMaps {
    const bytesPerWord: nat        // WORDS_TO_BYTES(1)
    const wordsPerBlock: nat       // BYTES_TO_WORDS(HBLKSIZE)
    const maxObjWords: nat         // MAXOBJSZ
    const maxOffset: nat           // MAX_OFFSET
    const tooBig: nat              // OFFSET_TOO_BIG
    const invalid: nat             // OBJ_INVALID
    const interior: bool           // GC_all_interior_pointers
    const validOffsets: array<bool>  // GC_valid_offsets
    var maps: map<nat, Map>        // GC_obj_map; at 0 the map for objects larger than MAXOBJSZ

    /** WORDS_TO_BYTES. */
    function Bytes(words: nat): nat {
      Mul(words, bytesPerWord)
    }

    /** BYTES_TO_WORDS. */
    function Words(bytes: nat): nat
      requires Parameters()
    {
      Div(bytes, bytesPerWord)
    }

    /** HBLKSIZE. */
    function BlockBytes(): nat {
      Bytes(wordsPerBlock)
    }

    /** The address of block h. */
    function Start(h: nat): nat {
      Mul(h, BlockBytes())
    }

    /** Any object larger than MAXOBJSZ takes more than half a block; VALID_OFFSET_SZ exceeds the size in bytes of any
        smaller one, and is not larger than a block. */
    ghost predicate Parameters() {
      && bytesPerWord >= 1 && 1 <= maxObjWords <= wordsPerBlock < 2 * (maxObjWords + 1)
      && maxOffset < tooBig && maxOffset < invalid && tooBig != invalid
      && Bytes(maxObjWords) < validOffsets.Length <= BlockBytes()
    }

    lemma SomeBytes(words: nat)
      requires bytesPerWord >= 1
      ensures words >= 1 ==> Bytes(words) >= 1
    {
      if words >= 1 {
        MulMore(0, words, bytesPerWord);
      }
    }

    /** OFFSET_VALID. */
    predicate OffsetValid(valid: seq<bool>, d: nat) {
      interior || (d < |valid| && valid[d])
    }

    /** What a map holds for a valid displacement. */
    function EntryFor(d: nat): nat
      requires Parameters()
    {
      if Words(d) > maxOffset then tooBig else Words(d)
    }

    /** The displacement within its object of displacement j within a block of objects of the given size. */
    function Within(words: nat, j: nat): nat
      requires Parameters()
    {
      SomeBytes(words);
      if words == 0 then j else Mod(j, Bytes(words))
    }

    /** Whether displacement j is in a whole object of its block. */
    predicate InWholeObject(words: nat, j: nat)
      requires Parameters()
    {
      SomeBytes(words);
      words == 0 || Mul(Div(j, Bytes(words)) + 1, Bytes(words)) <= BlockBytes()
    }

    /** Displacement d of the k-th object of a block. */
    lemma WholeObject(words: nat, k: nat, d: nat)
      requires Parameters() && words >= 1 && d < Bytes(words)
      ensures var j := Mul(k, Bytes(words)) + d;
              && Within(words, j) == d
              && (InWholeObject(words, j) <==> Mul(k, Bytes(words)) + Bytes(words) <= BlockBytes())
    {
      SomeBytes(words);
      Quotient(k, d, Bytes(words));
    }

    /** A map says which displacements in whole objects are valid, as far as GC_valid_offsets goes, and is right about
        offsets wherever it has one. */
    ghost predicate MapOk(valid: seq<bool>, words: nat, m: Map)
      requires Parameters() && |valid| == validOffsets.Length
    {
      && |m| == BlockBytes() + 1
      && forall j {:trigger EntryOk(valid, words, m, j)} :: 0 <= j < BlockBytes() ==> EntryOk(valid, words, m, j)
    }

    ghost predicate EntryOk(valid: seq<bool>, words: nat, m: Map, j: nat)
      requires Parameters() && |valid| == validOffsets.Length && j < BlockBytes() < |m|
    {
      var d := Within(words, j);
      && d <= j
      && (InWholeObject(words, j) && (interior || d < |valid|) ==>
            m[j] == if OffsetValid(valid, d) then EntryFor(d) else invalid)
      && (m[j] == invalid || m[j] == EntryFor(d))
    }

    ghost predicate Valid()
      reads this, validOffsets
    {
      && Parameters()
      && forall w :: w in maps ==> w <= maxObjWords && MapOk(validOffsets[..], w, maps[w])
    }

    /** No maps yet; no displacement registered. */
    constructor (bytesPerWord: nat, wordsPerBlock: nat, maxObjWords: nat, maxOffset: nat, tooBig: nat, invalid: nat,
                 interior: bool, validSize: nat)
      requires bytesPerWord >= 1 && 1 <= maxObjWords <= wordsPerBlock < 2 * (maxObjWords + 1)
      requires maxOffset < tooBig && maxOffset < invalid && tooBig != invalid
      requires Mul(maxObjWords, bytesPerWord) < validSize <= Mul(wordsPerBlock, bytesPerWord)
      ensures Valid() && maps == map[] && fresh(validOffsets) && validOffsets.Length == validSize
      ensures forall d :: 0 <= d < validSize ==> !validOffsets[d]
      ensures this.bytesPerWord == bytesPerWord && this.wordsPerBlock == wordsPerBlock
      ensures this.maxObjWords == maxObjWords && this.maxOffset == maxOffset && this.tooBig == tooBig
      ensures this.invalid == invalid && this.interior == interior
    {
      this.bytesPerWord, this.wordsPerBlock, this.maxObjWords := bytesPerWord, wordsPerBlock, maxObjWords;
      this.maxOffset, this.tooBig, this.invalid, this.interior := maxOffset, tooBig, invalid, interior;
      validOffsets := new bool[validSize](_ => false);
      maps := map[];
      new;
      SomeBytes(wordsPerBlock);
    }

    /** GC_add_map_entry; `memory` tells whether a new map can be allocated. */
    method AddMapEntry(size: nat, memory: bool) returns (ok: bool)
      requires Valid()
      modifies this`maps
      ensures Valid()
      ensures var words := if size > maxObjWords then 0 else size;
              && (ok <==> words in maps)
              && (ok <==> words in old(maps) || memory)
              && maps.Keys == old(maps).Keys + (if ok then {words} else {})
      ensures forall w :: w in old(maps) ==> maps[w] == old(maps)[w]
    {
      var words := if size > maxObjWords then 0 else size;
      if words in maps {
        return true;
      }
      if !memory {
        return false;
      }
      var m: Map := seq(BlockBytes() + 1, _ => invalid);
      if words == 0 {
        m := FillLarge(m);
      } else {
        m := Fill(words, m);
      }
      maps := maps[words := m];
      ok := true;
    }

    /** The loop of GC_add_map_entry for large objects.  It goes on to the displacement behind the block, and reads
        what happens to be behind GC_valid_offsets. */
    method FillLarge(blank: Map) returns (m: Map)
      requires Parameters()
      requires |blank| == BlockBytes() + 1 && forall j :: 0 <= j < |blank| ==> blank[j] == invalid
      ensures MapOk(validOffsets[..], 0, m)
      ensures m[BlockBytes()] == EntryFor(BlockBytes()) || (!interior && m[BlockBytes()] == invalid)
    {
      m := blank;
      var d: nat := 0;
      while d <= BlockBytes()
        invariant d <= BlockBytes() + 1 && |m| == BlockBytes() + 1
        invariant forall j :: d <= j < |m| ==> m[j] == invalid
        invariant forall j: nat :: j < d && (interior || j < validOffsets.Length) ==>
                    m[j] == if OffsetValid(validOffsets[..], j) then EntryFor(j) else invalid
        invariant forall j: nat :: j < d ==> m[j] == invalid || m[j] == EntryFor(j)
      {
        var behind: bool := *;
        if interior || (if d < validOffsets.Length then validOffsets[d] else behind) {
          m := m[d := EntryFor(d)];
        }
        d := d + 1;
      }
    }

    /** The loops of GC_add_map_entry for small objects. */
    method Fill(words: nat, blank: Map) returns (m: Map)
      requires Parameters() && 1 <= words <= maxObjWords
      requires |blank| == BlockBytes() + 1 && forall j :: 0 <= j < |blank| ==> blank[j] == invalid
      ensures MapOk(validOffsets[..], words, m)
    {
      m := blank;
      var bytes := Bytes(words);
      SomeBytes(words);
      var start: nat := 0;
      ghost var k: nat := 0;
      while start + bytes <= BlockBytes()
        invariant start == Mul(k, bytes) && |m| == BlockBytes() + 1 && start <= BlockBytes()
        invariant forall j: nat {:trigger EntryOk(validOffsets[..], words, m, j)} ::
                    j < start && j < BlockBytes() ==> EntryOk(validOffsets[..], words, m, j)
        invariant forall j :: start <= j < |m| ==> m[j] == invalid
      {
        ghost var m0 := m;
        m := FillObject(words, m, start, k);
        forall j: nat | j < start + bytes && j < BlockBytes()
          ensures EntryOk(validOffsets[..], words, m, j)
        {
          assert j < start ==> EntryOk(validOffsets[..], words, m0, j);
        }
        start, k := start + bytes, k + 1;
      }
      forall j: nat | j < BlockBytes()
        ensures EntryOk(validOffsets[..], words, m, j)
      {
        if j >= start {
          Quotient(k, j - start, bytes);
        }
      }
    }

    /** The entries of one object. */
    method FillObject(words: nat, blank: Map, start: nat, ghost k: nat) returns (m: Map)
      requires Parameters() && 1 <= words <= maxObjWords
      requires start == Mul(k, Bytes(words)) && start + Bytes(words) <= BlockBytes()
      requires |blank| == BlockBytes() + 1 && forall j :: start <= j < |blank| ==> blank[j] == invalid
      ensures |m| == |blank| && forall j :: 0 <= j < |m| && !(start <= j < start + Bytes(words)) ==> m[j] == blank[j]
      ensures forall j: nat {:trigger EntryOk(validOffsets[..], words, m, j)} ::
                start <= j < start + Bytes(words) && j < BlockBytes() ==> EntryOk(validOffsets[..], words, m, j)
    {
      m := blank;
      var bytes := Bytes(words);
      SomeBytes(words);
      MulUpTo(words, maxObjWords, bytesPerWord);
      var d: nat := 0;
      while d < bytes
        invariant d <= bytes && |m| == |blank|
        invariant forall j :: 0 <= j < |m| && !(start <= j < start + d) ==> m[j] == blank[j]
        invariant forall e :: 0 <= e < d ==>
                    m[start + e] == if OffsetValid(validOffsets[..], e) then EntryFor(e) else invalid
      {
        if interior || validOffsets[d] {
          m := m[start + d := EntryFor(d)];
        }
        d := d + 1;
      }
      forall j: nat | start <= j < start + bytes
        ensures EntryOk(validOffsets[..], words, m, j)
      {
        Quotient(k, j - start, bytes);
      }
    }

    /** What the entries of a map are: the offset in words of a valid displacement that is not too big, and one of the
        other two values else. */
    lemma EntryIs(words: nat, m: Map, j: nat)
      requires Parameters() && MapOk(validOffsets[..], words, m) && j < BlockBytes() && InWholeObject(words, j)
      ensures var d := Within(words, j);
              && (1 <= words <= maxObjWords ==> d < validOffsets.Length)
              && (interior || (d < validOffsets.Length && validOffsets[d]) ==>
                    m[j] == if Words(d) <= maxOffset then Words(d) else tooBig)
              && (!interior && d < validOffsets.Length && !validOffsets[d] ==> m[j] == invalid)
    {
      assert EntryOk(validOffsets[..], words, m, j);
      if 1 <= words <= maxObjWords {
        SomeBytes(words);
        DivMod(j, Bytes(words));
        MulUpTo(words, maxObjWords, bytesPerWord);
      }
    }

    /** GC_register_displacement_inner. */
    method RegisterDisplacement(offset: nat)
      requires Valid() && offset < validOffsets.Length
      modifies this`maps, validOffsets
      ensures Valid() && maps.Keys == old(maps).Keys
      ensures validOffsets[..] == old(validOffsets[..])[offset := true]
      ensures interior || old(validOffsets[offset]) ==> maps == old(maps)
    {
      if validOffsets[offset] {
        return;
      }
      ghost var before := validOffsets[..];
      validOffsets[offset] := true;
      if interior {
        forall w | w in maps
          ensures MapOk(validOffsets[..], w, maps[w])
        {
          forall j: nat | j < BlockBytes()
            ensures EntryOk(validOffsets[..], w, maps[w], j)
          {
            assert EntryOk(before, w, maps[w], j);
          }
        }
        return;
      }
      var i := 0;
      while i <= maxObjWords
        invariant 0 <= i <= maxObjWords + 1 && maps.Keys == old(maps).Keys
        invariant validOffsets[..] == before[offset := true]
        invariant forall w :: w in maps ==>
                    w <= maxObjWords && MapOk(if w < i then validOffsets[..] else before, w, maps[w])
      {
        if i in maps {
          var m := SetDisplacement(i, maps[i], offset, before);
          maps := maps[i := m];
        }
        i := i + 1;
      }
    }

    /** The part of GC_register_displacement_inner for one map. */
    method SetDisplacement(words: nat, given: Map, offset: nat, ghost before: seq<bool>) returns (m: Map)
      requires Parameters() && words <= maxObjWords && !interior
      requires |before| == validOffsets.Length && offset < |before| && MapOk(before, words, given)
      ensures MapOk(before[offset := true], words, m)
    {
      m := given;
      SomeBytes(words);
      if words == 0 {
        m := m[offset := EntryFor(offset)];
      } else if offset < Bytes(words) {
        m := SetEvery(Bytes(words), m, offset);
      }
      ghost var after := before[offset := true];
      forall j: nat | j < BlockBytes()
        ensures EntryOk(after, words, m, j)
      {
        assert EntryOk(before, words, given, j);
        if words > 0 {
          DivMod(j, Bytes(words));
        }
      }
    }

    /** The entries below place j that are at the given displacement in their objects are set, the others as
        given. */
    ghost predicate SetBelow(given: Map, m: Map, bytes: nat, offset: nat, j: nat)
      requires Parameters() && bytes >= 1
    {
      && |m| == |given|
      && forall l: nat {:trigger m[l]} :: l < |m| ==>
           m[l] == if l < j && l < BlockBytes() && Mod(l, bytes) == offset then EntryFor(offset) else given[l]
    }

    lemma SetOneMore(given: Map, m: Map, bytes: nat, offset: nat, k: nat)
      requires Parameters() && offset < bytes && |given| == BlockBytes() + 1
      requires var j := Mul(k, bytes) + offset; SetBelow(given, m, bytes, offset, j) && j < BlockBytes()
      ensures var j := Mul(k, bytes) + offset;
              Mul(k + 1, bytes) + offset == j + bytes
                && SetBelow(given, m[j := EntryFor(offset)], bytes, offset, j + bytes)
    {
      Quotient(k, offset, bytes);
      NextMultiple(k, offset, bytes);
    }

    /** The entries at the given displacement in every object, and behind the last one. */
    method SetEvery(bytes: nat, given: Map, offset: nat) returns (m: Map)
      requires Parameters() && offset < bytes && |given| == BlockBytes() + 1
      ensures SetBelow(given, m, bytes, offset, BlockBytes())
    {
      m := given;
      var j := offset;
      ghost var k := 0;
      BelowOffset(offset, bytes);
      while j < BlockBytes()
        invariant j == Mul(k, bytes) + offset && SetBelow(given, m, bytes, offset, j)
        decreases BlockBytes() - j
      {
        SetOneMore(given, m, bytes, offset, k);
        m := m[j := EntryFor(offset)];
        k := k + 1;
        j := j + bytes;
      }
    }

    lemma BelowOffset(d: nat, m: nat)
      requires d < m
      ensures forall l: nat :: l < d ==> Mod(l, m) != d
    {
      forall l: nat | l < d
        ensures Mod(l, m) != d
      {
        Quotient(0, l, m);
      }
    }

    /** Numbers with the same remainder are m apart. */
    lemma NextMultiple(k: nat, d: nat, m: nat)
      requires d < m
      ensures forall l: nat :: Mul(k, m) + d < l < Mul(k, m) + d + m ==> Mod(l, m) != d
    {
      forall l: nat | Mul(k, m) + d < l < Mul(k, m) + d + m
        ensures Mod(l, m) != d
      {
        if l < Mul(k, m) + m {
          Quotient(k, l - Mul(k, m), m);
        } else {
          Quotient(k + 1, l - Mul(k + 1, m), m);
        }
      }
    }

    // ---- The object at an address ----

    /** An object of a block in use starts at address b: small objects follow each other as long as they fit, and
        a large one has its blocks for itself. */
    ghost predicate IsObject(t: nat, words: nat, b: nat)
      requires Parameters()
    {
      if words <= maxObjWords then exists k: nat :: IsNth(t, words, b, k)
      else b == Start(t)
    }

    ghost predicate IsNth(t: nat, words: nat, b: nat, k: nat)
      requires Parameters()
    {
      b == Start(t) + Mul(k, Bytes(words)) && Mul(k + 1, Bytes(words)) <= BlockBytes()
    }

    ghost predicate Holds(b: nat, words: nat, p: nat) {
      b <= p < b + Bytes(words)
    }

    /** Rounding down to a word, and the displacement of the word in its block. */
    lemma Aligned(h: nat, o: nat)
      requires Parameters() && o < BlockBytes()
      ensures var x := Start(h) + o;
              && x - Mod(x, bytesPerWord) == Start(h) + Bytes(Words(o))
              && Bytes(Words(o)) < BlockBytes() && Mod(Start(h) + Bytes(Words(o)), BlockBytes()) == Bytes(Words(o))
              && Words(o) < wordsPerBlock && Words(Bytes(Words(o))) == Words(o)
    {
      var q := Words(o);
      DivMod(o, bytesPerWord);
      MulAssoc(h, wordsPerBlock, bytesPerWord);
      MulAdd(Mul(h, wordsPerBlock), q, bytesPerWord);
      Quotient(Mul(h, wordsPerBlock) + q, Mod(o, bytesPerWord), bytesPerWord);
      Quotient(h, Bytes(q), BlockBytes());
      Quotient(q, 0, bytesPerWord);
      if q >= wordsPerBlock {
        MulAdd(wordsPerBlock, q - wordsPerBlock, bytesPerWord);
      }
    }

    /** What GC_base reads from the map, or computes where the map has no offset, for word q of a block. */
    function OffsetOf(words: nat, m: Map, q: nat): nat
      requires Parameters() && words >= 1 && |m| > BlockBytes() && q < wordsPerBlock
    {
      WordInBlock(q);
      if m[Bytes(q)] > maxOffset then Mod(q, words) else m[Bytes(q)]
    }

    lemma WordInBlock(q: nat)
      requires Parameters() && q < wordsPerBlock
      ensures Bytes(q) < BlockBytes() && Words(Bytes(q)) == q
    {
      MulMore(q, wordsPerBlock, bytesPerWord);
      Quotient(q, 0, bytesPerWord);
    }

    /** For small objects the map agrees with division. */
    lemma SmallOffset(words: nat, m: Map, q: nat)
      requires Parameters() && 1 <= words && q < wordsPerBlock && MapOk(validOffsets[..], words, m)
      ensures OffsetOf(words, m, q) == Mod(q, words) <= q
      ensures Bytes(q) == Bytes(Mod(q, words)) + Mul(Div(q, words), Bytes(words))
    {
      WordInBlock(q);
      var k, d := Div(q, words), Mod(q, words);
      assert EntryOk(validOffsets[..], words, m, Bytes(q));
      DivMod(q, words);
      MulAdd(Mul(k, words), d, bytesPerWord);
      MulAssoc(k, words, bytesPerWord);
      MulMore(d, words, bytesPerWord);
      Quotient(k, Bytes(d), Bytes(words));
      Quotient(d, 0, bytesPerWord);
    }

    /** For large objects the map, or the remainder, leads to the start of the block, except behind an object
        that leaves part of its only block unused. */
    lemma LargeOffset(words: nat, m: Map, q: nat)
      requires Parameters() && words > maxObjWords && q < wordsPerBlock && MapOk(validOffsets[..], 0, m)
      ensures OffsetOf(words, m, q) == q || (q >= words && OffsetOf(words, m, q) == q - words)
    {
      WordInBlock(q);
      assert EntryOk(validOffsets[..], 0, m, Bytes(q));
      if q >= words {
        Quotient(1, q - words, words);
      } else {
        Quotient(0, q, words);
      }
    }

    /** The only place for a small object that holds displacement o of block h. */
    lemma SmallBase(h: nat, words: nat, o: nat, b: nat, k: nat)
      requires Parameters() && 1 <= words && o < BlockBytes()
      requires k == Div(Words(o), words) && b == Start(h) + Mul(k, Bytes(words))
      ensures IsNth(h, words, b, k) == (b + Bytes(words) <= Start(h + 1))
      ensures Holds(b, words, Start(h) + o)
      ensures forall b', l: nat :: IsNth(h, words, b', l) && Holds(b', words, Start(h) + o) ==> b' == b && l == k
    {
      InObject(words, Words(o), o);
      forall b', l: nat | IsNth(h, words, b', l) && Holds(b', words, Start(h) + o)
        ensures b' == b && l == k
      {
        SameMultiple(k, l, o, Bytes(words));
      }
    }

    lemma InObject(words: nat, q: nat, o: nat)
      requires Parameters() && 1 <= words && q == Words(o)
      ensures var k := Div(q, words); Mul(k, Bytes(words)) <= o < Mul(k, Bytes(words)) + Bytes(words)
    {
      var k, d := Div(q, words), Mod(q, words);
      DivMod(q, words);
      DivMod(o, bytesPerWord);
      MulAdd(Mul(k, words), d, bytesPerWord);
      MulAssoc(k, words, bytesPerWord);
      MulMore(d, words, bytesPerWord);
    }

    /** The second half of GC_base, for a block h with a header of a block in use: x is the address, or the start
        of block h if the address is in a later block of a large object. */
    method Resolve(p: nat, x: nat, h: nat, words: nat) returns (r: nat)
      requires Valid() && words >= 1 && h >= 1 && (if words > maxObjWords then 0 else words) in maps
      requires Start(h) <= x < Start(h + 1)
      requires x == p || (x == Start(h) && p >= x && words > maxObjWords)
      ensures r != 0 ==> IsObject(h, words, r) && Holds(r, words, p)
      ensures r == 0 ==> forall b: nat {:trigger IsObject(h, words, b)} :: IsObject(h, words, b) ==> !Holds(b, words, p)
    {
      ghost var o := x - Start(h);
      var b := StartOf(x, h, words, o);
      var limit := b + Bytes(words);
      r := if (limit > Start(h + 1) && words <= wordsPerBlock) || p >= limit then 0 else b;
      MulMore(0, h, BlockBytes());
      if words <= maxObjWords {
        SmallBase(h, words, o, b, Div(Words(o), words));
      }
    }

    /** The start that GC_base computes. */
    method StartOf(x: nat, h: nat, words: nat, ghost o: nat) returns (b: nat)
      requires Valid() && words >= 1 && (if words > maxObjWords then 0 else words) in maps
      requires o < BlockBytes() && x == Start(h) + o
      ensures words <= maxObjWords ==> b == Start(h) + Mul(Div(Words(o), words), Bytes(words))
      ensures words > maxObjWords ==>
                || (b == Start(h) && (words <= wordsPerBlock ==> b + Bytes(words) <= Start(h + 1)))
                || (b + Bytes(words) > Start(h + 1) && words <= wordsPerBlock && o >= Bytes(words))
    {
      ghost var q := Words(o);
      Aligned(h, o);
      WordInBlock(q);
      var word := x - Mod(x, bytesPerWord);
      var displ := Mod(word, BlockBytes());
      var m := maps[if words > maxObjWords then 0 else words];
      var entry := m[displ];
      if entry > maxOffset {
        entry := Mod(Words(displ), words);
      }
      assert entry == OffsetOf(words, m, q);
      if words <= maxObjWords {
        SmallOffset(words, m, q);
      } else {
        LargeOffset(words, m, q);
        LargeBase(words, q, o);
      }
      b := word - Bytes(entry);
    }

    /** Behind a large object in a single block there is no room for another. */
    lemma LargeBase(words: nat, q: nat, o: nat)
      requires Parameters() && words > maxObjWords && q == Words(o) && q < wordsPerBlock
      ensures words <= wordsPerBlock ==> Bytes(words) <= BlockBytes()
      ensures q >= words ==>
                && Bytes(q) == Bytes(q - words) + Bytes(words)
                && Bytes(words) + Bytes(words) > BlockBytes() && o >= Bytes(words)
    {
      if words <= wordsPerBlock {
        MulAdd(words, wordsPerBlock - words, bytesPerWord);
      }
      if q >= words {
        MulAdd(q - words, words, bytesPerWord);
        MulAdd(words, words, bytesPerWord);
        MulMore(wordsPerBlock, words + words, bytesPerWord);
        DivMod(o, bytesPerWord);
      }
    }

    /** The heap as GC_base finds it: every block in use has objects of at least a word, and a map. */
    ghost predicate Mapped(index: Index, tiles: Tiles)
      reads this, validOffsets
    {
      && Valid()
      && forall t: nat {:trigger tiles[t]} :: t in tiles && tiles[t].Used? && t in index && index[t].Header? ==>
           var words := index[t].hdr.sz;
           words >= 1 && (if words > maxObjWords then 0 else words) in maps
    }

    /** Block t is in use and has an object at b that holds address p. */
    ghost predicate ObjectHolds(index: Index, tiles: Tiles, t: nat, b: nat, p: nat)
      requires Parameters()
    {
      && t in tiles && tiles[t].Used? && t in index && index[t].Header?
      && IsObject(t, index[t].hdr.sz, b) && Holds(b, index[t].hdr.sz, p)
    }

    /** An address in an object is in a block of the object's tile. */
    lemma ObjectInTile(headers: HeaderIndex, index: Index, tiles: Tiles, t: nat, b: nat, p: nat)
      requires Parameters() && headers.Agrees(index, tiles) && headers.z.wordsPerBlock == wordsPerBlock
      requires ObjectHolds(index, tiles, t, b, p)
      ensures InTile(tiles, t, Div(p, BlockBytes())) && p >= Start(t)
      ensures index[t].hdr.sz <= maxObjWords ==> Div(p, BlockBytes()) == t
    {
      var words := index[t].hdr.sz;
      assert HeaderOk(headers.z, index, tiles, t) && HeapMap.Positive(tiles, t);
      var o := p - Start(t);
      if words <= maxObjWords {
        var k: nat :| IsNth(t, words, b, k);
        Quotient(t, o, BlockBytes());
      } else {
        LargeInTile(t, tiles[t].size, words, o);
      }
    }

    lemma LargeInTile(t: nat, size: nat, words: nat, o: nat)
      requires Parameters() && o < Bytes(words) && size == Sizes(wordsPerBlock, 1).Blocks(words)
      ensures t <= Div(Start(t) + o, BlockBytes()) < t + size
    {
      RoundUp(words, size);
      MulAdd(words, Mul(size, wordsPerBlock) - words, bytesPerWord);
      MulAssoc(size, wordsPerBlock, bytesPerWord);
      var l := Div(o, BlockBytes());
      DivMod(o, BlockBytes());
      MulAdd(t, l, BlockBytes());
      Quotient(t + l, Mod(o, BlockBytes()), BlockBytes());
      if l >= size {
        MulAdd(size, l - size, BlockBytes());
      }
    }

    /** OBJ_SZ_TO_BLOCKS rounds up. */
    lemma RoundUp(words: nat, size: nat)
      requires Parameters() && size == Sizes(wordsPerBlock, 1).Blocks(words)
      ensures words <= Mul(size, wordsPerBlock)
      ensures words <= wordsPerBlock ==> size <= 1
    {
      var up := words + wordsPerBlock - 1;
      DivMod(up, wordsPerBlock);
      if size > 1 {
        MulMore(1, size, wordsPerBlock);
      }
    }

    /** GC_base: the start of the object that holds address p, or 0 if there is none. */
    method Base(p: nat, headers: HeaderIndex, ghost index: Index, ghost tiles: Tiles) returns (r: nat)
      requires headers.Agrees(index, tiles) && headers.z.wordsPerBlock == wordsPerBlock && Mapped(index, tiles)
      ensures r != 0 ==> exists t: nat :: ObjectHolds(index, tiles, t, r, p)
      ensures r == 0 ==> forall t: nat, b: nat :: !ObjectHolds(index, tiles, t, b, p)
    {
      var a := Div(p, BlockBytes());
      var cell := headers.Get(headers.bottoms, a);
      assert headers.ShowsAt(headers.bottoms, index, a);
      if cell.Empty? {
        NothingAt(headers, index, tiles, p, 0);
        return 0;
      }
      ghost var t := ReadSlot(headers.z, index, tiles, a);
      assert HeapMap.Positive(tiles, t) && HeaderOk(headers.z, index, tiles, t);
      var h, x := a, p;
      if cell.slot.Jump? {
        h := headers.FindHeader(a, t, index, tiles);
        x := Start(h);
      }
      assert headers.ShowsAt(headers.bottoms, index, h);
      var hdr := headers.Get(headers.bottoms, h).slot.hdr;
      if hdr.free {
        NothingAt(headers, index, tiles, p, t);
        return 0;
      }
      AddressOf(headers, index, tiles, h, a, p);
      r := Resolve(p, x, h, hdr.sz);
      assert r != 0 ==> ObjectHolds(index, tiles, h, r, p);
      forall u: nat, b: nat | ObjectHolds(index, tiles, u, b, p)
        ensures r != 0
      {
        ObjectInTile(headers, index, tiles, u, b, p);
        OneTile(tiles, u, h, a);
      }
    }

    /** There is no object at an address whose block is in no used tile. */
    lemma NothingAt(headers: HeaderIndex, index: Index, tiles: Tiles, p: nat, t: nat)
      requires Parameters() && headers.Agrees(index, tiles) && headers.z.wordsPerBlock == wordsPerBlock
      requires Div(p, BlockBytes()) !in index || (InTile(tiles, t, Div(p, BlockBytes())) && !tiles[t].Used?)
      ensures forall u: nat, b: nat :: !ObjectHolds(index, tiles, u, b, p)
    {
      forall u: nat, b: nat
        ensures !ObjectHolds(index, tiles, u, b, p)
      {
        if ObjectHolds(index, tiles, u, b, p) {
          ObjectInTile(headers, index, tiles, u, b, p);
          if Div(p, BlockBytes()) in index {
            OneTile(tiles, t, u, Div(p, BlockBytes()));
          } else {
            InTileIsIndexed(headers.z, index, tiles, u, Div(p, BlockBytes()));
          }
        }
      }
    }

    /** Where the address is relative to the start of its tile; a tile of more than one block has a large
        object. */
    lemma AddressOf(headers: HeaderIndex, index: Index, tiles: Tiles, h: nat, a: nat, p: nat)
      requires Parameters() && headers.Agrees(index, tiles) && headers.z.wordsPerBlock == wordsPerBlock
      requires InTile(tiles, h, a) && a == Div(p, BlockBytes()) && tiles[h].Used? && h in index && index[h].Header?
      ensures p >= Start(h) && (a == h ==> p < Start(h + 1))
      ensures a > h ==> index[h].hdr.sz > maxObjWords
    {
      assert HeaderOk(headers.z, index, tiles, h);
      DivMod(p, BlockBytes());
      MulAdd(h, a - h, BlockBytes());
      RoundUp(index[h].hdr.sz, tiles[h].size);
    }

    /** No address is in two objects. */
    lemma ObjectIsUnique(headers: HeaderIndex, index: Index, tiles: Tiles, t: nat, b: nat, u: nat, c: nat, p: nat)
      requires Parameters() && headers.Agrees(index, tiles) && headers.z.wordsPerBlock == wordsPerBlock
      requires ObjectHolds(index, tiles, t, b, p) && ObjectHolds(index, tiles, u, c, p)
      ensures t == u && b == c
    {
      ObjectInTile(headers, index, tiles, t, b, p);
      ObjectInTile(headers, index, tiles, u, c, p);
      OneTile(tiles, t, u, Div(p, BlockBytes()));
      var words := index[t].hdr.sz;
      if words <= maxObjWords {
        var k: nat, l: nat :| IsNth(t, words, b, k) && IsNth(t, words, c, l);
        SameMultiple(k, l, p - Start(t), Bytes(words));
      }
    }
  }
}
