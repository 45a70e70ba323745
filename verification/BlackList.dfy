/** Black lists: bit tables, indexed by a hash of the block number, of blocks that false pointers refer to
    (boehmgc/src/blacklst.c). */
module BlackList {
  import opened Arithmetic

  /** A bit table as words of WORDSZ bits. */
  type Table = seq<seq<bool>>

  predicate IsZero(w: seq<bool>) {
    forall k :: 0 <= k < |w| ==> !w[k]
  }

  class BlackLists {
    const wordSize: nat        // WORDSZ
    const words: nat           // number of words in a table
    const interior: bool       // GC_all_interior_pointers
    var oldNormal: Table
    var incompleteNormal: Table
    var oldStack: Table
    var incompleteStack: Table

    predicate IsTable(t: Table) {
      |t| == words && forall i :: 0 <= i < words ==> |t[i]| == wordSize
    }

    ghost predicate Valid()
      reads this
    {
      && wordSize >= 1 && words >= 1
      && IsTable(oldNormal) && IsTable(incompleteNormal) && IsTable(oldStack) && IsTable(incompleteStack)
    }

    function Cleared(): (t: Table)
      ensures IsTable(t) && forall i :: 0 <= i < words ==> IsZero(t[i])
    {
      seq(words, _ => seq(wordSize, _ => false))
    }

    /** GC_bl_init. */
    constructor (wordSize: nat, words: nat, interior: bool)
      requires wordSize >= 1 && words >= 1
      ensures Valid() && forall h, n :: !Listed(h, n)
      ensures this.wordSize == wordSize && this.words == words && this.interior == interior
    {
      this.wordSize, this.words, this.interior := wordSize, words, interior;
      new;
      oldNormal, incompleteNormal, oldStack, incompleteStack := Cleared(), Cleared(), Cleared(), Cleared();
      forall h: nat
        ensures !NormalListed(h) && !StackListed(h)
      {
        WordInRange(Hash(h));
      }
      forall h: nat, n: nat
        ensures !Listed(h, n)
      {
        NotListed(h, n);
      }
    }

    /** Number of bits in a table. */
    function Size(): nat {
      Mul(words, wordSize)
    }

    /** PHT_HASH of block number h. */
    function Hash(h: nat): (k: nat)
      requires wordSize >= 1 && words >= 1
      ensures k < Size()
    {
      MulMore(0, words, wordSize);
      DivMod(h, Size());
      Mod(h, Size())
    }

    /** get_pht_entry_from_index. */
    predicate Bit(t: Table, h: nat)
      requires wordSize >= 1 && words >= 1 && IsTable(t)
    {
      WordInRange(Hash(h));
      t[Div(Hash(h), wordSize)][Mod(Hash(h), wordSize)]
    }

    /** The hash is the remainder by the size of a table. */
    lemma HashIsRemainder(h: nat)
      requires wordSize >= 1 && words >= 1
      ensures h < Size() ==> Hash(h) == h
      ensures Hash(h + Size()) == Hash(h)
    {
      MulMore(0, words, wordSize);
      DivMod(h, Size());
      if h < Size() {
        Quotient(0, h, Size());
      }
      assert Mul(Div(h, Size()) + 1, Size()) == Mul(Div(h, Size()), Size()) + Size();
      Quotient(Div(h, Size()) + 1, Mod(h, Size()), Size());
    }

    /** Bit i of word w of a table is for the block with that number. */
    lemma BitOfWord(t: Table, w: nat, i: nat)
      requires wordSize >= 1 && words >= 1 && IsTable(t) && w < words && i < wordSize
      ensures Bit(t, Mul(w, wordSize) + i) == t[w][i]
    {
      MulUpTo(w + 1, words, wordSize);
      assert Mul(w + 1, wordSize) == Mul(w, wordSize) + wordSize;
      HashIsRemainder(Mul(w, wordSize) + i);
      Quotient(w, i, wordSize);
    }

    lemma WordInRange(k: nat)
      requires wordSize >= 1 && k < Size()
      ensures Div(k, wordSize) < words && Mod(k, wordSize) < wordSize
    {
      DivMod(k, wordSize);
      if Div(k, wordSize) >= words {
        MulAdd(words, Div(k, wordSize) - words, wordSize);
      }
    }

    predicate NormalListed(h: nat)
      requires Valid()
      reads this
    {
      Bit(oldNormal, h) || Bit(incompleteNormal, h)
    }

    predicate StackListed(h: nat)
      requires Valid()
      reads this
    {
      Bit(oldStack, h) || Bit(incompleteStack, h)
    }

    /** Number of blocks that a length of n blocks or less makes GC_is_black_listed look at. */
    function Span(n: nat): nat {
      if n == 0 then 1 else n
    }

    /** The range of n blocks at h is black-listed: its first block is referred to by a false pointer from the
        heap, where that matters, or any of its blocks by one from a stack. */
    ghost predicate Listed(h: nat, n: nat)
      requires Valid()
      reads this
    {
      || (!interior && (Bit(oldNormal, h) || Bit(incompleteNormal, h)))
      || exists b :: (b == h || h <= b < h + n) && (Bit(oldStack, b) || Bit(incompleteStack, b))
    }

    lemma NotListed(h: nat, n: nat)
      requires Valid() && (interior || !NormalListed(h))
      requires forall b :: h <= b < h + Span(n) ==> !StackListed(b)
      ensures !Listed(h, n)
    {
      forall b: nat | b == h || h <= b < h + n
        ensures !Bit(oldStack, b) && !Bit(incompleteStack, b)
      {
        assert !StackListed(b);
      }
    }

    lemma AllListed(h: nat, b: nat, n: nat)
      requires Valid() && h <= b < h + Span(n) && StackListed(b)
      ensures forall c :: h <= c <= b ==> Listed(c, n)
    {
    }

    lemma ListedMore(h: nat, n: nat, m: nat)
      requires Valid() && 1 <= n <= m && Listed(h, n)
      ensures Listed(h, m)
    {
    }

    /** GC_is_black_listed: 0 if the range is not black-listed; otherwise a block such that the range starting
        at any block before it, from h on, is black-listed too.  Whole words of zeros are skipped. */
    method IsBlackListed(h: nat, n: nat) returns (r: nat)
      requires Valid()
      ensures r == 0 <==> !Listed(h, n)
      ensures r != 0 ==> h < r <= h + Span(n) && forall b :: h <= b < r ==> Listed(b, n)
    {
      if !interior && NormalListed(h) {
        return h + 1;
      }
      var i := 0;
      while true
        invariant i < Span(n)
        invariant forall b :: h <= b < h + i ==> !StackListed(b)
        decreases Span(n) - i
      {
        var index := Hash(h + i);
        WordInRange(index);
        if IsZero(oldStack[Div(index, wordSize)]) && IsZero(incompleteStack[Div(index, wordSize)]) {
          var rest := wordSize - Mod(index, wordSize);
          forall b | h + i <= b < h + i + rest
            ensures !StackListed(b)
          {
            SameWord(h + i, b - (h + i));
          }
          i := i + rest;
        } else {
          if StackListed(h + i) {
            AllListed(h, h + i, n);
            return h + i + 1;
          }
          i := i + 1;
        }
        if i >= n {
          NotListed(h, n);
          return 0;
        }
      }
    }

    /** Blocks whose hash does not leave the word are next to each other in it. */
    lemma SameWord(h: nat, d: nat)
      requires wordSize >= 1 && words >= 1 && d < wordSize - Mod(Hash(h), wordSize)
      ensures Div(Hash(h + d), wordSize) == Div(Hash(h), wordSize)
      ensures Mod(Hash(h + d), wordSize) == Mod(Hash(h), wordSize) + d
    {
      var k := Hash(h);
      var w := Div(k, wordSize);
      WordInRange(k);
      DivMod(k, wordSize);
      MulMore(w, words, wordSize);
      DivMod(h, Size());
      Quotient(Div(h, Size()), k + d, Size());
      Quotient(w, Mod(k, wordSize) + d, wordSize);
    }

    /** GC_promote_black_lists: the incomplete lists become the old ones, the old tables are cleared and
        reused. */
    method Promote()
      requires Valid()
      modifies this
      ensures Valid()
      ensures oldStack == old(incompleteStack) && oldNormal == old(incompleteNormal)
      ensures forall h: nat :: !Bit(incompleteStack, h) && (!interior ==> !Bit(incompleteNormal, h))
      ensures forall h: nat :: StackListed(h) <==> Bit(old(incompleteStack), h)
      ensures !interior ==> forall h: nat :: NormalListed(h) <==> Bit(old(incompleteNormal), h)
    {
      oldStack, incompleteStack := incompleteStack, Cleared();
      if interior {
        oldNormal, incompleteNormal := incompleteNormal, oldNormal;
      } else {
        oldNormal, incompleteNormal := incompleteNormal, Cleared();
      }
      forall h: nat
        ensures !Bit(Cleared(), h)
      {
        WordInRange(Hash(h));
      }
    }
  }
}
