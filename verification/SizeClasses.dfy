/** Size classes (boehmgc/src/misc.c): GC_size_map gives, for a request in bytes, the size of the objects to
    allocate in words.  Small requests are mapped at the start, others on demand. */
module SizeClasses {
  import opened Arithmetic

  function Even(x: nat): nat {
    x - x % 2
  }

  function MultipleOf4(x: nat): nat {
    x - x % 4
  }

  class SizeMap {
    const bytesPerWord: nat      // sizeof(word)
    const maxObjWords: nat       // MAXOBJSZ
    const bodyWords: nat         // BODY_SZ
    const minWords: nat          // MIN_WORDS
    const extra: nat             // EXTRA_BYTES, 1 if GC_all_interior_pointers
    const alignDouble: bool      // ALIGN_DOUBLE
    const gcj: bool              // GC_GCJ_SUPPORT
    const sizes: array<nat>      // GC_size_map

    function Bytes(words: nat): nat {
      Mul(words, bytesPerWord)
    }

    /** The largest small object takes half a block, and is larger than the sizes mapped at the start. */
    ghost predicate Parameters() {
      && bytesPerWord >= 1 && 1 <= minWords <= 2 && extra <= 1
      && 40 <= maxObjWords && 2 * maxObjWords <= bodyWords < 2 * (maxObjWords + 1)
      && (alignDouble ==> maxObjWords % 2 == 0)
      && sizes.Length == Bytes(maxObjWords + 1)
    }

    /** ROUNDED_UP_WORDS. */
    function RoundedUp(bytes: nat): nat
      requires Parameters()
    {
      Div(bytes + bytesPerWord - 1 + extra, bytesPerWord)
    }

    /** ALIGNED_WORDS. */
    function Aligned(bytes: nat): nat
      requires Parameters()
    {
      if alignDouble then Even(Div(bytes + 2 * bytesPerWord - 1 + extra, bytesPerWord)) else RoundedUp(bytes)
    }

    /** Objects of the given size can serve the request: there is room for it and for the extra byte. */
    ghost predicate Serves(words: nat, bytes: nat) {
      bytes + extra <= Bytes(words) && words <= maxObjWords
    }

    ghost predicate EntryOk(j: nat)
      requires j < sizes.Length
      reads sizes
    {
      sizes[j] != 0 ==> Serves(sizes[j], j)
    }

    ghost predicate Valid()
      reads sizes
    {
      && Parameters()
      && (forall j {:trigger EntryOk(j)} :: 0 <= j < sizes.Length ==> EntryOk(j))
      && forall j :: 0 <= j <= 16 * bytesPerWord && j < sizes.Length ==> sizes[j] != 0
    }

    // ---- Rounding ----

    lemma RoundsUp(bytes: nat)
      requires Parameters()
      ensures bytes + extra <= Bytes(RoundedUp(bytes)) < bytes + extra + bytesPerWord
    {
      DivMod(bytes + bytesPerWord - 1 + extra, bytesPerWord);
    }

    /** Any size that serves a request is at least the request rounded up. */
    lemma RoundedIsLeast(bytes: nat, words: nat)
      requires Parameters() && bytes + extra <= Bytes(words)
      ensures RoundedUp(bytes) <= words
    {
      RoundsUp(bytes);
      if words < RoundedUp(bytes) {
        MulMore(words, RoundedUp(bytes), bytesPerWord);
      }
    }

    lemma MoreWords(a: nat, b: nat)
      requires a <= b
      ensures Bytes(a) <= Bytes(b)
    {
      MulAdd(a, b - a, bytesPerWord);
    }

    lemma Times(k: nat)
      ensures Bytes(k) == k * bytesPerWord
    {
      MulIs(k, bytesPerWord);
    }

    /** Each of the sizes mapped at the start serves its request. */
    lemma Served(bytes: nat, words: nat)
      requires Parameters() && RoundedUp(bytes) <= words <= maxObjWords
      ensures Serves(words, bytes)
    {
      RoundsUp(bytes);
      MoreWords(RoundedUp(bytes), words);
    }

    lemma RoundedBound(bytes: nat, k: nat)
      requires Parameters() && bytes <= k * bytesPerWord
      ensures RoundedUp(bytes) <= k + 1
    {
      Times(k + 1);
      assert (k + 1) * bytesPerWord == k * bytesPerWord + bytesPerWord;
      RoundedIsLeast(bytes, k + 1);
    }

    // ---- The start ----

    ghost predicate AllOk()
      reads sizes
    {
      && Parameters()
      && forall j {:trigger EntryOk(j)} :: 0 <= j < sizes.Length ==> EntryOk(j)
    }

    ghost predicate FilledBelow(n: nat)
      reads sizes
    {
      n <= sizes.Length && forall j :: 0 <= j < n ==> sizes[j] != 0
    }

    /** Filling one entry. */
    method Fill(j: nat, words: nat)
      requires AllOk() && j < sizes.Length && words >= 1 && Serves(words, j)
      modifies sizes
      ensures AllOk() && sizes[..] == old(sizes[..])[j := words]
    {
      sizes[j] := words;
      forall i | 0 <= i < sizes.Length
        ensures EntryOk(i)
      {
        assert old(EntryOk(i));
      }
    }

    constructor (bytesPerWord: nat, maxObjWords: nat, bodyWords: nat, minWords: nat, extra: nat, alignDouble: bool,
                 gcj: bool)
      requires bytesPerWord >= 1 && 1 <= minWords <= 2 && extra <= 1
      requires 40 <= maxObjWords && 2 * maxObjWords <= bodyWords < 2 * (maxObjWords + 1)
      requires alignDouble ==> maxObjWords % 2 == 0
      ensures AllOk() && FilledBelow(0) && fresh(sizes)
      ensures this.bytesPerWord == bytesPerWord && this.maxObjWords == maxObjWords && this.bodyWords == bodyWords
      ensures this.minWords == minWords && this.extra == extra && this.alignDouble == alignDouble && this.gcj == gcj
    {
      this.bytesPerWord, this.maxObjWords, this.bodyWords := bytesPerWord, maxObjWords, bodyWords;
      this.minWords, this.extra, this.alignDouble, this.gcj := minWords, extra, alignDouble, gcj;
      sizes := new nat[Mul(maxObjWords + 1, bytesPerWord)](_ => 0);
    }

    /** An entry made at the start is no larger than it has to be: up to a word the minimum, up to 8 words the
        request rounded up, and aligned for doubles if need be, up to 16 words the next even number, and behind
        that the next multiple of 4. */
    ghost predicate Snug(j: nat)
      requires Parameters() && j < sizes.Length
      reads sizes
    {
      var least, size := RoundedUp(j), sizes[j];
      if j <= bytesPerWord then size == minWords || (size == least && minWords == 1)
      else if j <= 8 * bytesPerWord then
        if alignDouble then least <= size <= least + 1 && size % 2 == 0 else size == least
      else if j <= 16 * bytesPerWord then least <= size <= least + 1 && size % 2 == 0
      else least <= size <= least + 3 && size % 4 == 0
    }

    ghost predicate SnugBelow(n: nat)
      requires Parameters()
      reads sizes
    {
      n <= sizes.Length && forall j {:trigger Snug(j)} :: 0 <= j < n ==> Snug(j)
    }

    /** The next entry at the start. */
    method FillNext(j: nat, words: nat)
      requires AllOk() && j < sizes.Length && FilledBelow(j) && SnugBelow(j)
      requires words >= 1 && RoundedUp(j) <= words <= maxObjWords
      modifies sizes
      ensures AllOk() && FilledBelow(j + 1) && (Snug(j) ==> SnugBelow(j + 1))
      ensures sizes[..] == old(sizes[..])[j := words]
    {
      Served(j, words);
      ghost var before := sizes[..];
      Fill(j, words);
      forall i | 0 <= i < j
        ensures Snug(i)
      {
        assert old(Snug(i)) && sizes[..][i] == before[i];
      }
    }

    /** GC_init_size_map. */
    method InitSizeMap()
      requires AllOk()
      modifies sizes
      ensures Valid() && SnugBelow(16 * bytesPerWord + 1)
      ensures gcj ==> FilledBelow(32 * bytesPerWord + 1) && SnugBelow(32 * bytesPerWord + 1)
      ensures !gcj ==> sizes[16 * bytesPerWord + 1..] == old(sizes[16 * bytesPerWord + 1..])
      ensures gcj ==> sizes[32 * bytesPerWord + 1..] == old(sizes[32 * bytesPerWord + 1..])
    {
      MoreWords(33, maxObjWords);
      Times(33);
      Times(1);
      var i: nat := 0;
      while i < bytesPerWord
        invariant i <= bytesPerWord && AllOk() && FilledBelow(i) && SnugBelow(i) && sizes[i..] == old(sizes[i..])
      {
        RoundedIsLeast(i, 1);
        FillNext(i, minWords);
        i := i + 1;
      }
      RoundedBound(bytesPerWord, 1);
      RoundsUp(bytesPerWord);
      FillNext(bytesPerWord, if minWords > 1 then minWords else RoundedUp(bytesPerWord));
      i := bytesPerWord + 1;
      while i <= 8 * bytesPerWord
        invariant bytesPerWord + 1 <= i <= 8 * bytesPerWord + 1 && AllOk() && FilledBelow(i) && SnugBelow(i)
        invariant sizes[i..] == old(sizes[i..])
      {
        RoundedBound(i, 8);
        RoundsUp(i);
        AlignedRounds(i);
        FillNext(i, Aligned(i));
        i := i + 1;
      }
      FillLarger();
    }

    /** The entries for more than 8 words. */
    method FillLarger()
      requires AllOk() && FilledBelow(8 * bytesPerWord + 1) && SnugBelow(8 * bytesPerWord + 1)
      requires 33 * bytesPerWord < sizes.Length
      modifies sizes
      ensures Valid() && SnugBelow(16 * bytesPerWord + 1)
      ensures gcj ==> FilledBelow(32 * bytesPerWord + 1) && SnugBelow(32 * bytesPerWord + 1)
      ensures !gcj ==> sizes[16 * bytesPerWord + 1..] == old(sizes[16 * bytesPerWord + 1..])
      ensures gcj ==> sizes[32 * bytesPerWord + 1..] == old(sizes[32 * bytesPerWord + 1..])
    {
      var i := 8 * bytesPerWord + 1;
      while i <= 16 * bytesPerWord
        invariant 8 * bytesPerWord + 1 <= i <= 16 * bytesPerWord + 1 && AllOk() && FilledBelow(i) && SnugBelow(i)
        invariant sizes[i..] == old(sizes[i..])
      {
        RoundedBound(i, 16);
        RoundsUp(i);
        FillNext(i, Even(RoundedUp(i) + 1));
        i := i + 1;
      }
      if gcj {
        FillMore();
      }
    }

    /** The entries for more than 16 words. */
    method FillMore()
      requires AllOk() && FilledBelow(16 * bytesPerWord + 1) && SnugBelow(16 * bytesPerWord + 1)
      requires 33 * bytesPerWord < sizes.Length
      modifies sizes
      ensures Valid() && SnugBelow(16 * bytesPerWord + 1)
      ensures FilledBelow(32 * bytesPerWord + 1) && SnugBelow(32 * bytesPerWord + 1)
      ensures sizes[32 * bytesPerWord + 1..] == old(sizes[32 * bytesPerWord + 1..])
    {
      var i := 16 * bytesPerWord + 1;
      while i <= 32 * bytesPerWord
        invariant 16 * bytesPerWord + 1 <= i <= 32 * bytesPerWord + 1 && AllOk() && FilledBelow(i) && SnugBelow(i)
        invariant sizes[i..] == old(sizes[i..])
      {
        RoundedBound(i, 32);
        RoundsUp(i);
        FillNext(i, MultipleOf4(RoundedUp(i) + 3));
        i := i + 1;
      }
    }

    lemma AlignedRounds(bytes: nat)
      requires Parameters()
      ensures if alignDouble then RoundedUp(bytes) <= Aligned(bytes) <= RoundedUp(bytes) + 1 && Aligned(bytes) % 2 == 0
              else Aligned(bytes) == RoundedUp(bytes)
    {
      var x := bytes + bytesPerWord - 1 + extra;
      DivMod(x, bytesPerWord);
      Quotient(Div(x, bytesPerWord) + 1, Mod(x, bytesPerWord), bytesPerWord);
      assert bytes + 2 * bytesPerWord - 1 + extra == x + bytesPerWord;
    }

    // ---- On demand ----

    /** The size that lets as many objects as before fit into a block, but larger ones. */
    function SameNumber(words: nat): nat
      requires Parameters() && 1 <= words <= maxObjWords
    {
      Div(bodyWords, Div(bodyWords, words))
    }

    /** As many objects of the new size fit as of the old one, none larger would, and it is no smaller; it is
        still a small object. */
    lemma SameNumberIsLargest(words: nat)
      requires Parameters() && 1 <= words <= maxObjWords
      ensures var n, w := Div(bodyWords, words), SameNumber(words);
              && words <= w <= maxObjWords && Div(bodyWords, w) == n
              && forall v :: v > w ==> Div(bodyWords, v) < n
    {
      var n := Div(bodyWords, words);
      var w := SameNumber(words);
      DivMod(bodyWords, words);
      DivMod(bodyWords, n);
      MulCommutes(n, words);
      MulCommutes(n, w);
      if w < words {
        MulMore(w, words, n);
      }
      assert w <= maxObjWords by {
        MulAdd(2, n - 2, w);
        assert Mul(2, w) == w + Mul(1, w) && Mul(1, w) == w + Mul(0, w);
      }
      DivMod(bodyWords, w);
      if Div(bodyWords, w) < n {
        MulMore(Div(bodyWords, w), n, w);
      } else if Div(bodyWords, w) > n {
        MulAdd(n, Div(bodyWords, w) - n, w);
        MulMore(n, Div(bodyWords, w), w);
        MulIncreases(n, words, w);
      }
      forall v | v > w
        ensures Div(bodyWords, v) < n
      {
        DivMod(bodyWords, v);
        if Div(bodyWords, v) >= n {
          MulAdd(n, Div(bodyWords, v) - n, v);
          MulCommutes(n, v);
          MulMore(w, v, n);
        }
      }
    }

    lemma MulCommutes(a: nat, b: nat)
      ensures Mul(a, b) == Mul(b, a)
    {
      MulIs(a, b);
      MulIs(b, a);
    }

    lemma MulIncreases(n: nat, a: nat, b: nat)
      requires a <= b
      ensures Mul(n, a) <= Mul(n, b)
    {
      MulCommutes(n, a);
      MulCommutes(n, b);
      MulAdd(a, b - a, n);
    }

    /** The smallest size that is at least the wanted one, aligned and small. */
    function Least(wanted: nat): nat {
      var w := if alignDouble then Even(wanted + 1) else wanted;
      if w > maxObjWords then maxObjWords else w
    }

    /** The size to use, from the one wanted: even if doubles have to be aligned, small, and the largest of which as
        many fit into a block. */
    method ChooseSize(wanted: nat) returns (word: nat)
      requires Parameters() && 1 <= wanted
      ensures 1 <= word <= maxObjWords && (wanted <= maxObjWords ==> wanted <= word)
      ensures wanted > maxObjWords ==> word == maxObjWords
      ensures alignDouble ==> word % 2 == 0
      ensures Div(bodyWords, word) == Div(bodyWords, Least(wanted))
      ensures forall v :: v > word && (alignDouble ==> v % 2 == 0) ==> Div(bodyWords, v) < Div(bodyWords, word)
      ensures Div(bodyWords, word) >= Div(bodyWords, wanted + 1)
    {
      if wanted <= maxObjWords {
        FewerLarger(Least(wanted), wanted + 1);
      } else {
        FewerLarger(maxObjWords, wanted + 1);
      }
      word := wanted;
      if alignDouble {
        word := Even(word + 1);
      }
      if word > maxObjWords {
        word := maxObjWords;
      }
      ghost var w := word;
      SameNumberIsLargest(word);
      word := SameNumber(word);
      if alignDouble {
        word := Even(word);
        SameNumberBetween(w, word, SameNumber(w));
      }
    }

    /** Sizes between two that fit the same number of times fit as often. */
    lemma SameNumberBetween(a: nat, b: nat, c: nat)
      requires 1 <= a <= b <= c && Div(bodyWords, a) == Div(bodyWords, c)
      ensures Div(bodyWords, b) == Div(bodyWords, a)
    {
      FewerLarger(a, b);
      FewerLarger(b, c);
    }

    lemma FewerLarger(a: nat, b: nat)
      requires 1 <= a <= b
      ensures Div(bodyWords, b) <= Div(bodyWords, a)
    {
      var m, n := Div(bodyWords, a), Div(bodyWords, b);
      DivMod(bodyWords, a);
      DivMod(bodyWords, b);
      if n > m {
        MulMore(m, n, a);
        MulIncreases(n, a, b);
      }
    }

    lemma EighthOfBytes(words: nat)
      ensures Bytes(words / 8) <= Bytes(words) / 8
    {
      var k := words / 8;
      MulAdd(k, k, bytesPerWord);
      MulAdd(2 * k, 2 * k, bytesPerWord);
      MulAdd(4 * k, 4 * k, bytesPerWord);
      MoreWords(8 * k, words);
    }

    /** There is no entry for requests an eighth smaller than that many bytes. */
    ghost predicate NoneClose(entries: seq<nat>, bytes: nat) {
      bytes - bytes / 8 < |entries| && entries[bytes - bytes / 8] == 0
    }

    /** Where to look for the first request to be served. */
    function From(bytes: nat, noneClose: bool): nat {
      if noneClose then bytes - bytes / 4 else bytes - bytes / 8 + 1
    }

    /** A size, and the first of the requests that it shall serve.  Either the size is that of request i, and serves all
        requests from some one on that is an eighth smaller; or there is an entry for that one, and the size is an
        eighth more than that of the first request that it serves. */
    method ChooseRange(i: nat) returns (low: nat, wanted: nat)
      requires Valid() && i + extra <= Bytes(maxObjWords) && sizes[i] == 0
      ensures var orig := RoundedUp(i);
              var noneClose := NoneClose(sizes[..], Bytes(orig));
              && From(Bytes(orig), noneClose) <= low <= i && sizes[low] == 0
              && (forall j :: From(Bytes(orig), noneClose) <= j < low ==> sizes[j] != 0)
              && orig <= wanted <= orig + orig / 8 && (noneClose ==> wanted == orig)
      ensures low + Bytes(RoundedUp(low) / 8) <= Bytes(wanted)
    {
      RoundsUp(i);
      RoundedIsLeast(i, maxObjWords);
      assert EntryOk(i) && i > 16 * bytesPerWord;
      var orig := RoundedUp(i);
      wanted := orig;
      var smaller, muchSmaller := Bytes(orig) - Bytes(orig) / 8, Bytes(orig) - Bytes(orig) / 4;
      if sizes[smaller] == 0 {
        low := FirstZero(muchSmaller, i);
        RoundsUp(low);
        RoundedIsLeast(low, orig);
        EighthOfBytes(RoundedUp(low));
        MoreWords(RoundedUp(low), orig);
      } else {
        low := FirstZero(smaller + 1, i);
        wanted := RoundedUp(low) + RoundedUp(low) / 8;
        RoundsUp(low);
        MulAdd(RoundedUp(low), RoundedUp(low) / 8, bytesPerWord);
        RoundedIsLeast(low, orig);
        if wanted < orig {
          wanted := orig;
        }
        MoreWords(RoundedUp(low) + RoundedUp(low) / 8, wanted);
      }
    }

    /** GC_extend_size_map, for a request for which there is no entry yet.  All requests from about three quarters of
        this one to the size that is chosen have an entry then; the size is that of the request, or little more, and
        serves a range of an eighth of it, so that there are few sizes. */
    method ExtendSizeMap(i: nat)
      requires Valid() && i + extra <= Bytes(maxObjWords) && sizes[i] == 0
      modifies sizes
      ensures Valid() && sizes[i] != 0
      ensures forall j :: 0 <= j < sizes.Length && old(sizes[j]) != 0 ==> sizes[j] != 0
      ensures forall j :: 0 <= j < sizes.Length && sizes[j] != old(sizes[j]) ==> sizes[j] == sizes[i]
      ensures forall j :: i <= j < sizes.Length && j + extra <= Bytes(sizes[i]) ==> sizes[j] == sizes[i]
      ensures Div(bodyWords, sizes[i]) >= Div(bodyWords, RoundedUp(i) + RoundedUp(i) / 8 + 1)
      ensures alignDouble ==> sizes[i] % 2 == 0
      ensures forall v :: v > sizes[i] && (alignDouble ==> v % 2 == 0) ==> Div(bodyWords, v) < Div(bodyWords, sizes[i])
      ensures var bytes := Bytes(RoundedUp(i));
              var noneClose := NoneClose(old(sizes[..]), bytes);
              && (noneClose ==> Div(bodyWords, sizes[i]) == Div(bodyWords, Least(RoundedUp(i))))
              && (forall j :: From(bytes, noneClose) <= j <= i && j < sizes.Length ==> sizes[j] != 0)
              && (forall j :: 0 <= j < sizes.Length && sizes[j] != old(sizes[j]) ==> From(bytes, noneClose) <= j)
      ensures exists low :: 0 <= low <= i && old(sizes[low]) == 0 && sizes[low] == sizes[i] &&
                            (forall j :: 0 <= j < low ==> sizes[j] == old(sizes[j])) &&
                            (sizes[i] == maxObjWords || low + Bytes(RoundedUp(low) / 8) <= Bytes(sizes[i]))
    {
      RoundsUp(i);
      RoundedIsLeast(i, maxObjWords);
      var low, wanted := ChooseRange(i);
      FewerLarger(wanted + 1, RoundedUp(i) + RoundedUp(i) / 8 + 1);
      var word := ChooseSize(wanted);
      if wanted <= maxObjWords {
        MoreWords(wanted, word);
      }
      MoreWords(RoundedUp(i), word);
      MoreWords(word, maxObjWords);
      FillUp(low, Bytes(word) - extra, word);
    }

    /** The first entry that is 0 from a place on. */
    method FirstZero(start: nat, i: nat) returns (low: nat)
      requires start <= i < sizes.Length && sizes[i] == 0
      ensures start <= low <= i && sizes[low] == 0 && forall j :: start <= j < low ==> sizes[j] != 0
    {
      low := start;
      while sizes[low] != 0
        invariant start <= low <= i && forall j :: start <= j < low ==> sizes[j] != 0
        decreases i - low
      {
        low := low + 1;
      }
    }

    method FillUp(low: nat, high: nat, word: nat)
      requires Valid() && word >= 1 && low <= high < sizes.Length && high + extra <= Bytes(word) && word <= maxObjWords
      modifies sizes
      ensures Valid() && forall j :: low <= j <= high ==> sizes[j] == word
      ensures forall j :: 0 <= j < sizes.Length && !(low <= j <= high) ==> sizes[j] == old(sizes[j])
    {
      var j := low;
      while j <= high
        invariant low <= j <= high + 1 && Valid()
        invariant forall l :: low <= l < j ==> sizes[l] == word
        invariant forall l :: 0 <= l < sizes.Length && !(low <= l < j) ==> sizes[l] == old(sizes[l])
      {
        Fill(j, word);
        j := j + 1;
      }
    }

    /** The size for a small request, as in GC_generic_malloc_inner: the map is extended at most once. */
    method SizeFor(bytes: nat) returns (words: nat)
      requires Valid() && bytes + extra <= Bytes(maxObjWords)
      modifies sizes
      ensures Valid() && 1 <= words && Serves(words, bytes) && sizes[bytes] == words
    {
      if sizes[bytes] == 0 {
        ExtendSizeMap(bytes);
      }
      assert EntryOk(bytes);
      words := sizes[bytes];
    }
  }
}
