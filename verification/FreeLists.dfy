/** Building the free list of a new block (boehmgc/src/new_hblk.c): a general loop, and unrolled ones for small
    sizes. */
module FreeLists {
  import opened Arithmetic

  /** What has to be in the link word of object k of a block at the given word address. */
  function LinkOf(base: nat, size: nat, k: nat, rest: nat): nat {
    if k == 0 then rest else base + Mul(k - 1, size)
  }

  /** Number of whole objects in a block. */
  function Number(words: nat, size: nat): nat
    requires size >= 1
  {
    Div(words, size)
  }

  /** The first n objects of the block m are linked, the last first, in front of the list rest. */
  ghost predicate LinkedUpTo(m: seq<nat>, base: nat, size: nat, rest: nat, n: nat) {
    forall k: nat {:trigger Linked(m, base, size, rest, k)} :: k < n ==> Linked(m, base, size, rest, k)
  }

  ghost predicate Linked(m: seq<nat>, base: nat, size: nat, rest: nat, k: nat) {
    Mul(k, size) < |m| && m[Mul(k, size)] == LinkOf(base, size, k, rest)
  }

  /** Apart from their link words the first n objects are zero. */
  ghost predicate ClearedUpTo(m: seq<nat>, size: nat, n: nat) {
    forall k: nat, d: nat {:trigger Cleared(m, size, k, d)} :: k < n && 0 < d < size ==> Cleared(m, size, k, d)
  }

  ghost predicate Cleared(m: seq<nat>, size: nat, k: nat, d: nat) {
    Mul(k, size) + d < |m| && m[Mul(k, size) + d] == 0
  }

  /** What every way to build a free list for objects of a size comes to. */
  ghost predicate Built(m: seq<nat>, base: nat, size: nat, clear: bool, rest: nat)
    requires size >= 1
  {
    var n := Number(|m|, size);
    LinkedUpTo(m, base, size, rest, n) && (clear ==> ClearedUpTo(m, size, n))
  }

  /** The address of the last whole object. */
  function Head(words: nat, base: nat, size: nat): nat
    requires 1 <= size <= words
  {
    base + Mul(Number(words, size) - 1, size)
  }

  // ---- What a built list is ----

  /** The address reached from address a by following links of the block, as long as they lead into it. */
  function Follow(m: seq<nat>, base: nat, a: nat, steps: nat): nat
    decreases steps
  {
    if steps == 0 then a
    else if base <= a < base + |m| then Follow(m, base, m[a - base], steps - 1)
    else a
  }

  /** Following the links from the head visits all whole objects of the block, each once, in descending order of
      their addresses, and then comes to the old list. */
  lemma BuiltIsList(m: seq<nat>, base: nat, size: nat, clear: bool, rest: nat)
    requires 1 <= size <= |m| && Built(m, base, size, clear, rest)
    ensures var n, head := Number(|m|, size), Head(|m|, base, size);
            && (forall k: nat :: k < n ==> Follow(m, base, head, k) == base + Mul(n - 1 - k, size))
            && (forall k: nat, l: nat :: k < l < n ==> Follow(m, base, head, l) + size <= Follow(m, base, head, k))
            && Follow(m, base, head, n) == rest
            && Mul(n, size) <= |m| < Mul(n, size) + size
  {
    var n, head := Number(|m|, size), Head(|m|, base, size);
    forall k: nat | k < n
      ensures Follow(m, base, head, k) == base + Mul(n - 1 - k, size)
    {
      FollowFrom(m, base, size, rest, n, n - 1, k);
    }
    forall k: nat, l: nat | k < l < n
      ensures Follow(m, base, head, l) + size <= Follow(m, base, head, k)
    {
      MulMore(n - 1 - l, n - 1 - k, size);
    }
    FollowFrom(m, base, size, rest, n, n - 1, n);
    DivMod(|m|, size);
  }

  /** From object i, steps links lead to the object that many places before it, or to the rest. */
  lemma {:induction false} FollowFrom(m: seq<nat>, base: nat, size: nat, rest: nat, n: nat, i: nat, steps: nat)
    requires LinkedUpTo(m, base, size, rest, n) && i < n && steps <= i + 1
    ensures Follow(m, base, base + Mul(i, size), steps) == if steps <= i then base + Mul(i - steps, size) else rest
    decreases i
  {
    if steps > 0 {
      assert Linked(m, base, size, rest, i);
      if i > 0 {
        FollowFrom(m, base, size, rest, n, i - 1, steps - 1);
      }
    }
  }

  // ---- Unrolled loops ----

  /** GC_build_fl1. */
  method BuildFl1(b: array<nat>, base: nat, rest: nat) returns (head: nat)
    requires b.Length >= 4 && b.Length % 4 == 0
    modifies b
    ensures Built(b[..], base, 1, true, rest) && head == Head(b.Length, base, 1)
  {
    b[0], b[1], b[2], b[3] := rest, base, base + 1, base + 2;
    var p: nat := 4;
    while p < b.Length
      invariant 4 <= p <= b.Length && p % 4 == 0
      invariant b[0] == rest && forall k :: 1 <= k < p ==> b[k] == base + (k - 1)
    {
      b[p], b[p + 1], b[p + 2], b[p + 3] := base + p - 1, base + p, base + p + 1, base + p + 2;
      p := p + 4;
    }
    head := base + p - 1;
    forall k: nat | k <= p
      ensures Mul(k, 1) == k
    {
      MulIs(k, 1);
    }
    Quotient(b.Length, 0, 1);
    assert forall k: nat :: k < p ==> Linked(b[..], base, 1, rest, k);
  }

  /** The first n objects are as they should be. */
  ghost predicate Begun(m: seq<nat>, base: nat, size: nat, rest: nat, n: nat, clear: bool) {
    LinkedUpTo(m, base, size, rest, n) && (clear ==> ClearedUpTo(m, size, n))
  }

  /** Object n is as it should be. */
  ghost predicate Done(m: seq<nat>, base: nat, size: nat, rest: nat, n: nat, clear: bool) {
    && Linked(m, base, size, rest, n)
    && (clear ==> forall d: nat {:trigger Cleared(m, size, n, d)} :: 0 < d < size ==> Cleared(m, size, n, d))
  }

  /** One more object: what comes before it is as it was. */
  lemma OneMore(m: seq<nat>, m': seq<nat>, base: nat, size: nat, rest: nat, n: nat, clear: bool)
    requires Begun(m, base, size, rest, n, clear) && |m'| == |m| && size >= 1
    requires forall k :: 0 <= k < |m| && k < Mul(n, size) ==> m'[k] == m[k]
    requires Done(m', base, size, rest, n, clear)
    ensures Begun(m', base, size, rest, n + 1, clear)
  {
    forall k: nat | k < n + 1
      ensures Linked(m', base, size, rest, k)
    {
      if k < n {
        assert Linked(m, base, size, rest, k);
        MulMore(k, n, size);
      }
    }
    forall k: nat, d: nat | clear && k < n + 1 && 0 < d < size
      ensures Cleared(m', size, k, d)
    {
      if k < n {
        StillCleared(m, m', size, k, n, d);
      }
    }
  }

  lemma StillCleared(m: seq<nat>, m': seq<nat>, size: nat, k: nat, n: nat, d: nat)
    requires ClearedUpTo(m, size, n) && k < n && 0 < d < size && |m'| == |m|
    requires forall j :: 0 <= j < |m| && j < Mul(n, size) ==> m'[j] == m[j]
    ensures Cleared(m', size, k, d)
  {
    assert Cleared(m, size, k, d);
    MulMore(k, n, size);
  }

  /** Two more objects. */
  lemma TwoMore(m: seq<nat>, m': seq<nat>, base: nat, size: nat, rest: nat, n: nat, clear: bool)
    requires Begun(m, base, size, rest, n, clear) && |m'| == |m| && size >= 1
    requires forall k :: 0 <= k < |m| && k < Mul(n, size) ==> m'[k] == m[k]
    requires Done(m', base, size, rest, n, clear) && Done(m', base, size, rest, n + 1, clear)
    ensures Begun(m', base, size, rest, n + 2, clear)
  {
    OneMore(m, m', base, size, rest, n, clear);
    OneMore(m', m', base, size, rest, n + 1, clear);
  }

  /** A block of n objects, and no room for another, is done. */
  lemma AllDone(m: seq<nat>, base: nat, size: nat, rest: nat, n: nat, clear: bool)
    requires Begun(m, base, size, rest, n, clear) && 1 <= size && n >= 1
    requires Mul(n, size) <= |m| < Mul(n, size) + size
    ensures size <= |m| && Built(m, base, size, clear, rest) && Head(|m|, base, size) == base + Mul(n - 1, size)
    ensures Number(|m|, size) == n
  {
    Quotient(n, |m| - Mul(n, size), size);
    assert Mul(n, size) == Mul(n - 1, size) + size;
  }

  /** Words that are not the first of an object are as they were. */
  ghost predicate OthersKept(m: seq<nat>, m': seq<nat>, size: nat)
    requires size >= 1
  {
    |m'| == |m| && forall j: nat {:trigger m'[j]} :: j < |m| && Mod(j, size) != 0 ==> m'[j] == m[j]
  }

  /** Setting the link words of objects k and k + 1. */
  lemma LinksSet(m: seq<nat>, m': seq<nat>, m'': seq<nat>, size: nat, k: nat)
    requires size >= 1 && OthersKept(m, m', size) && |m''| == |m'|
    requires forall j: nat {:trigger m''[j]} :: j < |m'| && j != Mul(k, size) && j != Mul(k + 1, size) ==>
               m''[j] == m'[j]
    ensures OthersKept(m, m'', size)
  {
    Quotient(k, 0, size);
    Quotient(k + 1, 0, size);
  }

  /** GC_build_fl_clear2. */
  method BuildFlClear2(b: array<nat>, base: nat, rest: nat) returns (head: nat)
    requires b.Length >= 4 && b.Length % 4 == 0
    modifies b
    ensures Built(b[..], base, 2, true, rest) && head == Head(b.Length, base, 2)
  {
    b[0], b[1], b[2], b[3] := rest, 0, base, 0;
    var p: nat := 4;
    ghost var n: nat := 2;
    TwoMore(b[..], b[..], base, 2, rest, 0, true);
    while p < b.Length
      invariant 4 <= p <= b.Length && p % 4 == 0 && p == Mul(n, 2) && n >= 2
      invariant Begun(b[..], base, 2, rest, n, true)
    {
      ghost var m := b[..];
      b[p], b[p + 1], b[p + 2], b[p + 3] := base + p - 2, 0, base + p, 0;
      TwoMore(m, b[..], base, 2, rest, n, true);
      p := p + 4;
      n := n + 2;
    }
    head := base + p - 2;
    AllDone(b[..], base, 2, rest, n, true);
  }

  /** GC_build_fl2. */
  method BuildFl2(b: array<nat>, base: nat, rest: nat) returns (head: nat)
    requires b.Length >= 4 && b.Length % 4 == 0
    modifies b
    ensures Built(b[..], base, 2, false, rest) && head == Head(b.Length, base, 2)
    ensures OthersKept(old(b[..]), b[..], 2)
  {
    b[0], b[2] := rest, base;
    LinksSet(old(b[..]), old(b[..]), b[..], 2, 0);
    var p: nat := 4;
    ghost var n: nat := 2;
    TwoMore(b[..], b[..], base, 2, rest, 0, false);
    while p < b.Length
      invariant 4 <= p <= b.Length && p % 4 == 0 && p == Mul(n, 2) && n >= 2
      invariant Begun(b[..], base, 2, rest, n, false) && OthersKept(old(b[..]), b[..], 2)
    {
      ghost var m := b[..];
      b[p], b[p + 2] := base + p - 2, base + p;
      LinksSet(old(b[..]), m, b[..], 2, n);
      TwoMore(m, b[..], base, 2, rest, n, false);
      p := p + 4;
      n := n + 2;
    }
    head := base + p - 2;
    AllDone(b[..], base, 2, rest, n, false);
  }

  /** GC_build_fl_clear3: the block may have one or two words left over. */
  method BuildFlClear3(b: array<nat>, base: nat, rest: nat) returns (head: nat)
    requires b.Length >= 3
    modifies b
    ensures Built(b[..], base, 3, true, rest) && head == Head(b.Length, base, 3)
  {
    b[0], b[1], b[2] := rest, 0, 0;
    var p: nat := 3;
    ghost var n: nat := 1;
    OneMore(b[..], b[..], base, 3, rest, 0, true);
    while p < b.Length - 2
      invariant 3 <= p <= b.Length && p == Mul(n, 3) && n >= 1 && Begun(b[..], base, 3, rest, n, true)
    {
      ghost var m := b[..];
      b[p], b[p + 1], b[p + 2] := base + p - 3, 0, 0;
      OneMore(m, b[..], base, 3, rest, n, true);
      p := p + 3;
      n := n + 1;
    }
    head := base + p - 3;
    AllDone(b[..], base, 3, rest, n, true);
  }

  /** GC_build_fl_clear4. */
  method BuildFlClear4(b: array<nat>, base: nat, rest: nat) returns (head: nat)
    requires b.Length >= 4 && b.Length % 4 == 0
    modifies b
    ensures Built(b[..], base, 4, true, rest) && head == Head(b.Length, base, 4)
  {
    b[0], b[1], b[2], b[3] := rest, 0, 0, 0;
    var p: nat := 4;
    ghost var n: nat := 1;
    OneMore(b[..], b[..], base, 4, rest, 0, true);
    while p < b.Length
      invariant 4 <= p <= b.Length && p % 4 == 0 && p == Mul(n, 4) && n >= 1
      invariant Begun(b[..], base, 4, rest, n, true)
    {
      ghost var m := b[..];
      b[p], b[p + 1], b[p + 2], b[p + 3] := base + p - 4, 0, 0, 0;
      OneMore(m, b[..], base, 4, rest, n, true);
      p := p + 4;
      n := n + 1;
    }
    head := base + p - 4;
    AllDone(b[..], base, 4, rest, n, true);
  }

  /** GC_build_fl4. */
  method BuildFl4(b: array<nat>, base: nat, rest: nat) returns (head: nat)
    requires b.Length >= 8 && b.Length % 8 == 0
    modifies b
    ensures Built(b[..], base, 4, false, rest) && head == Head(b.Length, base, 4)
    ensures OthersKept(old(b[..]), b[..], 4)
  {
    b[0], b[4] := rest, base;
    LinksSet(old(b[..]), old(b[..]), b[..], 4, 0);
    var p: nat := 8;
    ghost var n: nat := 2;
    TwoMore(b[..], b[..], base, 4, rest, 0, false);
    while p < b.Length
      invariant 8 <= p <= b.Length && p % 8 == 0 && p == Mul(n, 4) && n >= 2
      invariant Begun(b[..], base, 4, rest, n, false) && OthersKept(old(b[..]), b[..], 4)
    {
      ghost var m := b[..];
      b[p], b[p + 4] := base + p - 4, base + p;
      LinksSet(old(b[..]), m, b[..], 4, n);
      TwoMore(m, b[..], base, 4, rest, n, false);
      p := p + 8;
      n := n + 2;
    }
    head := base + p - 4;
    AllDone(b[..], base, 4, rest, n, false);
  }

  // ---- The general loop ----

  /** GC_build_fl, for any size. */
  method BuildFlGeneral(b: array<nat>, base: nat, size: nat, clear: bool, rest: nat) returns (head: nat)
    requires 1 <= size <= b.Length
    modifies b
    ensures Built(b[..], base, size, clear, rest) && head == Head(b.Length, base, size)
    ensures clear ==> forall k {:trigger b[k]} :: Mul(Number(b.Length, size), size) <= k < b.Length ==> b[k] == 0
    ensures !clear ==> OthersKept(old(b[..]), b[..], size)
  {
    if clear {
      forall k | 0 <= k < b.Length {
        b[k] := 0;
      }
    }
    var p, prev := size, 0;
    ghost var n: nat := 1;
    ghost var blank := b[..];
    ghost var rest0 := b[0];
    OneMore(b[..], b[..], base, size, rest0, 0, clear);
    while p <= b.Length - size
      invariant p == Mul(n, size) && prev == Mul(n - 1, size) && n >= 1 && b.Length == |blank|
      invariant Begun(b[..], base, size, rest0, n, clear) && p <= b.Length && b[0] == rest0
      invariant clear ==> forall k :: prev < k < b.Length ==> b[k] == 0
      invariant !clear ==> OthersKept(old(b[..]), b[..], size)
    {
      ghost var m := b[..];
      b[p] := base + prev;
      if !clear {
        LinksSet(old(b[..]), m, b[..], size, n);
      }
      OneMore(m, b[..], base, size, rest0, n, clear);
      prev := p;
      p := p + size;
      n := n + 1;
    }
    p := p - size;
    ghost var m := b[..];
    b[0] := rest;
    if !clear {
      LinksSet(old(b[..]), m, b[..], size, 0);
    }
    head := base + p;
    Relinked(m, b[..], base, size, rest0, rest, n, clear);
    AllDone(b[..], base, size, rest, n, clear);
  }

  /** The link of the first object is set last. */
  lemma Relinked(m: seq<nat>, m': seq<nat>, base: nat, size: nat, before: nat, rest: nat, n: nat, clear: bool)
    requires Begun(m, base, size, before, n, clear) && size >= 1 && |m| >= 1 && m' == m[0 := rest] && n >= 1
    ensures Begun(m', base, size, rest, n, clear)
  {
    forall k: nat | k < n
      ensures Linked(m', base, size, rest, k)
    {
      assert Linked(m, base, size, before, k);
    }
    forall k: nat, d: nat | clear && k < n && 0 < d < size
      ensures Cleared(m', size, k, d)
    {
      assert Cleared(m, size, k, d);
    }
  }

  /** GC_build_fl: whichever loop is taken, the free list is the same. */
  method BuildFl(b: array<nat>, base: nat, size: nat, clear: bool, rest: nat) returns (head: nat)
    requires 1 <= size <= b.Length && b.Length >= 8 && b.Length % 8 == 0
    modifies b
    ensures Built(b[..], base, size, clear, rest) && head == Head(b.Length, base, size)
    ensures !clear ==> OthersKept(old(b[..]), b[..], size)
  {
    match size
    case 1 =>
      forall j: nat | j < b.Length
        ensures Mod(j, 1) == 0
      {
        MulIs(j, 1);
        Quotient(j, 0, 1);
      }
      head := BuildFl1(b, base, rest);
    case 2 =>
      if clear {
        head := BuildFlClear2(b, base, rest);
      } else {
        head := BuildFl2(b, base, rest);
      }
    case 4 =>
      if clear {
        head := BuildFlClear4(b, base, rest);
      } else {
        head := BuildFl4(b, base, rest);
      }
    case _ =>
      if size == 3 && clear {
        head := BuildFlClear3(b, base, rest);
      } else {
        head := BuildFlGeneral(b, base, size, clear, rest);
      }
  }
}
