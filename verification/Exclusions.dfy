/** Excluded ranges of static roots (boehmgc/src/mark_rts.c): a sorted table that is searched by bisection. */
module Exclusions {

  /** struct exclusion: the addresses from start up to end. */
  datatype Range = Range(start: nat, end: nat) {
    predicate Has(a: nat) {
      start <= a < end
    }
  }

  predicate InSome(s: seq<Range>, a: nat) {
    exists i :: 0 <= i < |s| && s[i].Has(a)
  }

  /** Ascending and disjoint; ranges may be empty. */
  predicate Sorted(s: seq<Range>) {
    && (forall i :: 0 <= i < |s| ==> s[i].start <= s[i].end)
    && (forall i, j :: 0 <= i < j < |s| ==> s[i].end <= s[j].start)
  }

  /** Range k is the first that ends above a; it is |s| if there is none. */
  predicate IsFirstAbove(s: seq<Range>, a: nat, k: nat) {
    && k <= |s|
    && (forall j :: 0 <= j < k ==> s[j].end <= a)
    && (k < |s| ==> s[k].end > a)
  }

  /** The range meets or touches, with more than an end point, one of the table. */
  predicate Clashes(s: seq<Range>, start: nat, finish: nat) {
    exists k :: 0 <= k < |s| && s[k].end > start && s[k].start < finish
  }

  /** The table with one more range before place k, or range k extended backwards. */
  function Extended(s: seq<Range>, k: nat, start: nat, finish: nat): seq<Range>
    requires k <= |s|
  {
    if k < |s| && s[k].start == finish then s[k := Range(start, s[k].end)]
    else s[..k] + [Range(start, finish)] + s[k..]
  }

  lemma ExtendedIsSorted(s: seq<Range>, k: nat, start: nat, finish: nat)
    requires Sorted(s) && start <= finish && IsFirstAbove(s, start, k) && (k < |s| ==> s[k].start >= finish)
    ensures Sorted(Extended(s, k, start, finish))
  {
    var s' := Extended(s, k, start, finish);
    var d := |s'| - |s|;
    forall i, j | 0 <= i < j < |s'|
      ensures s'[i].end <= s'[j].start
    {
      if i < k {
        assert s'[i] == s[i];
      } else if i > k {
        assert s'[i] == s[i - d] && s'[j] == s[j - d];
      } else {
        assert s'[j] == s[j - d];
        assert k < j - d ==> s[k].end <= s[j - d].start;
      }
      if i < k < j {
        assert s'[j] == s[j - d];
      } else if i < j < k {
        assert s'[j] == s[j];
      }
    }
  }

  lemma InsertedHas(s: seq<Range>, k: nat, r: Range, a: nat)
    requires k <= |s|
    ensures InSome(s[..k] + [r] + s[k..], a) <==> InSome(s, a) || r.Has(a)
  {
    var s' := s[..k] + [r] + s[k..];
    if i :| 0 <= i < |s| && s[i].Has(a) {
      assert s'[if i < k then i else i + 1] == s[i];
    }
    assert s'[k] == r;
    if i :| 0 <= i < |s'| && s'[i].Has(a) && i != k {
      assert s[if i < k then i else i - 1] == s'[i];
    }
  }

  lemma BackwardsHas(s: seq<Range>, k: nat, start: nat, a: nat)
    requires k < |s| && start <= s[k].start <= s[k].end
    ensures InSome(s[k := Range(start, s[k].end)], a) <==> InSome(s, a) || start <= a < s[k].start
  {
    var s' := s[k := Range(start, s[k].end)];
    if i :| 0 <= i < |s| && s[i].Has(a) {
      assert s'[i].Has(a);
    }
    if start <= a < s[k].start {
      assert s'[k].Has(a);
    }
    if i :| 0 <= i < |s'| && s'[i].Has(a) {
      assert s[i].Has(a) || i == k;
    }
  }

  lemma ExtendedHas(s: seq<Range>, k: nat, start: nat, finish: nat)
    requires Sorted(s) && start <= finish && IsFirstAbove(s, start, k) && (k < |s| ==> s[k].start >= finish)
    ensures forall a: nat :: InSome(Extended(s, k, start, finish), a) <==> InSome(s, a) || start <= a < finish
  {
    forall a: nat
      ensures InSome(Extended(s, k, start, finish), a) <==> InSome(s, a) || start <= a < finish
    {
      if k < |s| && s[k].start == finish {
        BackwardsHas(s, k, start, a);
      } else {
        InsertedHas(s, k, Range(start, finish), a);
      }
    }
  }

  /** A range is refused exactly if it clashes: for a sorted table, looking at one neighbour is enough. */
  lemma OneNeighbourIsEnough(s: seq<Range>, k: nat, start: nat, finish: nat)
    requires Sorted(s) && IsFirstAbove(s, start, k)
    ensures Clashes(s, start, finish) <==> k < |s| && s[k].start < finish
  {
    if j :| 0 <= j < |s| && s[j].end > start && s[j].start < finish {
      assert k <= j;
      assert k < j ==> s[k].end <= s[j].start;
    }
  }

  class ExclusionTable {
    const table: array<Range>      // GC_excl_table
    var entries: nat               // GC_excl_table_entries

    ghost predicate Valid()
      reads this, table
    {
      entries <= table.Length && Sorted(Contents())
    }

    ghost function Contents(): seq<Range>
      reads this, table
      requires entries <= table.Length
    {
      table[..entries]
    }

    constructor (max: nat)
      ensures Valid() && Contents() == [] && table.Length == max && fresh(table)
    {
      table := new Range[max](_ => Range(0, 0));
      entries := 0;
    }

    /** GC_next_exclusion: the first range that ends above a, or no range of the table. */
    method NextExclusion(a: nat) returns (k: nat)
      requires Valid() && entries >= 1
      ensures IsFirstAbove(Contents(), a, k)
    {
      var low, high := 0, entries - 1;
      while high > low
        invariant 0 <= low <= high < entries
        invariant forall j :: 0 <= j < low ==> table[j].end <= a
        invariant high < entries - 1 ==> table[high].end > a
      {
        var mid := (low + high) / 2;
        if table[mid].end <= a {
          assert forall j :: 0 <= j < mid ==> Contents()[j].end <= Contents()[mid].start;
          low := mid + 1;
        } else {
          high := mid;
        }
      }
      k := if table[low].end <= a then entries else low;
    }

    /** GC_exclude_static_roots; ok is false where the original aborts because ranges overlap. */
    method Exclude(start: nat, finish: nat) returns (ok: bool)
      requires Valid() && entries < table.Length && start <= finish
      modifies this`entries, table
      ensures Valid()
      ensures ok <==> !Clashes(old(Contents()), start, finish)
      ensures !ok ==> Contents() == old(Contents())
      ensures ok ==> forall a: nat :: InSome(Contents(), a) <==> old(InSome(Contents(), a)) || start <= a < finish
    {
      ghost var before := Contents();
      var k := 0;
      if entries > 0 {
        k := NextExclusion(start);
      }
      OneNeighbourIsEnough(before, k, start, finish);
      if k < entries {
        if table[k].start < finish {
          return false;
        }
        if table[k].start == finish {
          table[k] := Range(start, table[k].end);
          assert Contents() == Extended(before, k, start, finish);
          ExtendedIsSorted(before, k, start, finish);
          ExtendedHas(before, k, start, finish);
          return true;
        }
      }
      InsertAt(k, Range(start, finish));
      ExtendedIsSorted(before, k, start, finish);
      ExtendedHas(before, k, start, finish);
      ok := true;
    }

    /** Moving the ranges from place k on up, and a new one in. */
    method InsertAt(k: nat, r: Range)
      requires k <= entries < table.Length
      modifies this`entries, table
      ensures entries == old(entries) + 1
      ensures Contents() == old(Contents())[..k] + [r] + old(Contents())[k..]
    {
      var i := entries;
      while i > k
        invariant k <= i <= entries && entries == old(entries)
        invariant table[..i] == old(Contents())[..i]
        invariant forall j :: i < j <= entries ==> table[j] == old(Contents())[j - 1]
      {
        table[i] := table[i - 1];
        i := i - 1;
      }
      table[k] := r;
      entries := entries + 1;
    }

    /** GC_push_conditional_with_exclusions: the ranges pushed, in order. */
    method PushWithExclusions(bottom: nat, top: nat) returns (pushed: seq<Range>)
      requires Valid() && entries >= 1
      ensures Sorted(pushed) && forall i :: 0 <= i < |pushed| ==> pushed[i].start < pushed[i].end
      ensures forall a: nat :: InSome(pushed, a) <==> bottom <= a < top && !InSome(Contents(), a)
    {
      pushed := [];
      var b := bottom;
      while b < top
        invariant bottom <= b || top <= bottom
        invariant Sorted(pushed) && forall i :: 0 <= i < |pushed| ==> pushed[i].start < pushed[i].end <= b
        invariant forall a: nat :: InSome(pushed, a) <==> bottom <= a < b && a < top && !InSome(Contents(), a)
        decreases top - b
      {
        var k := NextExclusion(b);
        if k == entries || table[k].start >= top {
          Gap(Contents(), b, k, top);
          Pushed(pushed, Range(b, top));
          return pushed + [Range(b, top)];
        }
        Gap(Contents(), b, k, table[k].start);
        if table[k].start > b {
          Pushed(pushed, Range(b, table[k].start));
          pushed := pushed + [Range(b, table[k].start)];
        }
        assert forall a: nat :: table[k].Has(a) ==> Contents()[k].Has(a);
        b := table[k].end;
      }
    }
  }

  /** Nothing is excluded between b and the first range that ends above it. */
  lemma Gap(s: seq<Range>, b: nat, k: nat, end: nat)
    requires Sorted(s) && IsFirstAbove(s, b, k) && (k < |s| ==> end <= s[k].start)
    ensures forall a: nat :: b <= a < end ==> !InSome(s, a)
  {
    forall a: nat | b <= a < end
      ensures !InSome(s, a)
    {
      forall i | 0 <= i < |s|
        ensures !s[i].Has(a)
      {
        assert k < i ==> s[k].end <= s[i].start;
      }
    }
  }

  lemma Pushed(s: seq<Range>, r: Range)
    ensures forall a: nat :: InSome(s + [r], a) <==> InSome(s, a) || r.Has(a)
  {
    forall a: nat
      ensures InSome(s + [r], a) <==> InSome(s, a) || r.Has(a)
    {
      if i :| 0 <= i < |s| && s[i].Has(a) {
        assert (s + [r])[i].Has(a);
      }
      if r.Has(a) {
        assert (s + [r])[|s|].Has(a);
      }
    }
  }
}
