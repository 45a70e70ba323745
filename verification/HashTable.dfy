/** The chained hash tables of boehmgc/src/finalize.c: a map from addresses to values, kept in buckets whose
    number doubles. */
module HashTable {

  /** A chain entry. */
  datatype Cell<V> = Cell(key: nat, value: V)

  function Pow2(n: nat): (r: nat)
    ensures r >= 1
  {
    if n == 0 then 1 else 2 * Pow2(n - 1)
  }

  /** Bitwise exclusive or. */
  function Xor(a: nat, b: nat): nat
    decreases a + b
  {
    if a == 0 && b == 0 then 0 else 2 * Xor(a / 2, b / 2) + (a % 2 + b % 2) % 2
  }

  /** Shift right by n bits. */
  function Shift(a: nat, n: nat): nat {
    if n == 0 then a else Shift(a / 2, n - 1)
  }

  /** HASH2: fold the address, then keep as many low bits as the table has. */
  function Hash(key: nat, log: nat): (h: nat)
    ensures h < Pow2(log)
  {
    Xor(Shift(key, 3), Shift(key, 3 + log)) % Pow2(log)
  }

  lemma ModTwice(a: nat, m: nat)
    requires m >= 1
    ensures a % (2 * m) == 2 * ((a / 2) % m) + a % 2
  {
    var q, r := (a / 2) / m, (a / 2) % m;
    assert a == (2 * m) * q + (2 * r + a % 2) by {
      assert a / 2 == m * q + r;
    }
    ModIs(a, 2 * m, q, 2 * r + a % 2);
  }

  lemma AtLeastOnce(m: nat, k: nat)
    requires k >= 1
    ensures m * k >= m
  {
  }

  lemma ModIs(a: nat, m: nat, q: nat, r: nat)
    requires r < m && a == m * q + r
    ensures a / m == q && a % m == r
  {
    var p := a / m;
    assert m * (p - q) == r - a % m;
    if p > q {
      AtLeastOnce(m, p - q);
    } else if q > p {
      AtLeastOnce(m, q - p);
    }
  }

  lemma SameHalves(x: nat, y: nat, m: nat)
    requires m >= 1
    ensures x % (2 * m) == y % (2 * m) <==> (x / 2) % m == (y / 2) % m && x % 2 == y % 2
  {
    ModTwice(x, m);
    ModTwice(y, m);
  }

  lemma XorHalves(a: nat, c: nat)
    ensures Xor(a, c) / 2 == Xor(a / 2, c / 2) && Xor(a, c) % 2 == (a % 2 + c % 2) % 2
  {
  }

  /** The n low bits are the same. */
  predicate SameBits(a: nat, b: nat, n: nat) {
    n > 0 ==> a % 2 == b % 2 && SameBits(a / 2, b / 2, n - 1)
  }

  lemma {:induction false} SameBitsIs(a: nat, b: nat, n: nat)
    ensures SameBits(a, b, n) <==> a % Pow2(n) == b % Pow2(n)
  {
    if n > 0 {
      SameBitsIs(a / 2, b / 2, n - 1);
      SameHalves(a, b, Pow2(n - 1));
    }
  }

  lemma {:induction false} XorKeepsApart(a: nat, b: nat, c: nat, n: nat)
    requires SameBits(Xor(a, c), Xor(b, c), n)
    ensures SameBits(a, b, n)
  {
    if n > 0 {
      XorHalves(a, c);
      XorHalves(b, c);
      XorKeepsApart(a / 2, b / 2, c / 2, n - 1);
    }
  }

  lemma {:induction false} ShiftIs(a: nat, n: nat)
    ensures Shift(a, n) == a / Pow2(n)
  {
    if n > 0 {
      ShiftIs(a / 2, n - 1);
      DivTwice(a, Pow2(n - 1));
    }
  }

  lemma DivTwice(a: nat, m: nat)
    requires m >= 1
    ensures a / 2 / m == a / (2 * m)
  {
    ModTwice(a, m);
  }

  lemma {:induction false} ShiftTwice(a: nat, n: nat, l: nat)
    ensures Shift(a, n + l) == Shift(Shift(a, n), l)
  {
    if n > 0 {
      ShiftTwice(a / 2, n - 1, l);
    }
  }

  lemma SameQuotient(x: nat, y: nat, m: nat)
    requires m >= 1 && x / m == y / m && x % m == y % m
    ensures x == y
  {
    assert x == m * (x / m) + x % m;
  }

  /** Objects less than a table's worth of 8-byte units apart, between two multiples of that, get different buckets. */
  lemma NeighboursDiffer(a: nat, b: nat, log: nat)
    requires Shift(a, 3 + log) == Shift(b, 3 + log) && Hash(a, log) == Hash(b, log)
    ensures Shift(a, 3) == Shift(b, 3)
  {
    var x, y, m := Shift(a, 3), Shift(b, 3), Pow2(log);
    ShiftTwice(a, 3, log);
    ShiftTwice(b, 3, log);
    ShiftIs(x, log);
    ShiftIs(y, log);
    SameBitsIs(Xor(x, Shift(a, 3 + log)), Xor(y, Shift(a, 3 + log)), log);
    XorKeepsApart(x, y, Shift(a, 3 + log), log);
    SameBitsIs(x, y, log);
    SameQuotient(x, y, m);
  }

  /** A hash function, of a key and the logarithm of the number of buckets. */
  type HashFn = (nat, nat) -> nat

  ghost predicate Spreads(hash: HashFn) {
    forall k, log :: hash(k, log) < Pow2(log)
  }

  /** The cells of `heads` are exactly the pairs of `view`: each key once, in the bucket its hash gives. */
  ghost predicate Represents<V>(hash: HashFn, heads: seq<seq<Cell<V>>>, log: int, view: map<nat, V>) {
    && log >= -1 && |heads| == (if log == -1 then 0 else Pow2(log))
    && (forall i, j {:trigger InPlace(hash, heads, log, view, i, j)} :: 0 <= i < |heads| && 0 <= j < |heads[i]| ==>
          InPlace(hash, heads, log, view, i, j))
    && (forall i, j, l {:trigger Differ(heads, i, j, l)} :: 0 <= i < |heads| && 0 <= j < l < |heads[i]| ==>
          Differ(heads, i, j, l))
    && (forall k {:trigger Present(hash, heads, log, k)} :: k in view ==> Present(hash, heads, log, k))
  }

  ghost predicate Differ<V>(heads: seq<seq<Cell<V>>>, i: nat, j: nat, l: nat)
    requires i < |heads| && j < |heads[i]| && l < |heads[i]|
  {
    heads[i][j].key != heads[i][l].key
  }

  ghost predicate InPlace<V>(hash: HashFn, heads: seq<seq<Cell<V>>>, log: int, view: map<nat, V>, i: nat, j: nat)
    requires i < |heads| && j < |heads[i]|
  {
    var cell := heads[i][j];
    log >= 0 && cell.key in view && view[cell.key] == cell.value && hash(cell.key, log) == i
  }

  ghost predicate Present<V>(hash: HashFn, heads: seq<seq<Cell<V>>>, log: int, k: nat) {
    log >= 0 && hash(k, log) < |heads| &&
    exists j :: 0 <= j < |heads[hash(k, log)]| && heads[hash(k, log)][j].key == k
  }

  lemma Insert<V>(hash: HashFn, heads: seq<seq<Cell<V>>>, log: nat, view: map<nat, V>, k: nat, v: V)
    requires Spreads(hash) && Represents(hash, heads, log, view) && k !in view
    ensures hash(k, log) < |heads|
    ensures Represents(hash, heads[hash(k, log) := [Cell(k, v)] + heads[hash(k, log)]], log, view[k := v])
  {
    var b := hash(k, log);
    var chain' := [Cell(k, v)] + heads[b];
    var heads': seq<seq<Cell<V>>>, view' := heads[b := chain'], view[k := v];
    forall i, j | 0 <= i < |heads'| && 0 <= j < |heads'[i]|
      ensures InPlace(hash, heads', log, view', i, j)
    {
      if i != b {
        assert InPlace(hash, heads, log, view, i, j);
      } else if j > 0 {
        assert InPlace(hash, heads, log, view, b, j - 1);
      }
    }
    forall i, j, l | 0 <= i < |heads'| && 0 <= j < l < |heads'[i]|
      ensures Differ(heads', i, j, l)
    {
      if i != b {
        assert Differ(heads, i, j, l);
      } else if j == 0 {
        assert InPlace(hash, heads, log, view, b, l - 1);
      } else {
        assert Differ(heads, b, j - 1, l - 1);
      }
    }
    forall x | x in view'
      ensures Present(hash, heads', log, x)
    {
      if x == k {
        assert heads'[b][0].key == k;
      } else {
        assert Present(hash, heads, log, x);
        var j :| 0 <= j < |heads[hash(x, log)]| && heads[hash(x, log)][j].key == x;
        if hash(x, log) == b {
          assert heads'[b][j + 1].key == x;
        } else {
          assert heads'[hash(x, log)][j].key == x;
        }
      }
    }
  }

  lemma Remove<V>(hash: HashFn, heads: seq<seq<Cell<V>>>, log: int, view: map<nat, V>, i: nat, j: nat)
    requires Represents(hash, heads, log, view) && i < |heads| && j < |heads[i]|
    ensures Represents(hash, heads[i := heads[i][..j] + heads[i][j+1..]], log, view - {heads[i][j].key})
    ensures heads[i][j].key in view
  {
    var chain' := heads[i][..j] + heads[i][j+1..];
    var k := heads[i][j].key;
    var heads': seq<seq<Cell<V>>>, view' := heads[i := chain'], view - {k};
    assert InPlace(hash, heads, log, view, i, j);
    forall a, b | 0 <= a < |heads'| && 0 <= b < |heads'[a]|
      ensures InPlace(hash, heads', log, view', a, b)
    {
      var was := if a == i && b >= j then b + 1 else b;
      assert InPlace(hash, heads, log, view, a, was) && heads'[a][b] == heads[a][was];
      if a != i {
        assert InPlace(hash, heads, log, view, i, j);
      } else if was < j {
        assert Differ(heads, i, was, j);
      } else {
        assert Differ(heads, i, j, was);
      }
    }
    forall a, b, c | 0 <= a < |heads'| && 0 <= b < c < |heads'[a]|
      ensures Differ(heads', a, b, c)
    {
      var b0 := if a == i && b >= j then b + 1 else b;
      var c0 := if a == i && c >= j then c + 1 else c;
      assert Differ(heads, a, b0, c0);
    }
    forall x | x in view'
      ensures Present(hash, heads', log, x)
    {
      assert Present(hash, heads, log, x);
      var b :| 0 <= b < |heads[hash(x, log)]| && heads[hash(x, log)][b].key == x;
      if hash(x, log) == i && b > j {
        assert heads'[i][b - 1].key == x;
      } else {
        assert heads'[hash(x, log)][b].key == x;
      }
    }
  }

  lemma Replace<V>(hash: HashFn, heads: seq<seq<Cell<V>>>, log: int, view: map<nat, V>, i: nat, j: nat, v: V)
    requires Represents(hash, heads, log, view) && i < |heads| && j < |heads[i]|
    ensures var k := heads[i][j].key;
            Represents(hash, heads[i := heads[i][j := Cell(k, v)]], log, view[k := v])
  {
    var k := heads[i][j].key;
    var heads': seq<seq<Cell<V>>>, view' := heads[i := heads[i][j := Cell(k, v)]], view[k := v];
    assert InPlace(hash, heads, log, view, i, j);
    forall a, b | 0 <= a < |heads'| && 0 <= b < |heads'[a]|
      ensures InPlace(hash, heads', log, view', a, b)
    {
      assert InPlace(hash, heads, log, view, a, b);
      if a == i && b < j {
        assert Differ(heads, i, b, j);
      } else if a == i && j < b {
        assert Differ(heads, i, j, b);
      }
    }
    forall a, b, c | 0 <= a < |heads'| && 0 <= b < c < |heads'[a]|
      ensures Differ(heads', a, b, c)
    {
      assert Differ(heads, a, b, c);
    }
    forall x | x in view'
      ensures Present(hash, heads', log, x)
    {
      assert Present(hash, heads, log, x);
      var b :| 0 <= b < |heads[hash(x, log)]| && heads[hash(x, log)][b].key == x;
      assert heads'[hash(x, log)][b].key == x;
    }
  }

  /** Every cell in the buckets before i, and in the first j cells of bucket i, has a key in S. */
  ghost predicate SeenWithin<V>(heads: seq<seq<Cell<V>>>, i: nat, j: nat, S: set<nat>) {
    && (forall a, b :: 0 <= a < i && a < |heads| && 0 <= b < |heads[a]| ==> heads[a][b].key in S)
    && (i < |heads| ==> forall b :: 0 <= b < j && b < |heads[i]| ==> heads[i][b].key in S)
  }

  /** view is old, without some keys none of which is in S. */
  ghost predicate Thinned<V>(old': map<nat, V>, view: map<nat, V>, S: set<nat>) {
    && (forall k :: k in view ==> k in old' && view[k] == old'[k])
    && (forall k :: k in old' && k in S ==> k in view)
  }

  class Table<V> {
    const hash: HashFn
    var heads: seq<seq<Cell<V>>>
    var log: int           // binary logarithm of the number of buckets; -1 if there are none
    var count: nat         // GC_dl_entries, GC_fo_entries
    ghost var view: map<nat, V>

    ghost predicate Valid()
      reads this
    {
      Spreads(hash) && Represents(hash, heads, log, view) && count == |view|
    }

    constructor (h: HashFn)
      requires Spreads(h)
      ensures Valid() && view == map[] && hash == h && log == -1
    {
      hash := h;
      heads, log, count, view := [], -1, 0, map[];
    }

    /** GC_grow_table: double the number of buckets, moving every cell to the front of its new chain; does
        nothing if there is no memory. */
    method Grow(memory: bool)
      requires Valid()
      modifies this
      ensures Valid() && view == old(view) && count == old(count)
      ensures log == if memory then old(log) + 1 else old(log)
    {
      if !memory { return; }
      var newLog: nat := log + 1;
      var table: seq<seq<Cell<V>>> := seq(Pow2(newLog), i => []);
      ghost var moved: map<nat, V> := map[];
      var i := 0;
      while i < |heads|
        invariant 0 <= i <= |heads| && unchanged(this)
        invariant Represents(hash, table, newLog, moved)
        invariant forall k :: k in moved <==> k in view && InBuckets(k, i)
        invariant forall k :: k in moved ==> k in view && moved[k] == view[k]
      {
        table, moved := MoveChain(i, table, newLog, moved);
        i := i + 1;
      }
      assert moved == view by {
        forall k | k in view ensures k in moved { assert Present(hash, heads, log, k); }
      }
      log := newLog;
      heads := table;
    }

    /** Key k hashes to one of the first n buckets. */
    ghost predicate InBuckets(k: nat, n: nat)
      reads this
    {
      log >= 0 && hash(k, log) < n
    }

    method MoveChain(i: nat, start: seq<seq<Cell<V>>>, newLog: nat, ghost movedBefore: map<nat, V>)
        returns (table: seq<seq<Cell<V>>>, ghost moved: map<nat, V>)
      requires Valid() && i < |heads|
      requires Represents(hash, start, newLog, movedBefore)
      requires forall k :: k in movedBefore <==> k in view && InBuckets(k, i)
      requires forall k :: k in movedBefore ==> k in view && movedBefore[k] == view[k]
      ensures Represents(hash, table, newLog, moved)
      ensures forall k :: k in moved <==> k in view && InBuckets(k, i + 1)
      ensures forall k :: k in moved ==> k in view && moved[k] == view[k]
    {
      table, moved := start, movedBefore;
      var j := 0;
      while j < |heads[i]|
        invariant 0 <= j <= |heads[i]|
        invariant Represents(hash, table, newLog, moved)
        invariant forall k :: k in moved <==> k in movedBefore || exists l :: 0 <= l < j && heads[i][l].key == k
        invariant forall k :: k in moved ==> k in view && moved[k] == view[k]
      {
        var cell := heads[i][j];
        assert InPlace(hash, heads, log, view, i, j);
        forall l | 0 <= l < j
          ensures heads[i][l].key != cell.key
        {
          assert Differ(heads, i, l, j);
        }
        Insert(hash, table, newLog, moved, cell.key, cell.value);
        var b := hash(cell.key, newLog);
        table := table[b := [cell] + table[b]];
        moved := moved[cell.key := cell.value];
        j := j + 1;
      }
      forall k | k in view && log >= 0 && hash(k, log) == i
        ensures k in moved
      {
        assert Present(hash, heads, log, k);
      }
      forall l | 0 <= l < |heads[i]|
        ensures heads[i][l].key in view && hash(heads[i][l].key, log) == i
      {
        assert InPlace(hash, heads, log, view, i, l);
      }
    }

    /** At most one cell more than buckets. */
    ghost predicate Loaded()
      reads this
    {
      if log < 0 then count == 0 else count <= Pow2(log) + 1
    }

    /** Grow as the registration functions do before they look up a key. */
    method Prepare(memory: bool)
      requires Valid()
      modifies this
      ensures Valid() && view == old(view) && count == old(count)
      ensures log == if memory && (old(log) == -1 || old(count) > Pow2(old(log))) then old(log) + 1 else old(log)
      ensures old(Loaded()) && memory ==> count <= Pow2(log)
    {
      if log == -1 || count > Pow2(log) {
        Grow(memory);
      }
    }

    /** Position of key k in its chain, or the chain's length. */
    method Find(k: nat) returns (j: nat)
      requires Valid() && log >= 0
      ensures hash(k, log) < |heads| && j <= |heads[hash(k, log)]|
      ensures k in view <==> j < |heads[hash(k, log)]|
      ensures k in view ==> heads[hash(k, log)][j] == Cell(k, view[k])
    {
      var i := hash(k, log);
      j := 0;
      while j < |heads[i]| && heads[i][j].key != k
        invariant j <= |heads[i]|
        invariant forall l :: 0 <= l < j ==> heads[i][l].key != k
      {
        j := j + 1;
      }
      if j < |heads[i]| {
        assert InPlace(hash, heads, log, view, i, j);
      } else if k in view {
        assert Present(hash, heads, log, k);
      }
    }

    /** Put a new cell at the front of its chain. */
    method Add(k: nat, v: V)
      requires Valid() && log >= 0 && k !in view
      modifies this
      ensures Valid() && view == old(view)[k := v] && log == old(log) && count == old(count) + 1
    {
      Insert(hash, heads, log, view, k, v);
      var i := hash(k, log);
      heads := heads[i := [Cell(k, v)] + heads[i]];
      view := view[k := v];
      count := count + 1;
    }

    /** Unlink the cell at position j of chain i. */
    method RemoveAt(i: nat, j: nat)
      requires Valid() && i < |heads| && j < |heads[i]|
      modifies this
      ensures Valid() && log == old(log)
      ensures heads == old(heads)[i := old(heads)[i][..j] + old(heads)[i][j+1..]]
      ensures old(heads)[i][j].key in old(view) && view == old(view) - {old(heads)[i][j].key}
      ensures count + 1 == old(count)
    {
      Remove(hash, heads, log, view, i, j);
      ghost var k := heads[i][j].key;
      assert view.Keys == (view - {k}).Keys + {k};
      heads := heads[i := heads[i][..j] + heads[i][j+1..]];
      view := view - {k};
      count := count - 1;
    }

    /** Overwrite the value at position j of chain i. */
    method SetAt(i: nat, j: nat, v: V)
      requires Valid() && i < |heads| && j < |heads[i]|
      modifies this
      ensures Valid() && log == old(log) && count == old(count)
      ensures view == old(view)[old(heads)[i][j].key := v]
    {
      Replace(hash, heads, log, view, i, j, v);
      assert InPlace(hash, heads, log, view, i, j);
      ghost var k := heads[i][j].key;
      assert view[k := v].Keys == view.Keys;
      heads := heads[i := heads[i][j := Cell(heads[i][j].key, v)]];
      view := view[k := v];
    }

    // ---- Sweeping a table: deleting the cells whose keys are not in `kept`, bucket by bucket ----

    /** The buckets before i, and the first j cells of bucket i, are swept. */
    ghost predicate Swept(start: map<nat, V>, kept: set<nat>, i: nat, j: nat)
      reads this
    {
      && Valid() && i <= |heads| && (i < |heads| ==> j <= |heads[i]|)
      && Thinned(start, view, kept) && SeenWithin(heads, i, j, kept)
    }

    /** Delete the cell at j of bucket i in the course of a sweep. */
    method SweepAway(i: nat, j: nat, ghost start: map<nat, V>, ghost kept: set<nat>)
      requires Swept(start, kept, i, j) && i < |heads| && j < |heads[i]| && heads[i][j].key !in kept
      modifies this
      ensures Swept(start, kept, i, j) && log == old(log) && |heads| == old(|heads|)
      ensures i < |heads| && |heads[i]| == old(|heads[i]|) - 1
      ensures view == old(view) - {old(heads[i][j].key)} && old(heads[i][j].key) in old(view)
      ensures count + 1 == old(count)
    {
      RemoveAt(i, j);
    }

    lemma SweepOn(i: nat, j: nat, start: map<nat, V>, kept: set<nat>)
      requires Swept(start, kept, i, j) && i < |heads| && j < |heads[i]| && heads[i][j].key in kept
      ensures Swept(start, kept, i, j + 1)
    {
    }

    lemma SweepNext(i: nat, start: map<nat, V>, kept: set<nat>)
      requires i < |heads| && Swept(start, kept, i, |heads[i]|)
      ensures Swept(start, kept, i + 1, 0)
    {
    }

    /** After a sweep, exactly the kept keys are left. */
    lemma SweepDone(start: map<nat, V>, kept: set<nat>)
      requires Swept(start, kept, |heads|, 0)
      ensures view.Keys == start.Keys * kept
      ensures forall k :: k in view ==> view[k] == start[k]
    {
      forall k | k in view
        ensures k in kept
      {
        assert Present(hash, heads, log, k);
      }
    }

    lemma CellAt(i: nat, j: nat)
      requires Valid() && i < |heads| && j < |heads[i]|
      ensures heads[i][j].key in view && view[heads[i][j].key] == heads[i][j].value
    {
      assert InPlace(hash, heads, log, view, i, j);
    }
  }
}
