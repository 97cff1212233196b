/** The log-structured merge tree of crates/algorithms/src/storage.rs:317-422.
    Keys are natural numbers here; the source takes any ordered type. */
module Lsm {
  import opened Options
  import opened Sorting

  // --- the map a stack of tables stands for

  /** Later tables override earlier ones. */
  function Layers<V>(tables: seq<map<nat, V>>): map<nat, V> {
    if tables == [] then map[] else Layers(tables[..|tables| - 1]) + tables[|tables| - 1]
  }

  function View<V>(memtable: map<nat, V>, sstables: seq<map<nat, V>>): map<nat, V> {
    Layers(sstables) + memtable
  }

  function Lookup<V>(m: map<nat, V>, key: nat): Option<V> {
    if key in m then Some(m[key]) else None
  }

  lemma LayersAppend<V>(tables: seq<map<nat, V>>, t: map<nat, V>)
    ensures Layers(tables + [t]) == Layers(tables) + t
  {
    assert (tables + [t])[..|tables|] == tables;
  }

  lemma LayersPrefix<V>(tables: seq<map<nat, V>>, k: nat)
    requires k < |tables|
    ensures Layers(tables[..k + 1]) == Layers(tables[..k]) + tables[k]
  {
    assert tables[..k + 1] == tables[..k] + [tables[k]];
    LayersAppend(tables[..k], tables[k]);
  }

  /** The newest table holding the key decides. */
  lemma {:induction false} NewestDecides<V>(tables: seq<map<nat, V>>, k: nat, key: nat)
    requires k <= |tables| && forall i :: k <= i < |tables| ==> key !in tables[i]
    ensures Lookup(Layers(tables), key) == Lookup(Layers(tables[..k]), key)
    decreases |tables| - k
  {
    if k < |tables| {
      NewestDecides(tables, k + 1, key);
      LayersPrefix(tables, k);
    } else {
      assert tables[..k] == tables;
    }
  }

  ghost predicate SmallTables<V>(sstables: seq<map<nat, V>>, limit: nat) {
    forall i :: 0 <= i < |sstables| ==> |sstables[i]| <= limit
  }

  ghost predicate Disjoint<V>(tables: seq<map<nat, V>>) {
    forall i, j :: 0 <= i < j < |tables| ==> tables[i].Keys !! tables[j].Keys
  }

  /** At most three tables, or disjoint ones, all but the last holding as many
      entries as the memtable takes. */
  ghost predicate FewTables<V>(sstables: seq<map<nat, V>>, size: nat) {
    |sstables| <= 3 || (Disjoint(sstables) && (|sstables| - 1) * size < |Layers(sstables)|)
  }

  lemma {:induction false} TableInLayers<V>(tables: seq<map<nat, V>>, i: nat)
    requires i < |tables|
    ensures tables[i].Keys <= Layers(tables).Keys
  {
    if i < |tables| - 1 {
      TableInLayers(tables[..|tables| - 1], i);
    }
  }

  lemma DisjointAppend<V>(tables: seq<map<nat, V>>, t: map<nat, V>)
    requires Disjoint(tables) && Layers(tables).Keys !! t.Keys
    ensures Disjoint(tables + [t])
  {
    hide Layers;
    forall i | 0 <= i < |tables| ensures tables[i].Keys !! t.Keys {
      TableInLayers(tables, i);
    }
  }

  function Between<V>(m: map<nat, V>, lo: nat, hi: nat): map<nat, V> {
    map k | k in m && lo <= k <= hi :: m[k]
  }

  lemma BetweenLayer<V>(a: map<nat, V>, b: map<nat, V>, lo: nat, hi: nat)
    ensures Between(a + b, lo, hi) == Between(a, lo, hi) + Between(b, lo, hi)
  {
  }

  function Restricted<V>(m: map<nat, V>, keys: set<nat>): map<nat, V> {
    map k | k in m && k in keys :: m[k]
  }

  /** The entries of `m` in ascending key order. */
  ghost predicate IsListing<V>(m: map<nat, V>, entries: seq<(nat, V)>) {
    && |entries| == |m|
    && (forall i, j :: 0 <= i < j < |entries| ==> entries[i].0 < entries[j].0)
    && (forall i :: 0 <= i < |entries| ==> entries[i].0 in m && entries[i].1 == m[entries[i].0])
    && (forall k :: k in m ==> exists i :: 0 <= i < |entries| && entries[i].0 == k)
  }

  ghost predicate KeysAscend<V>(entries: seq<(nat, V)>) {
    forall i, j :: 0 <= i < j < |entries| ==> entries[i].0 < entries[j].0
  }

  /** The entries are those of the closed range. */
  ghost predicate Lists<V>(contents: map<nat, V>, start: nat, end: nat, entries: seq<(nat, V)>) {
    && (forall i :: 0 <= i < |entries| ==>
                      && start <= entries[i].0 <= end
                      && entries[i].0 in contents && contents[entries[i].0] == entries[i].1)
    && (forall k :: start <= k <= end && k in contents ==> (k, contents[k]) in entries)
  }

  method List<V>(m: map<nat, V>) returns (entries: seq<(nat, V)>)
    ensures IsListing(m, entries)
  {
    var keys := SortedKeys(m.Keys);
    assert forall i :: 0 <= i < |keys| ==> keys[i] in Elems(keys);
    entries := seq(|keys|, i requires 0 <= i < |keys| => (keys[i], m[keys[i]]));
    forall k | k in m ensures exists i :: 0 <= i < |entries| && entries[i].0 == k {
      assert k in Elems(keys);
      var i :| 0 <= i < |keys| && keys[i] == k;
      assert entries[i].0 == k;
    }
    assert |m| == |m.Keys|;
  }

  function KeysOf<V>(entries: seq<(nat, V)>, lo: nat, hi: nat): set<nat>
    requires lo <= hi <= |entries|
  {
    set i | lo <= i < hi :: entries[i].0
  }

  lemma KeysStep<V>(entries: seq<(nat, V)>, lo: nat, hi: nat)
    requires lo <= hi < |entries|
    ensures KeysOf(entries, lo, hi + 1) == KeysOf(entries, lo, hi) + {entries[hi].0}
  {
  }

  lemma KeysJoin<V>(entries: seq<(nat, V)>, lo: nat, mid: nat, hi: nat)
    requires lo <= mid <= hi <= |entries|
    ensures KeysOf(entries, lo, hi) == KeysOf(entries, lo, mid) + KeysOf(entries, mid, hi)
  {
  }

  lemma KeysAll<V>(m: map<nat, V>, entries: seq<(nat, V)>)
    requires IsListing(m, entries)
    ensures Restricted(m, KeysOf(entries, 0, |entries|)) == m
  {
    forall k | k in m ensures k in KeysOf(entries, 0, |entries|) {
      var i :| 0 <= i < |entries| && entries[i].0 == k;
    }
  }

  lemma RestrictedKeys<V>(m: map<nat, V>, keys: set<nat>)
    ensures Restricted(m, keys).Keys <= keys
  {
  }

  lemma RestrictedJoin<V>(m: map<nat, V>, a: set<nat>, b: set<nat>)
    ensures Restricted(m, a + b) == Restricted(m, a) + Restricted(m, b)
  {
  }

  lemma RestrictedStep<V>(m: map<nat, V>, a: set<nat>, k: nat)
    requires k in m
    ensures Restricted(m, a + {k}) == Restricted(m, a)[k := m[k]]
  {
  }

  lemma RestrictedNone<V>(m: map<nat, V>)
    ensures Restricted(m, {}) == map[]
  {
  }

  /** The table of the entries from `lo` to `hi`. */
  ghost predicate IsStretch<V>(m: map<nat, V>, entries: seq<(nat, V)>, lo: nat, hi: nat, table: map<nat, V>) {
    lo <= hi <= |entries| && |table| <= hi - lo && table == Restricted(m, KeysOf(entries, lo, hi))
  }

  lemma StretchStart<V>(m: map<nat, V>, entries: seq<(nat, V)>, lo: nat)
    requires lo <= |entries|
    ensures IsStretch(m, entries, lo, lo, map[])
  {
    assert KeysOf(entries, lo, lo) == {};
    RestrictedNone(m);
  }

  lemma StretchStep<V>(m: map<nat, V>, entries: seq<(nat, V)>, lo: nat, hi: nat, table: map<nat, V>)
    requires IsListing(m, entries) && IsStretch(m, entries, lo, hi, table) && hi < |entries|
    ensures IsStretch(m, entries, lo, hi + 1, table[entries[hi].0 := entries[hi].1])
  {
    assert entries[hi].0 in m && entries[hi].1 == m[entries[hi].0];
    hide KeysOf, Restricted, IsListing;
    KeysStep(entries, lo, hi);
    RestrictedStep(m, KeysOf(entries, lo, hi), entries[hi].0);
    InsertSize(table, entries[hi].0, entries[hi].1);
  }

  /** The tables, each of at most `size` entries, make up the listing so far. */
  ghost predicate Chunked<V>(m: map<nat, V>, entries: seq<(nat, V)>, at: nat, tables: seq<map<nat, V>>, size: nat) {
    && at <= |entries| && SmallTables(tables, size) && Disjoint(tables)
    && Layers(tables) == Restricted(m, KeysOf(entries, 0, at))
  }

  /** Chunks are cut as long as they may be. */
  ghost predicate Cut(at: nat, n: nat, count: nat, size: nat) {
    (count > 0 ==> (count - 1) * size < at) && (at < n ==> at == count * size)
  }

  lemma CutNext(at: nat, end: nat, n: nat, count: nat, size: nat)
    requires Cut(at, n, count, size) && at < n && size > 0 && end == if at + size <= n then at + size else n
    ensures Cut(end, n, count + 1, size)
  {
    assert (count + 1) * size == count * size + size;
  }

  lemma StretchesDisjoint<V>(m: map<nat, V>, entries: seq<(nat, V)>, at: nat, end: nat)
    requires IsListing(m, entries) && at <= end <= |entries|
    ensures KeysOf(entries, 0, at) !! KeysOf(entries, at, end)
  {
  }

  lemma ChunkStart<V>(m: map<nat, V>, entries: seq<(nat, V)>, size: nat)
    ensures Chunked(m, entries, 0, [], size)
  {
    assert KeysOf(entries, 0, 0) == {};
    RestrictedNone(m);
  }

  lemma ChunkStep<V>(m: map<nat, V>, entries: seq<(nat, V)>, at: nat, end: nat, tables: seq<map<nat, V>>, size: nat,
                     table: map<nat, V>)
    requires IsListing(m, entries)
    requires Chunked(m, entries, at, tables, size) && IsStretch(m, entries, at, end, table) && end - at <= size
    ensures Chunked(m, entries, end, tables + [table], size)
  {
    StretchesDisjoint(m, entries, at, end);
    RestrictedKeys(m, KeysOf(entries, 0, at));
    RestrictedKeys(m, KeysOf(entries, at, end));
    DisjointAppend(tables, table);
    hide Layers, KeysOf, Restricted, IsListing, Disjoint;
    LayersAppend(tables, table);
    KeysJoin(entries, 0, at, end);
    RestrictedJoin(m, KeysOf(entries, 0, at), KeysOf(entries, at, end));
  }

  lemma ChunkEnd<V>(m: map<nat, V>, entries: seq<(nat, V)>, tables: seq<map<nat, V>>, size: nat)
    requires IsListing(m, entries) && Chunked(m, entries, |entries|, tables, size)
    ensures Layers(tables) == m
  {
    hide Layers, KeysOf, Restricted;
    KeysAll(m, entries);
  }

  class LsmTree<V(==)> {
    var memtable: map<nat, V>
    var sstables: seq<map<nat, V>>
    const maxMemtableSize: nat
    const compactionThreshold: nat

    ghost predicate Valid()
      reads this
    {
      && maxMemtableSize >= 1 && compactionThreshold == 4
      && |memtable| < maxMemtableSize
      && SmallTables(sstables, 2 * maxMemtableSize) && FewTables(sstables, maxMemtableSize)
    }

    /** The map the tree stands for. */
    ghost function Contents(): map<nat, V>
      reads this
    {
      View(memtable, sstables)
    }

    constructor (maxMemtableSize: nat)
      requires maxMemtableSize >= 1
      ensures Valid() && Contents() == map[] && this.maxMemtableSize == maxMemtableSize
    {
      memtable, sstables := map[], [];
      this.maxMemtableSize := maxMemtableSize;
      compactionThreshold := 4;
    }

    method Insert(key: nat, value: V)
      requires Valid()
      modifies this
      ensures Valid() && Contents() == old(Contents())[key := value]
    {
      hide Layers, View, SmallTables;
      InsertSize(memtable, key, value);
      ViewInsert(memtable, sstables, key, value);
      memtable := memtable[key := value];
      if |memtable| >= maxMemtableSize {
        Flush();
      }
    }

    method Get(key: nat) returns (r: Option<V>)
      ensures r == if key in Contents() then Some(Contents()[key]) else None
    {
      hide Layers;
      if key in memtable {
        return Some(memtable[key]);
      }
      var i := |sstables|;
      while i > 0
        invariant 0 <= i <= |sstables|
        invariant forall j :: i <= j < |sstables| ==> key !in sstables[j]
      {
        i := i - 1;
        if key in sstables[i] {
          NewestDecides(sstables, i + 1, key);
          LayersPrefix(sstables, i);
          return Some(sstables[i][key]);
        }
      }
      NewestDecides(sstables, 0, key);
      assert sstables[..0] == [];
      EmptyLayers<V>();
      return None;
    }

    method Flush()
      requires maxMemtableSize >= 1 && compactionThreshold == 4
      requires |memtable| <= maxMemtableSize && SmallTables(sstables, 2 * maxMemtableSize)
      requires FewTables(sstables, maxMemtableSize)
      modifies this
      ensures Valid() && Contents() == old(Contents())
    {
      hide Layers, View, SmallTables, FewTables;
      if memtable == map[] {
        return;
      }
      var frozen := memtable;
      memtable := map[];
      ViewFlush(frozen, sstables);
      SmallAppend(sstables, frozen, 2 * maxMemtableSize);
      sstables := sstables + [frozen];
      AtMostThree(sstables, maxMemtableSize);
      if |sstables| >= compactionThreshold {
        ghost var grown := sstables;
        Compact();
        SameLayers(memtable, grown, sstables);
      }
    }

    method Compact()
      requires maxMemtableSize >= 1
      modifies this`sstables
      ensures Layers(sstables) == old(Layers(sstables))
      ensures SmallTables(sstables, 2 * maxMemtableSize) && FewTables(sstables, maxMemtableSize)
    {
      hide Layers, SmallTables, IsListing, IsStretch, Chunked, Cut, Disjoint;
      var merged: map<nat, V> := map[];
      var i := 0;
      EmptyLayers<V>();
      assert sstables[..0] == [];
      while i < |sstables|
        invariant 0 <= i <= |sstables|
        invariant sstables == old(sstables) && merged == Layers(sstables[..i])
      {
        LayersPrefix(sstables, i);
        merged := InsertAll(merged, sstables[i]);
        i := i + 1;
      }
      assert sstables[..i] == sstables;
      ghost var all := Layers(sstables);
      assert merged == all;
      if |merged| > maxMemtableSize * 2 {
        var entries := List(merged);
        var newSstables: seq<map<nat, V>> := [];
        var at := 0;
        ChunkStart(merged, entries, maxMemtableSize);
        CutStart(|entries|, maxMemtableSize);
        while at < |entries|
          invariant 0 <= at <= |entries|
          invariant Chunked(merged, entries, at, newSstables, maxMemtableSize)
          invariant Cut(at, |entries|, |newSstables|, maxMemtableSize)
          decreases |entries| - at
        {
          var end := if at + maxMemtableSize <= |entries| then at + maxMemtableSize else |entries|;
          var table := Stretch(merged, entries, at, end);
          ChunkStep(merged, entries, at, end, newSstables, maxMemtableSize, table);
          CutNext(at, end, |entries|, |newSstables|, maxMemtableSize);
          newSstables := newSstables + [table];
          at := end;
        }
        ChunkEnd(merged, entries, newSstables, maxMemtableSize);
        ChunksSmall(merged, entries, at, newSstables, maxMemtableSize);
        ChunksFew(merged, entries, newSstables, maxMemtableSize);
        sstables := newSstables;
      } else {
        OneTable(merged, 2 * maxMemtableSize);
        sstables := [merged];
      }
    }

    /** Never more than three tables, or than the entries held divided by the
        memtable's limit, rounded up. */
    method SstableCount() returns (count: nat)
      requires Valid()
      ensures count == |sstables|
      ensures count <= 3 || (count - 1) * maxMemtableSize < |Contents()|
    {
      hide Layers, View, SmallTables, FewTables;
      TablesBounded(memtable, sstables, maxMemtableSize);
      count := |sstables|;
    }

    method RangeScan(start: nat, end: nat) returns (entries: seq<(nat, V)>)
      requires start <= end
      ensures KeysAscend(entries) && Lists(Contents(), start, end, entries)
    {
      hide Layers, Between, IsListing, Lists, KeysAscend;
      var results := Between(memtable, start, end);
      var i := |sstables|;
      ghost var contents := Contents();
      assert sstables[..i] == sstables;
      BetweenLayer(Layers(sstables), memtable, start, end);
      while i > 0
        invariant 0 <= i <= |sstables|
        invariant Between(contents, start, end) == Between(Layers(sstables[..i]), start, end) + results
      {
        i := i - 1;
        LayersPrefix(sstables, i);
        BetweenLayer(Layers(sstables[..i]), sstables[i], start, end);
        results := InsertMissing(results, Between(sstables[i], start, end));
      }
      assert sstables[..0] == [];
      EmptyLayers<V>();
      assert Between(map[], start, end) + results == results by { EmptyBetween<V>(start, end); }
      entries := List(results);
      ListingMembers(contents, start, end, entries);
    }

    /** Scanning a range in two parts gives what one scan gives. */
    method ScanInParts(start: nat, middle: nat, end: nat)
        returns (first: seq<(nat, V)>, second: seq<(nat, V)>, whole: seq<(nat, V)>)
      requires start <= middle < end
      ensures whole == first + second
    {
      hide Layers, View, Lists, KeysAscend;
      ghost var contents := Contents();
      first := RangeScan(start, middle);
      second := RangeScan(middle + 1, end);
      whole := RangeScan(start, end);
      ScansJoin(contents, start, middle, end, first, second, whole);
    }

    /** A scan lists a key exactly if it is in the range and `Get` finds it, and
        with what `Get` returns. */
    method ScanAgrees(start: nat, end: nat, key: nat) returns (entries: seq<(nat, V)>, r: Option<V>)
      requires start <= end
      ensures (exists i :: 0 <= i < |entries| && entries[i].0 == key) <==> start <= key <= end && r.Some?
      ensures forall i :: 0 <= i < |entries| && entries[i].0 == key ==> r == Some(entries[i].1)
    {
      hide Layers, View;
      entries := RangeScan(start, end);
      r := Get(key);
      if start <= key <= end && r.Some? {
        assert (key, r.value) in entries;
      }
    }
  }

  lemma ListingMembers<V>(contents: map<nat, V>, start: nat, end: nat, entries: seq<(nat, V)>)
    requires IsListing(Between(contents, start, end), entries)
    ensures KeysAscend(entries) && Lists(contents, start, end, entries)
  {
    var some := Between(contents, start, end);
    forall k | start <= k <= end && k in contents ensures (k, contents[k]) in entries {
      assert k in some;
      var i :| 0 <= i < |entries| && entries[i].0 == k;
      assert entries[i] == (k, contents[k]);
    }
  }

  /** A range in ascending order, in two parts and as a whole. */
  lemma ScansJoin<V>(contents: map<nat, V>, start: nat, middle: nat, end: nat, first: seq<(nat, V)>,
                     second: seq<(nat, V)>, whole: seq<(nat, V)>)
    requires start <= middle < end && KeysAscend(first) && KeysAscend(second) && KeysAscend(whole)
    requires Lists(contents, start, middle, first) && Lists(contents, middle + 1, end, second)
    requires Lists(contents, start, end, whole)
    ensures whole == first + second
  {
    var both := first + second;
    forall i, j | 0 <= i < j < |both| ensures both[i].0 < both[j].0 {
      if i < |first| <= j {
        assert first[i].0 <= middle < second[j - |first|].0;
      }
    }
    forall k | start <= k <= end && k in contents ensures (k, contents[k]) in both {
      if k <= middle {
        assert (k, contents[k]) in first;
      } else {
        assert (k, contents[k]) in second;
      }
    }
    SameListing(contents, start, end, both, whole);
  }

  /** A listing in ascending order is unique. */
  lemma {:induction false} SameListing<V>(contents: map<nat, V>, start: nat, end: nat, a: seq<(nat, V)>,
                                          b: seq<(nat, V)>)
    requires KeysAscend(a) && KeysAscend(b) && Lists(contents, start, end, a) && Lists(contents, start, end, b)
    ensures a == b
    decreases |a|
  {
    hide KeysAscend, Lists;
    SomeListed(contents, start, end, a, b);
    SomeListed(contents, start, end, b, a);
    if a != [] && b != [] {
      SameLast(contents, start, end, a, b);
      var x := a[|a| - 1];
      LastAlone(contents, start, end, a);
      LastAlone(contents, start, end, b);
      if x.0 > start {
        WithoutLast(contents, start, end, a);
        WithoutLast(contents, start, end, b);
        SameListing(contents, start, x.0 - 1, a[..|a| - 1], b[..|b| - 1]);
        assert a == a[..|a| - 1] + [x] && b == b[..|b| - 1] + [x];
      } else {
        assert a == [x] && b == [x];
      }
    }
  }

  lemma SameLast<V>(contents: map<nat, V>, start: nat, end: nat, a: seq<(nat, V)>, b: seq<(nat, V)>)
    requires KeysAscend(a) && KeysAscend(b) && Lists(contents, start, end, a) && Lists(contents, start, end, b)
    requires a != [] && b != []
    ensures a[|a| - 1] == b[|b| - 1] && start <= a[|a| - 1].0
  {
    LastAtMost(contents, start, end, a, b);
    LastAtMost(contents, start, end, b, a);
  }

  lemma SomeListed<V>(contents: map<nat, V>, start: nat, end: nat, a: seq<(nat, V)>, b: seq<(nat, V)>)
    requires Lists(contents, start, end, a) && Lists(contents, start, end, b)
    ensures a != [] ==> b != []
  {
    if a != [] {
      assert (a[0].0, contents[a[0].0]) in b;
    }
  }

  lemma LastAtMost<V>(contents: map<nat, V>, start: nat, end: nat, a: seq<(nat, V)>, b: seq<(nat, V)>)
    requires KeysAscend(b) && Lists(contents, start, end, a) && Lists(contents, start, end, b) && a != [] && b != []
    ensures a[|a| - 1].0 <= b[|b| - 1].0
  {
    var x := a[|a| - 1];
    assert (x.0, contents[x.0]) in b;
    var i :| 0 <= i < |b| && b[i] == (x.0, contents[x.0]);
  }

  lemma WithoutLast<V>(contents: map<nat, V>, start: nat, end: nat, a: seq<(nat, V)>)
    requires KeysAscend(a) && Lists(contents, start, end, a) && a != [] && a[|a| - 1].0 > start
    ensures KeysAscend(a[..|a| - 1]) && Lists(contents, start, a[|a| - 1].0 - 1, a[..|a| - 1])
  {
    var n := |a| - 1;
    forall k | start <= k <= a[n].0 - 1 && k in contents ensures (k, contents[k]) in a[..n] {
      assert (k, contents[k]) in a;
      var i :| 0 <= i < |a| && a[i] == (k, contents[k]);
      assert a[..n][i] == a[i];
    }
  }

  lemma LastAlone<V>(contents: map<nat, V>, start: nat, end: nat, a: seq<(nat, V)>)
    requires KeysAscend(a) && Lists(contents, start, end, a) && a != []
    ensures |a| > 1 ==> a[|a| - 1].0 > start
  {
    if |a| > 1 {
      assert a[0].0 < a[|a| - 1].0;
    }
  }

  lemma ViewInsert<V>(memtable: map<nat, V>, sstables: seq<map<nat, V>>, key: nat, value: V)
    ensures View(memtable[key := value], sstables) == View(memtable, sstables)[key := value]
  {
  }

  lemma ViewFlush<V>(memtable: map<nat, V>, sstables: seq<map<nat, V>>)
    ensures View(map[], sstables + [memtable]) == View(memtable, sstables)
  {
    hide Layers;
    LayersAppend(sstables, memtable);
  }

  lemma SmallAppend<V>(tables: seq<map<nat, V>>, t: map<nat, V>, limit: nat)
    requires SmallTables(tables, limit) && |t| <= limit
    ensures SmallTables(tables + [t], limit)
  {
  }

  lemma AtMostThree<V>(tables: seq<map<nat, V>>, size: nat)
    ensures |tables| <= 3 ==> FewTables(tables, size)
  {
  }

  lemma SameLayers<V>(memtable: map<nat, V>, a: seq<map<nat, V>>, b: seq<map<nat, V>>)
    requires Layers(a) == Layers(b)
    ensures View(memtable, a) == View(memtable, b)
  {
  }

  lemma EmptyLayers<V>()
    ensures Layers<V>([]) == map[]
  {
  }

  lemma EmptyBetween<V>(lo: nat, hi: nat)
    ensures Between<V>(map[], lo, hi) == map[]
  {
  }

  lemma InsertSize<V>(m: map<nat, V>, key: nat, value: V)
    ensures |m[key := value]| <= |m| + 1
  {
    var more := m[key := value];
    assert more.Keys == m.Keys + {key};
    assert |more| == |more.Keys| && |m| == |m.Keys|;
  }

  lemma OneTable<V>(m: map<nat, V>, limit: nat)
    requires |m| <= limit
    ensures SmallTables([m], limit) && Layers([m]) == m
  {
    LayersAppend([], m);
    assert [] + [m] == [m];
  }

  lemma ChunksSmall<V>(m: map<nat, V>, entries: seq<(nat, V)>, at: nat, tables: seq<map<nat, V>>, size: nat)
    requires Chunked(m, entries, at, tables, size)
    ensures SmallTables(tables, 2 * size)
  {
    hide Layers;
  }

  lemma CutStart(n: nat, size: nat)
    ensures Cut(0, n, 0, size)
  {
  }

  lemma ChunksFew<V>(m: map<nat, V>, entries: seq<(nat, V)>, tables: seq<map<nat, V>>, size: nat)
    requires IsListing(m, entries) && Chunked(m, entries, |entries|, tables, size)
    requires Cut(|entries|, |entries|, |tables|, size)
    ensures FewTables(tables, size)
  {
    ChunkEnd(m, entries, tables, size);
    hide Layers, KeysOf, Restricted, Disjoint;
  }

  lemma TablesBounded<V>(memtable: map<nat, V>, sstables: seq<map<nat, V>>, size: nat)
    requires FewTables(sstables, size)
    ensures |sstables| <= 3 || (|sstables| - 1) * size < |View(memtable, sstables)|
  {
    hide Layers, Disjoint;
    var layers, view := Layers(sstables), View(memtable, sstables);
    assert layers.Keys <= view.Keys;
    SubsetSize(layers.Keys, view.Keys);
  }

  /** Entry by entry, `b` overriding. */
  method InsertAll<V>(a: map<nat, V>, b: map<nat, V>) returns (m: map<nat, V>)
    ensures m == a + b
  {
    m := a;
    var rest := b.Keys;
    while rest != {}
      invariant rest <= b.Keys
      invariant m == a + (map k | k in b && k !in rest :: b[k])
      decreases rest
    {
      var k :| k in rest;
      m := m[k := b[k]];
      rest := rest - {k};
    }
    assert (map k | k in b && k !in rest :: b[k]) == b;
  }

  /** Entry by entry, `a` keeping what it has. */
  method InsertMissing<V>(a: map<nat, V>, b: map<nat, V>) returns (m: map<nat, V>)
    ensures m == b + a
  {
    m := a;
    var rest := b.Keys;
    while rest != {}
      invariant rest <= b.Keys
      invariant m == (map k | k in b && k !in rest :: b[k]) + a
      decreases rest
    {
      var k :| k in rest;
      if k !in m {
        m := m[k := b[k]];
      }
      rest := rest - {k};
    }
    assert (map k | k in b && k !in rest :: b[k]) == b;
  }

  method Stretch<V>(ghost m: map<nat, V>, entries: seq<(nat, V)>, lo: nat, hi: nat) returns (table: map<nat, V>)
    requires IsListing(m, entries) && lo <= hi <= |entries|
    ensures IsStretch(m, entries, lo, hi, table)
  {
    hide IsListing, IsStretch;
    table := map[];
    var i := lo;
    StretchStart(m, entries, lo);
    while i < hi
      invariant lo <= i <= hi
      invariant IsStretch(m, entries, lo, i, table)
    {
      StretchStep(m, entries, lo, i, table);
      table := table[entries[i].0 := entries[i].1];
      i := i + 1;
    }
  }
}
