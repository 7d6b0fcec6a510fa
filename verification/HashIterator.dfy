/** The table's iterator, and callers that remove the entry it has just returned. */
module HashIterators {
  import opened Options
  import opened HashSpec
  import opened HashTheorems
  import opened HashTables

  /** What is left to visit when the iterator is in bucket `next - 1`, before entry `place`. */
  ghost function Ahead(buckets: seq<Chain>, next: nat, place: nat): Chain {
    (if 0 < next <= |buckets| && place <= |buckets[next - 1]| then buckets[next - 1][place..] else [])
    + (if next <= |buckets| then Flatten(buckets[next..]) else [])
  }

  /** Going on to the next bucket from the end of one. */
  lemma {:induction false} AheadNextBucket(buckets: seq<Chain>, next: nat)
    requires next < |buckets|
    ensures Ahead(buckets, next, if next == 0 then 0 else |buckets[next - 1]|) == Ahead(buckets, next + 1, 0)
  {
    assert buckets[next..][1..] == buckets[next + 1..];
  }

  lemma {:induction false} AheadEnd(buckets: seq<Chain>, place: nat)
    requires buckets != [] ==> place == |buckets[|buckets| - 1]|
    ensures Ahead(buckets, |buckets|, place) == []
  {
  }

  lemma {:induction false} AheadStep(buckets: seq<Chain>, next: nat, place: nat)
    requires 0 < next <= |buckets| && place < |buckets[next - 1]|
    ensures Ahead(buckets, next, place) == [buckets[next - 1][place]] + Ahead(buckets, next, place + 1)
  {
    hide Flatten;
    assert buckets[next - 1][place..] == [buckets[next - 1][place]] + buckets[next - 1][place + 1..];
  }

  /** Dropping an entry that lies behind the iterator leaves what is ahead of it. */
  lemma {:induction false} AheadWithout(buckets: seq<Chain>, next: nat, place: nat, b: nat, i: nat)
    requires 0 < next <= |buckets| && place <= |buckets[next - 1]| && b < next && i < |buckets[b]|
    requires b == next - 1 ==> i < place
    ensures Ahead(buckets[b := Without(buckets[b], i)], next, if b == next - 1 then place - 1 else place) == Ahead(buckets, next, place)
  {
    hide Flatten;
    var after := buckets[b := Without(buckets[b], i)];
    assert after[next..] == buckets[next..];
    if b == next - 1 {
      assert after[b][place - 1..] == buckets[b][place..];
    }
  }

  /** The place of an entry in its chain; the chain's length for NULL. */
  ghost function Place(nodes: seq<TableEntry>, entry: TableEntry?): (p: nat)
    ensures p <= |nodes|
    ensures p == |nodes| <==> entry == null || entry !in nodes
    ensures p < |nodes| ==> nodes[p] == entry
    ensures forall j :: 0 <= j < p ==> nodes[j] != entry
  {
    if nodes == [] || nodes[0] == entry then 0 else 1 + Place(nodes[1..], entry)
  }

  lemma {:induction false} PlaceUnique(nodes: seq<TableEntry>, entry: TableEntry?, p: nat)
    requires p <= |nodes| && entry == if p < |nodes| then nodes[p] else null
    requires forall i, j :: 0 <= i < j < |nodes| ==> nodes[i] != nodes[j]
    ensures Place(nodes, entry) == p
  {
    hide Place;
    var q := Place(nodes, entry);
  }

  class Iterator {
    const fTable: BasicHashTable
    var fNextIndex: nat
    var fNextEntry: TableEntry?

    ghost predicate Valid()
      reads this, fTable`chains
    {
      && fNextIndex <= |fTable.chains|
      && (fNextEntry != null ==> fNextIndex > 0 && fNextEntry in fTable.chains[fNextIndex - 1])
    }

    ghost function At(): (p: nat)
      reads this, fTable`chains
      requires Valid()
    {
      if fNextIndex == 0 then 0 else Place(fTable.chains[fNextIndex - 1], fNextEntry)
    }

    /** The entries not visited yet, in order. */
    ghost function Pending(): Chain
      reads this, fTable`chains, NodesOf(fTable.chains)`value
      requires Valid()
    {
      Ahead(BucketsOf(fTable.chains), fNextIndex, At())
    }

    constructor (table: BasicHashTable)
      ensures Valid() && fTable == table && Pending() == Flatten(BucketsOf(table.chains))
    {
      fTable, fNextIndex, fNextEntry := table, 0, null;
      new;
      assert BucketsOf(table.chains)[0..] == BucketsOf(table.chains);
    }

    /** One turn of the loop in next: goes on to the chain of the next bucket. */
    method NextBucket()
      requires Valid() && fTable.Formed() && fNextEntry == null && fNextIndex < fTable.fNumBuckets
      modifies `fNextIndex, `fNextEntry
      ensures Valid() && fTable.Formed() && fNextIndex == old(fNextIndex) + 1 && Pending() == old(Pending())
    {
      hide Flatten, PairsOf, BucketsOf, Ahead, NumBuckets, DownShift;
      AheadNextBucket(BucketsOf(fTable.chains), fNextIndex);
      ghost var nodes := fTable.chains[fNextIndex];
      assert Linked(fTable.fBuckets[fNextIndex], nodes);
      ChainApart(fTable.chains, fNextIndex);
      PlaceUnique(nodes, fTable.fBuckets[fNextIndex], 0);
      fNextEntry := fTable.fBuckets[fNextIndex];
      fNextIndex := fNextIndex + 1;
    }

    /** The rest of next: returns the entry it stands at. */
    method TakeEntry() returns (value: Pointer, key: Key)
      requires Valid() && fTable.Formed() && fNextEntry != null
      modifies `fNextIndex, `fNextEntry
      ensures Valid() && fNextIndex == old(fNextIndex) && At() == old(At()) + 1 <= |BucketsOf(fTable.chains)[fNextIndex - 1]|
      ensures BucketsOf(fTable.chains)[fNextIndex - 1][At() - 1] == Pair(key, value)
    {
      hide Flatten, PairsOf, BucketsOf, NumBuckets, DownShift;
      ghost var nodes, p := fTable.chains[fNextIndex - 1], At();
      assert Linked(fTable.fBuckets[fNextIndex - 1], nodes);
      ChainApart(fTable.chains, fNextIndex - 1);
      PlaceUnique(nodes, nodes[p].fNext, p + 1);
      var entry := fNextEntry;
      fNextEntry := entry.fNext;
      return entry.value, entry.key;
    }

    /** next */
    method Next() returns (value: Pointer, key: Option<Key>)
      requires Valid() && fTable.Formed()
      modifies `fNextIndex, `fNextEntry
      ensures Valid()
      ensures old(Pending()) == [] ==> key == None && value == 0 && Pending() == []
      ensures old(Pending()) != [] ==> key.Some? && old(Pending()) == [Pair(key.value, value)] + Pending()
      ensures key.Some? ==> Behind(Pair(key.value, value))
    {
      hide Flatten, PairsOf, BucketsOf, NumBuckets, DownShift, Place, Ahead, Apart, AllLinked;
      ghost var all, buckets := Pending(), BucketsOf(fTable.chains);
      while fNextEntry == null
        invariant Valid() && fTable.Formed() && Pending() == all && BucketsOf(fTable.chains) == buckets
        decreases |fTable.chains| - fNextIndex
      {
        if fNextIndex >= fTable.fNumBuckets {
          AheadEnd(buckets, At());
          return 0, None;
        }
        NextBucket();
      }
      AheadStep(buckets, fNextIndex, At());
      assert all == [buckets[fNextIndex - 1][At()]] + Ahead(buckets, fNextIndex, At() + 1);
      var k;
      value, k := TakeEntry();
      assert BucketsOf(fTable.chains) == buckets;
      key := Some(k);
    }

    /** The entry just before the iterator. */
    ghost predicate Behind(pair: Pair)
      reads this, fTable`chains, NodesOf(fTable.chains)`value
      requires Valid()
    {
      fNextIndex > 0 && 0 < At() <= |BucketsOf(fTable.chains)[fNextIndex - 1]| && BucketsOf(fTable.chains)[fNextIndex - 1][At() - 1] == pair
    }
  }

  /** An entry of the table is where its key is looked up. */
  lemma {:induction false} EntryPosition(t: Table, m: map<Key, Pointer>, b: nat, i: nat)
    requires Refines(t, m) && b < |t.buckets| && i < |t.buckets[b]|
    ensures PositionOf(t, t.buckets[b][i].key) == (b, i)
    ensures HashSpec.Remove(t, t.buckets[b][i].key).buckets == t.buckets[b := Without(t.buckets[b], i)]
    ensures t.buckets[b][i].key in m
  {
    hide Index, FindKey, NumBuckets, Represents;
    var key := t.buckets[b][i].key;
    ShapeOf(t, m);
    FindKeyUnique(t.buckets[b], key, i);
    LookupRefines(t, m, key);
    RemoveCases(t, m, key);
  }

  /** The iterator's place after the entry before it is dropped. */
  lemma {:induction false} PlaceWithout(nodes: seq<TableEntry>, entry: TableEntry?, i: nat)
    requires i < |nodes| && Place(nodes, entry) == i + 1
    requires entry == null || entry in nodes
    requires forall i, j :: 0 <= i < j < |nodes| ==> nodes[i] != nodes[j]
    ensures Place(Without(nodes, i), entry) == i
    ensures entry == null || entry in Without(nodes, i)
  {
    hide Place;
    if entry != null {
      assert Without(nodes, i)[i] == entry;
    }
    PlaceUnique(Without(nodes, i), entry, i);
  }

  /** A caller removes the entry that next has just returned: the entries still to come are the same. */
  method RemoveVisited(iter: Iterator, key: Key, ghost value: Pointer)
    requires iter.fTable.Valid() && iter.Valid() && iter.Behind(Pair(key, value))
    modifies iter.fTable, iter.fTable.fBuckets, NodesOf(iter.fTable.chains)
    ensures iter.fTable.Valid() && iter.Valid() && iter.Pending() == old(iter.Pending())
    ensures iter.fTable.contents == old(iter.fTable.contents) - {key} && key in old(iter.fTable.contents)
    ensures iter.fTable.fBuckets == old(iter.fTable.fBuckets) && NodesOf(iter.fTable.chains) <= old(NodesOf(iter.fTable.chains))
  {
    hide Flatten, PairsOf, BucketsOf, NumBuckets, DownShift, Place, Ahead, Apart, AllLinked, HashSpec.Remove, PositionOf, Refines;
    ghost var table, b, i, t := iter.fTable, iter.fNextIndex - 1, iter.At() - 1, iter.fTable.Model();
    ghost var nodes, buckets := table.chains[b], BucketsOf(table.chains);
    EntryPosition(t, table.contents, b, i);
    ChainApart(table.chains, b);
    PlaceWithout(nodes, iter.fNextEntry, i);
    AheadWithout(buckets, iter.fNextIndex, i + 1, b, i);
    var ok := iter.fTable.Remove(key);
    assert BucketsOf(table.chains) == table.Model().buckets;
  }

  /** A list that holds every binding of a map, each once, and nothing else. */
  ghost predicate Enumerates(visited: Chain, m: map<Key, Pointer>) {
    && Distinct(visited)
    && (forall i :: 0 <= i < |visited| ==> visited[i].key in m)
    && forall key :: key in m ==> Pair(key, m[key]) in visited
  }

  lemma {:induction false} FlattenEnumerates(t: Table, m: map<Key, Pointer>)
    requires Refines(t, m)
    ensures Enumerates(Flatten(t.buckets), m)
  {
    hide Flatten, Refines, Distinct;
    EnumerationIsMap(t, m);
  }

  function KeysOf(c: Chain): set<Key> {
    set p | p in c :: p.key
  }

  lemma {:induction false} AllKeysVisited(visited: Chain, m: map<Key, Pointer>, doomed: set<Key>)
    requires Enumerates(visited, m)
    ensures m - (doomed * KeysOf(visited)) == m - doomed
  {
    forall key | key in m
      ensures key in KeysOf(visited)
    {
      assert Pair(key, m[key]) in visited;
    }
  }

  lemma {:induction false} VisitKeys(m: map<Key, Pointer>, visited: Chain, p: Pair, doomed: set<Key>)
    ensures m - (doomed * KeysOf(visited + [p])) ==
            if p.key in doomed then m - (doomed * KeysOf(visited)) - {p.key} else m - (doomed * KeysOf(visited))
  {
    assert KeysOf(visited + [p]) == KeysOf(visited) + {p.key} by {
      assert p in visited + [p];
      assert forall q :: q in visited ==> q in visited + [p];
    }
  }

  lemma {:induction false} NothingVisited(m: map<Key, Pointer>, doomed: set<Key>)
    ensures m - (doomed * KeysOf([])) == m
  {
  }

  lemma {:induction false} MoveOne(visited: Chain, p: Pair, rest: Chain)
    ensures visited + ([p] + rest) == (visited + [p]) + rest
  {
  }

  /** The entry next has returned, if any, and those still to come. */
  ghost function ToVisit(iter: Iterator, value: Pointer, key: Option<Key>): Chain
    reads iter, iter.fTable`chains, NodesOf(iter.fTable.chains)`value
    requires iter.Valid()
  {
    if key.Some? then [Pair(key.value, value)] + iter.Pending() else []
  }

  /** One step of such a walk: the entry is removed if it is no longer wanted, and the iterator goes on. */
  method VisitNext(iter: Iterator, key: Key, value: Pointer, doomed: set<Key>) returns (nextValue: Pointer, nextKey: Option<Key>)
    requires iter.fTable.Valid() && iter.Valid() && iter.Behind(Pair(key, value))
    modifies iter, iter.fTable, iter.fTable.fBuckets, NodesOf(iter.fTable.chains)
    ensures iter.fTable.Valid() && iter.Valid() && ToVisit(iter, nextValue, nextKey) == old(iter.Pending())
    ensures nextKey.Some? ==> iter.Behind(Pair(nextKey.value, nextValue))
    ensures iter.fTable.contents == if key in doomed then old(iter.fTable.contents) - {key} else old(iter.fTable.contents)
    ensures iter.fTable.fBuckets == old(iter.fTable.fBuckets) && NodesOf(iter.fTable.chains) <= old(NodesOf(iter.fTable.chains))
  {
    hide Flatten, PairsOf, BucketsOf, NumBuckets, DownShift, Place, Ahead, Apart, AllLinked, Refines;
    if key in doomed {
      RemoveVisited(iter, key, value);
    }
    nextValue, nextKey := iter.Next();
  }

  lemma {:induction false} ToVisitHead(iter: Iterator, value: Pointer, key: Option<Key>)
    requires iter.Valid() && key.Some?
    ensures ToVisit(iter, value, key) == [Pair(key.value, value)] + iter.Pending()
  {
    hide Ahead, Place, Flatten, PairsOf, BucketsOf;
  }

  lemma {:induction false} ToVisitEnd(iter: Iterator, value: Pointer, key: Option<Key>)
    requires iter.Valid() && key.None?
    ensures ToVisit(iter, value, key) == []
  {
    hide Ahead, Place, Flatten, PairsOf, BucketsOf;
  }

  method StartVisit(table: BasicHashTable) returns (value: Pointer, key: Option<Key>, iter: Iterator)
    requires table.Valid()
    ensures fresh(iter) && iter.fTable == table && iter.Valid() && table.Valid()
    ensures ToVisit(iter, value, key) == Flatten(BucketsOf(table.chains))
    ensures key.Some? ==> iter.Behind(Pair(key.value, value))
  {
    hide Flatten, PairsOf, BucketsOf, NumBuckets, DownShift, Place, Ahead, Linked, Apart, Refines;
    ghost var buckets := BucketsOf(table.chains);
    iter := new Iterator(table);
    assert BucketsOf(table.chains) == buckets;
    value, key := iter.Next();
    assert BucketsOf(table.chains) == buckets;
  }

  /** A caller walks through the table and removes, as it goes, the entries whose keys it no longer wants. */
  method VisitAll(table: BasicHashTable, doomed: set<Key>) returns (visited: Chain)
    requires table.Valid()
    modifies table, table.fBuckets, NodesOf(table.chains)
    ensures Enumerates(visited, old(table.contents))
    ensures table.Valid() && table.contents == old(table.contents) - doomed
  {
    hide Flatten, PairsOf, BucketsOf, NumBuckets, DownShift, Place, Ahead, Apart, AllLinked, Refines, Enumerates, KeysOf, Linked, ToVisit;
    ghost var all, m, nodes, buckets := Flatten(BucketsOf(table.chains)), table.contents, NodesOf(table.chains), table.fBuckets;
    FlattenEnumerates(table.Model(), m);
    NothingVisited(m, doomed);
    var value, key, iter := StartVisit(table);
    visited := [];
    ghost var left := all;
    while key.Some?
      invariant table.Valid() && iter.Valid() && iter.fTable == table && fresh(iter)
      invariant table.fBuckets == buckets && NodesOf(table.chains) <= nodes
      invariant key.Some? ==> iter.Behind(Pair(key.value, value))
      invariant left == ToVisit(iter, value, key) && all == visited + left
      invariant table.contents == m - (doomed * KeysOf(visited))
      decreases |left|
    {
      ghost var p := Pair(key.value, value);
      ToVisitHead(iter, value, key);
      VisitKeys(m, visited, p, doomed);
      MoveOne(visited, p, iter.Pending());
      visited := visited + [Pair(key.value, value)];
      left := iter.Pending();
      value, key := VisitNext(iter, key.value, value, doomed);
    }
    ToVisitEnd(iter, value, key);
    assert visited + [] == visited;
    AllKeysVisited(visited, m, doomed);
  }
}
