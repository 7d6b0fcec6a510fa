/** The hash table itself: an array of singly linked chains, rebuilt in place, with an iterator that survives the
    deletion of the entry it has just returned. */
module HashTables {
  import opened Bits
  import opened BitReading
  import opened HashSpec
  import opened HashTheorems

  class TableEntry {
    var fNext: TableEntry?
    const key: Key
    var value: Pointer

    constructor (key: Key, value: Pointer)
      ensures this.key == key && this.value == value && fNext == null
    {
      this.key, this.value, fNext := key, value, null;
    }
  }

  ghost predicate Linked(head: TableEntry?, nodes: seq<TableEntry>)
    reads nodes`fNext
  {
    && head == (if nodes == [] then null else nodes[0])
    && forall j {:trigger nodes[j].fNext} :: 0 <= j < |nodes| ==> nodes[j].fNext == if j + 1 < |nodes| then nodes[j + 1] else null
  }

  ghost function PairsOf(nodes: seq<TableEntry>): (c: Chain)
    reads nodes`value
    ensures |c| == |nodes|
    ensures forall j :: 0 <= j < |nodes| ==> c[j] == Pair(nodes[j].key, nodes[j].value)
  {
    if nodes == [] then [] else PairsOf(nodes[..|nodes| - 1]) + [Pair(nodes[|nodes| - 1].key, nodes[|nodes| - 1].value)]
  }

  ghost function NodesOf(chains: seq<seq<TableEntry>>): (s: set<TableEntry>)
  {
    set b, i | 0 <= b < |chains| && 0 <= i < |chains[b]| :: chains[b][i]
  }

  lemma {:induction false} NodesOfFront(chains: seq<seq<TableEntry>>)
    requires chains != []
    ensures NodesOf(chains[..|chains| - 1]) <= NodesOf(chains)
    ensures forall x :: x in chains[|chains| - 1] ==> x in NodesOf(chains)
  {
  }

  ghost function BucketsOf(chains: seq<seq<TableEntry>>): (buckets: seq<Chain>)
    reads NodesOf(chains)`value
    ensures |buckets| == |chains|
    ensures forall b :: 0 <= b < |chains| ==> buckets[b] == PairsOf(chains[b])
  {
    if chains == [] then []
    else
      NodesOfFront(chains);
      BucketsOf(chains[..|chains| - 1]) + [PairsOf(chains[|chains| - 1])]
  }

  /** No node stands twice in the chains. */
  ghost predicate Apart(chains: seq<seq<TableEntry>>) {
    forall b, i, c, j ::
      0 <= b < |chains| && 0 <= i < |chains[b]| && 0 <= c < |chains| && 0 <= j < |chains[c]| && (b != c || i != j) ==>
      chains[b][i] != chains[c][j]
  }

  ghost predicate AllLinked(buckets: array<TableEntry?>, chains: seq<seq<TableEntry>>)
    reads buckets, NodesOf(chains)`fNext
  {
    buckets.Length == |chains| && forall b :: 0 <= b < |chains| ==> Linked(buckets[b], chains[b])
  }

  class BasicHashTable {
    var fBuckets: array<TableEntry?>
    var fNumBuckets: nat
    var fNumEntries: nat
    var fRebuildSize: nat
    var fDownShift: nat
    var fMask: nat
    ghost var level: nat
    ghost var chains: seq<seq<TableEntry>>
    ghost var contents: map<Key, Pointer>

    /** The sizes after `level` rebuilds. */
    ghost predicate Sized()
      reads `level, `chains, `fBuckets, `fNumBuckets, `fRebuildSize, `fMask, `fDownShift
    {
      && level <= 14
      && fNumBuckets == NumBuckets(level) == fBuckets.Length == |chains|
      && fRebuildSize == REBUILD_MULTIPLIER * fNumBuckets
      && fMask == fNumBuckets - 1
      && fDownShift == DownShift(level)
    }

    ghost function Model(): Table
      reads this, NodesOf(chains)`value
    {
      Table(BucketsOf(chains), level, fNumEntries)
    }

    ghost predicate Valid()
      reads this, fBuckets, NodesOf(chains)
    {
      && Sized() && Apart(chains)
      && AllLinked(fBuckets, chains)
      && Refines(Model(), contents)
    }

    constructor ()
      ensures Valid() && contents == map[] && fresh(fBuckets)
    {
      fBuckets := new TableEntry?[SMALL_HASH_TABLE_SIZE](_ => null);
      fNumBuckets, fNumEntries, fRebuildSize := SMALL_HASH_TABLE_SIZE, 0, SMALL_HASH_TABLE_SIZE * REBUILD_MULTIPLIER;
      fDownShift, fMask := 28, 0x3;
      level, contents := 0, map[];
      chains := seq(SMALL_HASH_TABLE_SIZE, _ => []);
      new;
      BucketsPerLevel(0);
      InitialRefines();
      assert BucketsOf(chains) == Empty(0);
    }

    /** hashIndexFromKey */
    method HashIndexFromKey(key: Key) returns (result: nat)
      requires Sized()
      ensures result == Index(key, level)
    {
      hide And, NumBuckets, ShiftRight;
      match key {
        case Text(chars) =>
          result := 0;
          for i := 0 to |chars|
            invariant result == TextHash(chars[..i])
          {
            assert chars[..i + 1][..i] == chars[..i];
            result := (result + (8 * result + chars[i] % U32_MODULUS)) % U32_MODULUS;
          }
          assert chars[..|chars|] == chars;
          result := And(result, fMask);
        case OneWord(word) =>
          result := RandomIndex(word, fDownShift, fMask);
        case Words(words) =>
          var sum := 0;
          for i := 0 to |words|
            invariant sum == Sum(words[..i])
          {
            assert words[..i + 1][..i] == words[..i];
            sum := (sum + words[i]) % U64_MODULUS;
          }
          assert words[..|words|] == words;
          result := RandomIndex(sum, fDownShift, fMask);
      }
    }

    method LookupKey(key: Key) returns (entry: TableEntry?, index: nat)
      requires Valid()
      ensures index == Index(key, level) < |chains|
      ensures var i := FindKey(PairsOf(chains[index]), key);
        entry == if i < |chains[index]| then chains[index][i] else null
    {
      hide Index, FindKey, Apart, Refines, PairsOf;
      index := HashIndexFromKey(key);
      entry := fBuckets[index];
      ghost var nodes, i := chains[index], 0;
      assert Linked(fBuckets[index], chains[index]);
      while entry != null
        invariant i <= |nodes| && entry == if i < |nodes| then nodes[i] else null
        invariant forall j :: 0 <= j < i ==> nodes[j].key != key
        decreases |nodes| - i
      {
        if entry.key == key {
          FindKeyUnique(PairsOf(nodes), key, i);
          return;
        }
        entry := entry.fNext;
        i := i + 1;
      }
      FindKeyUnique(PairsOf(nodes), key, i);
    }

    method Lookup(key: Key) returns (value: Pointer)
      requires Valid()
      ensures value == if key in contents then contents[key] else 0
    {
      hide Index, FindKey, Apart, WellHashed, Represents, PairsOf;
      ShapeOf(Model(), contents);
      LookupRefines(Model(), contents, key);
      var entry, index := LookupKey(key);
      value := if entry == null then 0 else entry.value;
    }

    /** Well linked, whatever the entries. */
    ghost predicate Formed()
      reads `level, `chains, `fBuckets, `fNumBuckets, `fRebuildSize, `fMask, `fDownShift, fBuckets, NodesOf(chains)`fNext
    {
      Sized() && Apart(chains) && AllLinked(fBuckets, chains)
    }

    /** Overwrites the value of entry `i` of a chain. */
    method SetValue(entry: TableEntry, value: Pointer, ghost index: nat, ghost i: nat)
      requires Formed() && index < |chains| && i < |chains[index]| && entry == chains[index][i]
      modifies entry`value
      ensures Formed()
      ensures BucketsOf(chains) == old(BucketsOf(chains))[index := old(PairsOf(chains[index]))[i := Pair(entry.key, value)]]
    {
      ghost var was := BucketsOf(chains);
      entry.value := value;
      hide PairsOf, BucketsOf, Linked;
      assert PairsOf(chains[index]) == was[index][i := Pair(entry.key, value)];
      forall b | 0 <= b < |chains|
        ensures BucketsOf(chains)[b] == was[index := was[index][i := Pair(entry.key, value)]][b]
      {
        if b != index { assert PairsOf(chains[b]) == was[b]; }
      }
    }

    /** Puts an existing entry in front of a chain. */
    method PushEntry(entry: TableEntry, index: nat)
      requires Formed() && index < |chains| && entry !in NodesOf(chains)
      modifies this`chains, fBuckets, entry`fNext
      ensures Formed() && chains == old(chains)[index := [entry] + old(chains)[index]]
      ensures BucketsOf(chains) == old(BucketsOf(chains))[index := [Pair(entry.key, entry.value)] + old(PairsOf(chains[index]))]
    {
      hide PairsOf, BucketsOf, Apart, NumBuckets, DownShift;
      ghost var was, before := BucketsOf(chains), chains;
      entry.fNext := fBuckets[index];
      assert Linked(fBuckets[index], chains[index]);
      fBuckets[index] := entry;
      chains := chains[index := [entry] + chains[index]];
      FreshApart(before, index, entry);
      NotInChains(before, entry);
      assert PairsOf(chains[index]) == [Pair(entry.key, entry.value)] + was[index];
      forall b | 0 <= b < |chains|
        ensures Linked(fBuckets[b], chains[b])
        ensures BucketsOf(chains)[b] == was[index := [Pair(entry.key, entry.value)] + was[index]][b]
      {
        assert old(Linked(fBuckets[b], chains[b]));
        if b != index { assert PairsOf(chains[b]) == was[b]; }
      }
    }

    /** insertNewEntry, with the value its caller gives the entry. */
    method InsertNewEntry(index: nat, key: Key, value: Pointer)
      requires Formed() && index < |chains|
      modifies this`fNumEntries, this`chains, fBuckets
      ensures Formed() && fNumEntries == old(fNumEntries) + 1
      ensures fresh(NodesOf(chains) - old(NodesOf(chains)))
      ensures BucketsOf(chains) == old(BucketsOf(chains))[index := [Pair(key, value)] + old(PairsOf(chains[index]))]
    {
      hide PairsOf, BucketsOf, Apart, NumBuckets, DownShift, Linked, AllLinked;
      ghost var was := BucketsOf(chains);
      var entry := new TableEntry(key, value);
      assert BucketsOf(chains) == was;
      PushNodes(chains, index, entry);
      PushEntry(entry, index);
      fNumEntries := fNumEntries + 1;
    }

    /** Takes the head off old chain `o`. */
    method DetachHead(oldBuckets: array<TableEntry?>, o: nat, ghost pending: seq<seq<TableEntry>>) returns (hPtr: TableEntry)
      requires AllLinked(oldBuckets, pending) && o < |pending| && pending[o] != [] && Apart(pending)
      modifies oldBuckets
      ensures hPtr == pending[o][0] && AllLinked(oldBuckets, pending[o := pending[o][1..]])
    {
      hide Apart;
      assert Linked(oldBuckets[o], pending[o]);
      hPtr := oldBuckets[o];
      oldBuckets[o] := hPtr.fNext;
      ghost var rest := pending[o := pending[o][1..]];
      forall c | 0 <= c < |pending|
        ensures Linked(oldBuckets[c], rest[c])
      {
        assert old(Linked(oldBuckets[c], pending[c]));
      }
    }

    /** One step of the rehashing loop: the head of old chain `o` moves to its new chain. */
    method MoveHead(oldBuckets: array<TableEntry?>, o: nat, ghost pending: seq<seq<TableEntry>>)
      requires Formed() && oldBuckets != fBuckets
      requires AllLinked(oldBuckets, pending) && Apart(pending) && NodesOf(pending) !! NodesOf(chains)
      requires o < |pending| && pending[o] != [] && forall c :: 0 <= c < o ==> pending[c] == []
      modifies this`chains, fBuckets, oldBuckets, NodesOf(pending)`fNext
      ensures Formed()
      ensures var rest := pending[o := pending[o][1..]];
        && AllLinked(oldBuckets, rest) && Apart(rest) && NodesOf(rest) !! NodesOf(chains) && NodesOf(rest) <= NodesOf(pending)
        && NodesOf(chains) <= old(NodesOf(chains)) + NodesOf(pending)
        && PushAll(BucketsOf(chains), level, Flatten(BucketsOf(rest)))
           == old(PushAll(BucketsOf(chains), level, Flatten(BucketsOf(pending))))
    {
      hide PairsOf, BucketsOf, Apart, NumBuckets, DownShift, Index, PushAll, Flatten, AllLinked;
      ghost var rest, was, buckets, before := pending[o := pending[o][1..]], BucketsOf(pending), BucketsOf(chains), chains;
      NodesInChain(pending, o);
      HeadApart(pending, o);
      RestBuckets(pending, o, was);
      var hPtr := DetachHead(oldBuckets, o, pending);
      assert AllLinked(fBuckets, chains) && BucketsOf(chains) == buckets;
      var index := HashIndexFromKey(hPtr.key);
      ghost var head, tail := Pair(hPtr.key, hPtr.value), BucketsOf(rest);
      PushEntry(hPtr, index);
      assert BucketsOf(rest) == tail && BucketsOf(chains) == buckets[index := [head] + buckets[index]];
      PushNodes(before, index, hPtr);
      FlattenHead(was, o);
      ghost var all := Flatten(was);
      assert all[0] == head && all[1..] == Flatten(tail);
      PushAllHead(buckets, level, all);
    }

    /** Moves every entry of the old chains. */
    method MoveAll(oldBuckets: array<TableEntry?>, ghost oldChains: seq<seq<TableEntry>>)
      requires Formed() && oldBuckets != fBuckets
      requires AllLinked(oldBuckets, oldChains) && Apart(oldChains) && NodesOf(oldChains) !! NodesOf(chains)
      modifies this`chains, fBuckets, oldBuckets, NodesOf(oldChains)`fNext
      ensures Formed() && NodesOf(chains) <= old(NodesOf(chains)) + NodesOf(oldChains)
      ensures BucketsOf(chains) == old(PushAll(BucketsOf(chains), level, Flatten(BucketsOf(oldChains))))
    {
      hide BucketsOf, PairsOf, Apart, NumBuckets, DownShift, PushAll, Flatten, Linked;
      ghost var target := PushAll(BucketsOf(chains), level, Flatten(BucketsOf(oldChains)));
      ghost var nodes, newNodes, pending := NodesOf(oldChains), NodesOf(chains), oldChains;
      var oldChain := 0;
      while oldChain < oldBuckets.Length
        invariant oldChain <= oldBuckets.Length == |pending|
        invariant Formed() && AllLinked(oldBuckets, pending) && Apart(pending)
        invariant NodesOf(pending) <= nodes && NodesOf(chains) <= newNodes + nodes && NodesOf(pending) !! NodesOf(chains)
        invariant forall c :: 0 <= c < oldChain ==> pending[c] == []
        invariant PushAll(BucketsOf(chains), level, Flatten(BucketsOf(pending))) == target
        decreases |pending| - oldChain, if oldChain < |pending| then |pending[oldChain]| else 0
      {
        HeadOf(oldBuckets, pending, oldChain);
        if oldBuckets[oldChain] != null {
          MoveHead(oldBuckets, oldChain, pending);
          pending := pending[oldChain := pending[oldChain][1..]];
        } else {
          oldChain := oldChain + 1;
        }
      }
      FlattenEmpty(BucketsOf(pending));
      PushNothing(BucketsOf(chains), level);
    }

    /** The first half of rebuild: the new table, with no entries in it yet. */
    method Grow()
      requires Formed() && level < 14
      modifies this`fNumBuckets, this`fBuckets, this`fRebuildSize, this`fDownShift, this`fMask, this`level, this`chains
      ensures Formed() && level == old(level) + 1 && fresh(fBuckets)
      ensures NodesOf(chains) == {} && BucketsOf(chains) == Empty(level)
    {
      hide BucketsOf, PairsOf, NumBuckets, AllLinked, Linked, Apart;
      BucketsPerLevel(level);
      fNumBuckets := fNumBuckets * 4;
      fBuckets := new TableEntry?[fNumBuckets](_ => null);
      fRebuildSize := fRebuildSize * 4;
      fDownShift := fDownShift - 2;
      fMask := 4 * fMask + 3;
      level := level + 1;
      chains := seq(fNumBuckets, _ => []);
      EmptyChains(fBuckets, chains, level);
    }

    method Rebuild()
      requires Formed() && level < 14
      modifies this`fNumBuckets, this`fBuckets, this`fRebuildSize, this`fDownShift, this`fMask, this`level, this`chains
      modifies fBuckets, NodesOf(chains)`fNext
      ensures Formed() && level == old(level) + 1
      ensures fresh(fBuckets) && NodesOf(chains) <= old(NodesOf(chains))
      ensures Model() == HashSpec.Rebuild(old(Model()))
    {
      hide BucketsOf, PairsOf, Apart, NumBuckets, PushAll, Flatten, Linked, AllLinked, DownShift;
      ghost var entries, oldChains := BucketsOf(chains), chains;
      var oldBuckets := fBuckets;
      Grow();
      assert BucketsOf(oldChains) == entries;
      MoveAll(oldBuckets, oldChains);
    }

    /** The walk of deleteEntry, to the link that points to the entry. */
    method UnlinkEntry(index: nat, entry: TableEntry, ghost i: nat)
      requires Formed() && index < |chains| && i < |chains[index]| && entry == chains[index][i]
      modifies fBuckets, NodesOf(chains)`fNext
      ensures forall b :: 0 <= b < |chains| ==> Linked(fBuckets[b], chains[index := Without(chains[index], i)][b])
      ensures entry.fNext == old(entry.fNext)
    {
      hide NumBuckets, DownShift, Apart, NodesOf;
      ghost var nodes := chains[index];
      assert Linked(fBuckets[index], nodes);
      NodesInChain(chains, index);
      ChainApart(chains, index);
      var prev: TableEntry?, cur, foundIt := null, fBuckets[index], false;
      ghost var k := 0;
      while cur != null && !foundIt
        invariant k <= i && cur == nodes[k] && prev == if k == 0 then null else nodes[k - 1]
        invariant !foundIt
        decreases |nodes| - k
      {
        if cur == entry {
          foundIt := true;
          break;
        }
        prev := cur;
        cur := cur.fNext;
        k := k + 1;
      }
      if prev == null {
        fBuckets[index] := entry.fNext;
      } else {
        prev.fNext := entry.fNext;
      }
      forall b | 0 <= b < |chains|
        ensures Linked(fBuckets[b], chains[index := Without(nodes, i)][b])
      {
        assert old(Linked(fBuckets[b], chains[b]));
        if b == index {
          forall j | 0 <= j < |nodes| - 1
            ensures Without(nodes, i)[j].fNext == if j + 1 < |nodes| - 1 then Without(nodes, i)[j + 1] else null
          {
            assert Without(nodes, i)[j] == nodes[if j < i then j else j + 1];
          }
        }
      }
    }

    /** deleteEntry */
    method DeleteEntry(index: nat, entry: TableEntry, ghost i: nat)
      requires Formed() && index < |chains| && i < |chains[index]| && entry == chains[index][i] && fNumEntries > 0
      modifies this`fNumEntries, this`chains, fBuckets, NodesOf(chains)`fNext
      ensures Formed() && fNumEntries == old(fNumEntries) - 1
      ensures chains == old(chains)[index := Without(old(chains)[index], i)]
      ensures BucketsOf(chains) == old(BucketsOf(chains))[index := Without(old(PairsOf(chains[index])), i)]
      ensures entry.fNext == old(entry.fNext)
    {
      hide PairsOf, BucketsOf, NumBuckets, DownShift, Apart, Linked;
      ghost var was, before := BucketsOf(chains), chains;
      UnlinkEntry(index, entry, i);
      fNumEntries := fNumEntries - 1;
      WithoutApart(chains, index, i);
      chains := chains[index := Without(chains[index], i)];
      assert PairsOf(chains[index]) == Without(was[index], i);
      forall b | 0 <= b < |chains|
        ensures BucketsOf(chains)[b] == was[index := Without(was[index], i)][b]
      {
        if b != index { assert PairsOf(chains[b]) == was[b]; }
      }
    }

    /** Add, up to the check of the table's size. */
    method Put(key: Key, value: Pointer) returns (oldValue: Pointer)
      requires Valid() && Growable(Model())
      modifies this`fNumEntries, this`chains, fBuckets, NodesOf(chains)`value
      ensures Formed() && fNumEntries <= old(fNumEntries) + 1
      ensures fresh(NodesOf(chains) - old(NodesOf(chains)))
      ensures Model() == Insert(old(Model()), key, value)
      ensures oldValue == OldValue(old(Model()), key)
    {
      hide Refines, Growable, Insert, OldValue, Index, FindKey, Apart, AllLinked, Linked, WellHashed, Represents, PairsOf, BucketsOf, NumBuckets, DownShift, LookupIn;
      ghost var t := Model();
      ShapeOf(t, contents);
      var entry, index := LookupKey(key);
      PutCases(t, key, value);
      ghost var i, u := FindKey(PairsOf(chains[index]), key), Insert(t, key, value);
      if entry != null {
        oldValue := entry.value;
        SetValue(entry, value, index, i);
        assert BucketsOf(chains) == u.buckets && fNumEntries == u.numEntries;
      } else {
        oldValue := 0;
        InsertNewEntry(index, key, value);
        assert BucketsOf(chains) == u.buckets && fNumEntries == u.numEntries;
      }
    }

    method Add(key: Key, value: Pointer) returns (oldValue: Pointer)
      requires Valid() && Growable(Model())
      modifies this, fBuckets, NodesOf(chains)
      ensures Valid() && Model() == HashSpec.Add(old(Model()), key, value)
      ensures contents == old(contents)[key := value]
      ensures oldValue == if key in old(contents) then old(contents)[key] else 0
      ensures fNumEntries < REBUILD_MULTIPLIER * fNumBuckets
    {
      hide Insert, OldValue, Apart, AllLinked, WellHashed, Represents, BucketsOf, PairsOf, NumBuckets, DownShift, HashSpec.Rebuild;
      ghost var t, m := Model(), contents;
      ShapeOf(t, m);
      AddRefines(t, m, key, value);
      BucketsPerLevel(level);
      oldValue := Put(key, value);
      contents := contents[key := value];
      if fNumEntries >= fRebuildSize {
        Rebuild();
      }
    }

    method Remove(key: Key) returns (ok: bool)
      requires Valid()
      modifies this, fBuckets, NodesOf(chains)
      ensures Valid() && contents == old(contents) - {key} && ok == (key in old(contents))
      ensures Model() == HashSpec.Remove(old(Model()), key)
      ensures fBuckets == old(fBuckets) && NodesOf(chains) <= old(NodesOf(chains))
      ensures chains == if ok then WithoutAt(old(chains), PositionOf(old(Model()), key)) else old(chains)
    {
      hide Refines, Growable, Insert, OldValue, Index, FindKey, Apart, AllLinked, Linked, WellHashed, Represents, PairsOf, BucketsOf, NumBuckets, DownShift, LookupIn;
      ghost var t := Model();
      ShapeOf(t, contents);
      RemoveRefines(t, contents, key);
      var entry, index := LookupKey(key);
      ghost var i := FindKey(PairsOf(chains[index]), key);
      RemoveCases(t, contents, key);
      if entry == null {
        contents := contents - {key};
        return false;
      }
      DeleteEntry(index, entry, i);
      contents := contents - {key};
      assert Model() == HashSpec.Remove(t, key);
      ok := true;
    }
  }

  lemma {:induction false} PutCases(t: Table, key: Key, value: Pointer)
    requires t.level <= 14 && |t.buckets| == NumBuckets(t.level)
    ensures var b, u := Index(key, t.level), Insert(t, key, value);
      var i := FindKey(t.buckets[b], key);
      if i < |t.buckets[b]| then
        && u == Table(t.buckets[b := t.buckets[b][i := Pair(key, value)]], t.level, t.numEntries)
        && OldValue(t, key) == t.buckets[b][i].value && t.buckets[b][i].key == key
      else u == Table(t.buckets[b := [Pair(key, value)] + t.buckets[b]], t.level, t.numEntries + 1) && OldValue(t, key) == 0
  {
    hide FindKey, Index;
  }

  lemma {:induction false} RemoveCases(t: Table, m: map<Key, Pointer>, key: Key)
    requires Refines(t, m)
    ensures var b, u := Index(key, t.level), HashSpec.Remove(t, key);
      var i := FindKey(t.buckets[b], key);
      if i < |t.buckets[b]| then
        key in m && t.numEntries > 0 && u == Table(t.buckets[b := Without(t.buckets[b], i)], t.level, t.numEntries - 1)
      else key !in m && u == t && m - {key} == m
  {
    hide FindKey, Index, WellHashed, Represents;
    ShapeOf(t, m);
    LookupRefines(t, m, key);
    RemoveSize(m, key);
    if key in m {
      assert |m| > 0 by { assert m.Keys != {}; }
    }
  }

  lemma {:induction false} NotInChains(chains: seq<seq<TableEntry>>, entry: TableEntry)
    requires entry !in NodesOf(chains)
    ensures forall b, j :: 0 <= b < |chains| && 0 <= j < |chains[b]| ==> chains[b][j] != entry
  {
  }

  lemma {:induction false} PushNodes(chains: seq<seq<TableEntry>>, index: nat, entry: TableEntry)
    requires index < |chains|
    ensures NodesOf(chains[index := [entry] + chains[index]]) == NodesOf(chains) + {entry}
  {
    var after := chains[index := [entry] + chains[index]];
    assert after[index][0] == entry;
    forall x | x in NodesOf(chains)
      ensures x in NodesOf(after)
    {
      var b, i :| 0 <= b < |chains| && 0 <= i < |chains[b]| && chains[b][i] == x;
      assert after[b][if b == index then i + 1 else i] == x;
    }
  }

  lemma {:induction false} HeadApart(pending: seq<seq<TableEntry>>, o: nat)
    requires Apart(pending) && o < |pending| && pending[o] != []
    ensures var rest := pending[o := pending[o][1..]];
      && Apart(rest) && NodesOf(rest) <= NodesOf(pending) && pending[o][0] !in NodesOf(rest)
      && forall b, j :: 0 <= b < |rest| && 0 <= j < |rest[b]| ==> rest[b][j] != pending[o][0]
  {
    WithoutApart(pending, o, 0);
    assert Without(pending[o], 0) == pending[o][1..];
    var rest := pending[o := pending[o][1..]];
    assert forall b, j :: 0 <= b < |rest| && 0 <= j < |rest[b]| ==> rest[b][j] == pending[b][if b == o then j + 1 else j];
  }

  /** The entries of the chains after their first head is taken. */
  lemma {:induction false} RestBuckets(pending: seq<seq<TableEntry>>, o: nat, was: seq<Chain>)
    requires o < |pending| && pending[o] != [] && was == BucketsOf(pending)
    ensures BucketsOf(pending[o := pending[o][1..]]) == was[o := was[o][1..]]
  {
    hide PairsOf, BucketsOf;
    var rest := pending[o := pending[o][1..]];
    forall b | 0 <= b < |rest|
      ensures BucketsOf(rest)[b] == was[o := was[o][1..]][b]
    {
      if b == o { assert PairsOf(rest[o]) == was[o][1..]; }
    }
  }

  lemma {:induction false} FlattenHead(buckets: seq<Chain>, o: nat)
    requires o < |buckets| && buckets[o] != [] && forall c :: 0 <= c < o ==> buckets[c] == []
    ensures Flatten(buckets) == [buckets[o][0]] + Flatten(buckets[o := buckets[o][1..]])
    decreases o
  {
    var after := buckets[o := buckets[o][1..]];
    if o > 0 {
      assert after[1..] == buckets[1..][o - 1 := buckets[o][1..]];
      FlattenHead(buckets[1..], o - 1);
    } else {
      assert after[1..] == buckets[1..];
      assert buckets[0] == [buckets[0][0]] + buckets[0][1..];
    }
  }

  lemma {:induction false} HeadOf(buckets: array<TableEntry?>, chains: seq<seq<TableEntry>>, b: nat)
    requires AllLinked(buckets, chains) && b < |chains|
    ensures buckets[b] != null <==> chains[b] != []
  {
    assert Linked(buckets[b], chains[b]);
  }

  lemma {:induction false} FlattenEmpty(buckets: seq<Chain>)
    requires forall c :: 0 <= c < |buckets| ==> buckets[c] == []
    ensures Flatten(buckets) == []
    decreases |buckets|
  {
    if buckets != [] { FlattenEmpty(buckets[1..]); }
  }

  lemma {:induction false} PushNothing(buckets: seq<Chain>, level: nat)
    requires level <= 14 && |buckets| == NumBuckets(level)
    ensures PushAll(buckets, level, []) == buckets
  {
  }

  lemma {:induction false} EmptyChains(buckets: array<TableEntry?>, chains: seq<seq<TableEntry>>, level: nat)
    requires buckets.Length == |chains| == NumBuckets(level)
    requires forall b :: 0 <= b < |chains| ==> buckets[b] == null && chains[b] == []
    ensures AllLinked(buckets, chains) && Apart(chains) && NodesOf(chains) == {}
    ensures BucketsOf(chains) == Empty(level)
  {
    hide NumBuckets;
    assert forall b :: 0 <= b < |chains| ==> BucketsOf(chains)[b] == PairsOf(chains[b]) == [];
  }

  lemma {:induction false} PushAllHead(buckets: seq<Chain>, level: nat, entries: Chain)
    requires level <= 14 && |buckets| == NumBuckets(level) && entries != []
    ensures var b := Index(entries[0].key, level);
      PushAll(buckets, level, entries) == PushAll(buckets[b := [entries[0]] + buckets[b]], level, entries[1..])
  {
  }

  function Without<T>(s: seq<T>, i: nat): seq<T>
    requires i < |s|
  {
    s[..i] + s[i + 1..]
  }

  /** Where the entry of a key is: its bucket, and its place in the chain. */
  ghost function PositionOf(t: Table, key: Key): (nat, nat) {
    if t.level <= 14 && |t.buckets| == NumBuckets(t.level) then
      (Index(key, t.level), FindKey(t.buckets[Index(key, t.level)], key))
    else (0, 0)
  }

  ghost function WithoutAt(chains: seq<seq<TableEntry>>, at: (nat, nat)): seq<seq<TableEntry>> {
    if at.0 < |chains| && at.1 < |chains[at.0]| then chains[at.0 := Without(chains[at.0], at.1)] else chains
  }

  lemma {:induction false} WithoutApart(chains: seq<seq<TableEntry>>, index: nat, i: nat)
    requires Apart(chains) && index < |chains| && i < |chains[index]|
    ensures Apart(chains[index := Without(chains[index], i)])
    ensures NodesOf(chains[index := Without(chains[index], i)]) <= NodesOf(chains)
  {
    var after := chains[index := Without(chains[index], i)];
    assert forall b, j :: 0 <= b < |after| && 0 <= j < |after[b]| ==>
      after[b][j] == chains[b][if b == index && j >= i then j + 1 else j];
  }

  lemma {:induction false} NodesInChain(chains: seq<seq<TableEntry>>, index: nat)
    requires index < |chains|
    ensures forall j :: 0 <= j < |chains[index]| ==> chains[index][j] in NodesOf(chains)
  {
  }

  lemma {:induction false} ChainApart(chains: seq<seq<TableEntry>>, index: nat)
    requires Apart(chains) && index < |chains|
    ensures forall i, j :: 0 <= i < j < |chains[index]| ==> chains[index][i] != chains[index][j]
    ensures forall i, b, j :: 0 <= i < |chains[index]| && 0 <= b < |chains| && b != index && 0 <= j < |chains[b]| ==>
              chains[index][i] != chains[b][j]
  {
  }

  lemma {:induction false} FreshApart(chains: seq<seq<TableEntry>>, index: nat, entry: TableEntry)
    requires Apart(chains) && index < |chains| && entry !in NodesOf(chains)
    ensures Apart(chains[index := [entry] + chains[index]])
  {
    var after := chains[index := [entry] + chains[index]];
    forall b, i, c, j | 0 <= b < |after| && 0 <= i < |after[b]| && 0 <= c < |after| && 0 <= j < |after[c]| && (b != c || i != j)
      ensures after[b][i] != after[c][j]
    {
      assert after[b][i] == entry || after[b][i] == chains[b][if b == index then i - 1 else i];
      assert after[c][j] == entry || after[c][j] == chains[c][if c == index then j - 1 else j];
    }
  }
}
