/** The hash table refines a finite map under every sequence of operations, and enumerating it meets every entry once. */
module HashTheorems {
  import opened Options
  import opened HashSpec

  lemma {:induction false} InsertRefines(t: Table, m: map<Key, Pointer>, key: Key, value: Pointer)
    requires WellHashed(t.buckets, t.level) && Represents(t.buckets, t.level, m) && t.numEntries == |m|
    ensures var u := Insert(t, key, value);
      && WellHashed(u.buckets, u.level) && Represents(u.buckets, u.level, m[key := value])
      && u.numEntries == |m[key := value]|
      && u.numEntries == if key in m then t.numEntries else t.numEntries + 1
  {
    hide FindKey, Index, SetIn;
    var u, b := Insert(t, key, value), Index(key, t.level);
    SetInFinds(t.buckets[b], key, value, key);
    assert LookupIn(t.buckets, t.level, key) == if key in m then Some(m[key]) else None;
    forall k
      ensures LookupIn(u.buckets, u.level, k) == if k in m[key := value] then Some(m[key := value][k]) else None
    {
      assert LookupIn(t.buckets, t.level, k) == if k in m then Some(m[k]) else None;
      SetInFinds(t.buckets[b], key, value, k);
    }
    UpdateSize(m, key, value);
    forall c, i | 0 <= c < |u.buckets| && 0 <= i < |u.buckets[c]|
      ensures Index(u.buckets[c][i].key, t.level) == c
    {
      if c == b {
        assert u.buckets[c][i] in SetIn(t.buckets[b], key, value);
      }
    }
  }

  lemma {:induction false} UpdateSize(m: map<Key, Pointer>, key: Key, value: Pointer)
    ensures |m[key := value]| == if key in m then |m| else |m| + 1
  {
    if key in m {
      assert m[key := value].Keys == m.Keys;
    } else {
      assert m[key := value].Keys == m.Keys + {key};
    }
  }

  lemma {:induction false} RemoveFinds(t: Table, key: Key, k: Key)
    requires WellHashed(t.buckets, t.level) && t.numEntries > 0
    ensures LookupIn(Remove(t, key).buckets, t.level, k) == if k == key then None else LookupIn(t.buckets, t.level, k)
  {
    hide FindKey, Index, DropIn;
    DropInFinds(t.buckets[Index(key, t.level)], key, k);
    DropMissing(t.buckets[Index(key, t.level)], key);
  }

  lemma {:induction false} DropMissing(c: Chain, key: Key)
    ensures FindKey(c, key) == |c| ==> DropIn(c, key) == c
  {
  }

  lemma {:induction false} RemoveWellHashed(t: Table, key: Key)
    requires WellHashed(t.buckets, t.level)
    ensures WellHashed(Remove(t, key).buckets, t.level) && Remove(t, key).level == t.level
  {
    hide FindKey, Index, DropIn;
    var u, b := Remove(t, key), Index(key, t.level);
    DropInFinds(t.buckets[b], key, key);
    forall c, i | 0 <= c < |u.buckets| && 0 <= i < |u.buckets[c]|
      ensures Index(u.buckets[c][i].key, t.level) == c
    {
      if c == b && u != t {
        assert u.buckets[c][i] in DropIn(t.buckets[b], key);
      }
    }
  }

  lemma {:induction false} RemoveSize(m: map<Key, Pointer>, key: Key)
    ensures |m - {key}| == if key in m then |m| - 1 else |m|
    ensures key !in m ==> m - {key} == m
  {
    if key in m {
      assert (m - {key}).Keys == m.Keys - {key};
    } else {
      assert m - {key} == m;
    }
  }

  lemma {:induction false} RemoveRefines(t: Table, m: map<Key, Pointer>, key: Key)
    requires Refines(t, m)
    ensures Refines(Remove(t, key), m - {key})
    ensures key in m <==> LookupIn(t.buckets, t.level, key).Some?
  {
    hide WellHashed, LookupIn, FindKey, Index, DropIn;
    var n := m - {key};
    WellHashedShape(t.buckets, t.level);
    assert LookupIn(t.buckets, t.level, key) == if key in m then Some(m[key]) else None;
    RemoveSize(m, key);
    RemoveWellHashed(t, key);
    RemoveCount(t, key);
    if t.numEntries > 0 {
      forall k
        ensures LookupIn(Remove(t, key).buckets, t.level, k) == if k in n then Some(n[k]) else None
      {
        assert LookupIn(t.buckets, t.level, k) == if k in m then Some(m[k]) else None;
        RemoveFinds(t, key, k);
      }
    } else {
      assert m == map[];
    }
  }

  lemma {:induction false} RemoveCount(t: Table, key: Key)
    requires WellHashed(t.buckets, t.level)
    ensures var u := Remove(t, key);
      && u.numEntries == (if LookupIn(t.buckets, t.level, key).Some? && t.numEntries > 0 then t.numEntries - 1 else t.numEntries)
      && |u.buckets| == |t.buckets|
      && (t.numEntries == 0 ==> u == t)
  {
    hide FindKey, Index, DropIn;
  }

  // ---------- Flattened tables ----------

  /** Bucket `b` of the suffix holds entries whose index is `first + b`. */
  predicate HashedFrom(buckets: seq<Chain>, first: nat, level: nat)
    requires level <= 14
  {
    && (forall b :: 0 <= b < |buckets| ==> Distinct(buckets[b]))
    && (forall b, i :: 0 <= b < |buckets| && 0 <= i < |buckets[b]| ==> Index(buckets[b][i].key, level) == first + b)
  }

  lemma {:induction false} ConcatFinds(a: Chain, b: Chain, key: Key)
    ensures FindKey(a + b, key) == if FindKey(a, key) < |a| then FindKey(a, key) else |a| + FindKey(b, key)
  {
    hide FindKey;
    FindKeyUnique(a + b, key, if FindKey(a, key) < |a| then FindKey(a, key) else |a| + FindKey(b, key));
  }

  lemma {:induction false} FlattenDistinct(buckets: seq<Chain>, first: nat, level: nat)
    requires level <= 14 && HashedFrom(buckets, first, level)
    ensures Distinct(Flatten(buckets))
    ensures forall i :: 0 <= i < |Flatten(buckets)| ==> first <= Index(Flatten(buckets)[i].key, level) < first + |buckets|
    decreases |buckets|
  {
    hide Index, FindKey;
    if buckets != [] {
      FlattenDistinct(buckets[1..], first + 1, level);
      ConcatDistinct(buckets[0], Flatten(buckets[1..]), first, level);
    }
  }

  /** The list of all entries: no key twice, and a key is found in it as in its bucket. */
  lemma {:induction false} FlattenFinds(buckets: seq<Chain>, first: nat, level: nat, key: Key)
    requires level <= 14 && HashedFrom(buckets, first, level)
    ensures Distinct(Flatten(buckets))
    ensures var f, i := Flatten(buckets), FindKey(Flatten(buckets), key);
      var b := Index(key, level) - first;
      if 0 <= b < |buckets| && FindKey(buckets[b], key) < |buckets[b]|
      then i < |f| && f[i] == buckets[b][FindKey(buckets[b], key)]
      else i == |f|
    decreases |buckets|
  {
    hide Index, FindKey, Distinct;
    FlattenDistinct(buckets, first, level);
    if buckets == [] {
      FindKeyUnique([], key, 0);
    } else {
      FlattenFinds(buckets[1..], first + 1, level, key);
      ConcatFinds(buckets[0], Flatten(buckets[1..]), key);
      HeadFinds(buckets[0], first, level, key);
    }
  }

  lemma {:induction false} HeadFinds(c: Chain, b: nat, level: nat, key: Key)
    requires level <= 14 && forall i :: 0 <= i < |c| ==> Index(c[i].key, level) == b
    ensures FindKey(c, key) < |c| ==> Index(key, level) == b
  {
    hide Index;
  }

  lemma {:induction false} ConcatDistinct(a: Chain, b: Chain, first: nat, level: nat)
    requires level <= 14 && Distinct(a) && Distinct(b)
    requires forall i :: 0 <= i < |a| ==> Index(a[i].key, level) == first
    requires forall i :: 0 <= i < |b| ==> first + 1 <= Index(b[i].key, level)
    ensures Distinct(a + b)
  {
    hide Index;
    forall i, j | 0 <= i < j < |a + b|
      ensures (a + b)[i].key != (a + b)[j].key
    {
      if i < |a| <= j {
        assert Index(a[i].key, level) != Index(b[j - |a|].key, level);
      }
    }
  }

  /** Keys found in the list of entries still to be moved, or already in the new table. */
  lemma {:induction false} PushAllFinds(buckets: seq<Chain>, level: nat, entries: Chain, key: Key)
    requires level <= 14 && WellHashed(buckets, level) && Distinct(entries)
    requires forall i :: 0 <= i < |entries| ==> LookupIn(buckets, level, entries[i].key).None?
    ensures var r, i := PushAll(buckets, level, entries), FindKey(entries, key);
      && WellHashed(r, level)
      && LookupIn(r, level, key) == if i < |entries| then Some(entries[i].value) else LookupIn(buckets, level, key)
    decreases |entries|
  {
    hide Index;
    if entries != [] {
      var p, rest := entries[0], entries[1..];
      var b := Index(p.key, level);
      var next := buckets[b := [p] + buckets[b]];
      PushWellHashed(buckets, level, p);
      forall i | 0 <= i < |rest|
        ensures LookupIn(next, level, rest[i].key).None?
      {
        assert rest[i] == entries[i + 1];
        PushFinds(buckets, level, p, rest[i].key);
      }
      PushFinds(buckets, level, p, key);
      PushAllFinds(next, level, rest, key);
    }
  }

  lemma {:induction false} PushFinds(buckets: seq<Chain>, level: nat, p: Pair, key: Key)
    requires level <= 14 && |buckets| == NumBuckets(level)
    ensures var b := Index(p.key, level);
      LookupIn(buckets[b := [p] + buckets[b]], level, key) == if key == p.key then Some(p.value) else LookupIn(buckets, level, key)
  {
    hide Index, FindKey;
    var b := Index(p.key, level);
    ConcatFinds([p], buckets[b], key);
    FindKeyUnique([p], key, if key == p.key then 0 else 1);
  }

  lemma {:induction false} PushWellHashed(buckets: seq<Chain>, level: nat, p: Pair)
    requires level <= 14 && WellHashed(buckets, level) && LookupIn(buckets, level, p.key).None?
    ensures var b := Index(p.key, level); WellHashed(buckets[b := [p] + buckets[b]], level)
  {
    hide Index, FindKey;
  }

  /** Rebuilding keeps exactly the same entries, each in the bucket its hash selects. */
  lemma {:induction false} RebuildRefines(t: Table, m: map<Key, Pointer>)
    requires WellHashed(t.buckets, t.level) && Represents(t.buckets, t.level, m) && t.numEntries == |m|
    requires t.level < 14 && t.numEntries < REBUILD_MULTIPLIER * NumBuckets(t.level + 1)
    ensures Refines(Rebuild(t), m)
  {
    hide Index, FindKey, NumBuckets, LookupIn, WellHashed, PushAll, Flatten;
    WellHashedShape(t.buckets, t.level);
    RebuildFinds(t, OneWord(0));
    forall key
      ensures LookupIn(Rebuild(t).buckets, t.level + 1, key) == if key in m then Some(m[key]) else None
    {
      RebuildFinds(t, key);
      assert LookupIn(t.buckets, t.level, key) == if key in m then Some(m[key]) else None;
    }
  }

  lemma {:induction false} RebuildFinds(t: Table, key: Key)
    requires WellHashed(t.buckets, t.level) && t.level < 14
    ensures WellHashed(Rebuild(t).buckets, t.level + 1)
    ensures LookupIn(Rebuild(t).buckets, t.level + 1, key) == LookupIn(t.buckets, t.level, key)
  {
    hide Index, FindKey, NumBuckets, PushAll, Flatten;
    var all, empty := Flatten(t.buckets), Empty(t.level + 1);
    FlattenFinds(t.buckets, 0, t.level, key);
    EmptyFinds(t.level + 1);
    PushAllFinds(empty, t.level + 1, all, key);
  }

  lemma {:induction false} EmptyFinds(level: nat)
    requires level <= 14
    ensures WellHashed(Empty(level), level)
    ensures forall key :: LookupIn(Empty(level), level, key).None?
  {
    hide Index, NumBuckets;
  }

  lemma {:induction false} AddRefines(t: Table, m: map<Key, Pointer>, key: Key, value: Pointer)
    requires Refines(t, m) && Growable(t)
    ensures Refines(Add(t, key, value), m[key := value])
    ensures OldValue(t, key) == if key in m then m[key] else 0
  {
    hide Index, FindKey, NumBuckets, WellHashed, Represents, Rebuild, Insert;
    ShapeOf(t, m);
    InsertRefines(t, m, key, value);
    BucketsPerLevel(t.level);
    var u := Insert(t, key, value);
    InsertKeepsLevel(t, key, value);
    if u.numEntries >= REBUILD_MULTIPLIER * NumBuckets(u.level) {
      RebuildRefines(u, m[key := value]);
    }
    LookupRefines(t, m, key);
  }

  lemma {:induction false} InsertKeepsLevel(t: Table, key: Key, value: Pointer)
    requires t.level <= 14 && |t.buckets| == NumBuckets(t.level)
    ensures Insert(t, key, value).level == t.level && |Insert(t, key, value).buckets| == |t.buckets|
  {
  }

  lemma {:induction false} LookupRefines(t: Table, m: map<Key, Pointer>, key: Key)
    requires Refines(t, m)
    ensures LookupIn(t.buckets, t.level, key) == if key in m then Some(m[key]) else None
  {
    hide LookupIn;
  }

  // ---------- Runs ----------

  datatype Op = AddOp(key: Key, value: Pointer) | RemoveOp(key: Key) | LookupOp(key: Key)

  /** What a caller sees: the old value or NULL, whether something was removed, or the value found or NULL. */
  datatype Answer = Old(value: Pointer) | Removed(ok: bool) | Found(value: Pointer)

  function InitialTable(): Table {
    Table(Empty(0), 0, 0)
  }

  function StepTable(t: Table, op: Op): (Table, Answer)
    requires t.level <= 14 && |t.buckets| == NumBuckets(t.level) && Growable(t)
  {
    match op
    case AddOp(key, value) => (Add(t, key, value), Old(OldValue(t, key)))
    case RemoveOp(key) => (Remove(t, key), Removed(LookupIn(t.buckets, t.level, key).Some?))
    case LookupOp(key) => (t, Found(OldValue(t, key)))
  }

  function StepMap(m: map<Key, Pointer>, op: Op): (map<Key, Pointer>, Answer) {
    match op
    case AddOp(key, value) => (m[key := value], Old(if key in m then m[key] else 0))
    case RemoveOp(key) => (m - {key}, Removed(key in m))
    case LookupOp(key) => (m, Found(if key in m then m[key] else 0))
  }

  function RunMap(m: map<Key, Pointer>, ops: seq<Op>): (r: (map<Key, Pointer>, seq<Answer>))
    ensures |r.1| == |ops|
    decreases |ops|
  {
    if ops == [] then (m, [])
    else
      var (n, a) := StepMap(m, ops[0]);
      var (end, rest) := RunMap(n, ops[1..]);
      (end, [a] + rest)
  }

  ghost predicate RunsTo(t: Table, ops: seq<Op>, end: Table, answers: seq<Answer>)
    decreases |ops|
  {
    if ops == [] then end == t && answers == []
    else
      && t.level <= 14 && |t.buckets| == NumBuckets(t.level) && Growable(t)
      && answers != [] && answers[0] == StepTable(t, ops[0]).1
      && RunsTo(StepTable(t, ops[0]).0, ops[1..], end, answers[1..])
  }

  lemma {:induction false} StepRefines(t: Table, m: map<Key, Pointer>, op: Op)
    requires Refines(t, m) && Growable(t)
    ensures t.level <= 14 && |t.buckets| == NumBuckets(t.level)
    ensures Refines(StepTable(t, op).0, StepMap(m, op).0)
    ensures StepTable(t, op).1 == StepMap(m, op).1
  {
    hide Add, Remove, LookupIn, WellHashed, Represents;
    assert t.level <= 14 && |t.buckets| == NumBuckets(t.level) by { ShapeOf(t, m); }
    match op {
      case AddOp(key, value) => AddRefines(t, m, key, value);
      case RemoveOp(key) => RemoveRefines(t, m, key);
      case LookupOp(key) => LookupRefines(t, m, key);
    }
  }

  lemma {:induction false} WellHashedShape(buckets: seq<Chain>, level: nat)
    requires WellHashed(buckets, level)
    ensures level <= 14 && |buckets| == NumBuckets(level)
  {
  }

  lemma {:induction false} ShapeOf(t: Table, m: map<Key, Pointer>)
    requires Refines(t, m)
    ensures t.level <= 14 && |t.buckets| == NumBuckets(t.level)
  {
  }

  /** Every sequence of operations on the table gives the answers the map gives and ends in a table that stands for
      the same map, with fewer than three entries per bucket. */
  lemma {:induction false} RunRefines(t: Table, m: map<Key, Pointer>, ops: seq<Op>, end: Table, answers: seq<Answer>)
    requires Refines(t, m) && RunsTo(t, ops, end, answers)
    ensures Refines(end, RunMap(m, ops).0) && answers == RunMap(m, ops).1
    decreases |ops|
  {
    hide StepTable, StepMap, Refines;
    if ops != [] {
      StepRefines(t, m, ops[0]);
      RunRefines(StepTable(t, ops[0]).0, StepMap(m, ops[0]).0, ops[1..], end, answers[1..]);
    }
  }

  lemma {:induction false} InitialRefines()
    ensures Refines(InitialTable(), map[])
  {
    hide NumBuckets;
    EmptyFinds(0);
    BucketsPerLevel(0);
  }

  /** The list of entries an iterator walks through contains every binding of the map exactly once and nothing else. */
  lemma {:induction false} EnumerationIsMap(t: Table, m: map<Key, Pointer>)
    requires Refines(t, m)
    ensures Distinct(Flatten(t.buckets))
    ensures forall key :: key in m <==> exists i :: 0 <= i < |Flatten(t.buckets)| && Flatten(t.buckets)[i] == Pair(key, if key in m then m[key] else 0)
    ensures forall i :: 0 <= i < |Flatten(t.buckets)| ==> Flatten(t.buckets)[i].key in m
  {
    hide Index, FindKey, NumBuckets, Flatten;
    var all := Flatten(t.buckets);
    FlattenFinds(t.buckets, 0, t.level, OneWord(0));
    forall key
      ensures key in m <==> exists i :: 0 <= i < |all| && all[i] == Pair(key, if key in m then m[key] else 0)
      ensures FindKey(all, key) < |all| <==> key in m
    {
      FlattenFinds(t.buckets, 0, t.level, key);
      LookupRefines(t, m, key);
      var i := FindKey(all, key);
      if key in m {
        assert all[i] == Pair(key, m[key]);
      }
    }
    forall i | 0 <= i < |all|
      ensures all[i].key in m
    {
      assert FindKey(all, all[i].key) < |all|;
    }
  }
}
