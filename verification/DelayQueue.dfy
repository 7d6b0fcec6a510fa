/** The delay queue: a circular doubly linked list of entries that store only the delta to their predecessor,
    closed by a sentinel whose delta is what is left of ETERNITY. */
module DelayQueues {
  import opened Timevals
  import opened TimerQueues

  class DelayQueueEntry {
    var fNext: DelayQueueEntry?
    var fPrev: DelayQueueEntry?
    var fDeltaTimeRemaining: Timeval
    const fToken: nat

    constructor (delay: Timeval, token: nat)
      ensures fNext == this && fPrev == this && fDeltaTimeRemaining == delay && fToken == token
    {
      fNext, fPrev := this, this;
      fDeltaTimeRemaining, fToken := delay, token;
    }
  }

  ghost predicate Distinct(nodes: seq<DelayQueueEntry>) {
    forall i, j :: 0 <= i < j < |nodes| ==> nodes[i] != nodes[j]
  }

  /** The nodes form a ring in both directions. */
  ghost predicate Ring(nodes: seq<DelayQueueEntry>)
    reads nodes`fNext, nodes`fPrev
  {
    && |nodes| > 0
    && (forall i {:trigger nodes[i].fNext} :: 0 <= i < |nodes| - 1 ==> nodes[i].fNext == nodes[i + 1])
    && (forall i {:trigger nodes[i].fPrev} :: 0 < i < |nodes| ==> nodes[i].fPrev == nodes[i - 1])
    && nodes[|nodes| - 1].fNext == nodes[0]
    && nodes[0].fPrev == nodes[|nodes| - 1]
  }

  /** Every node's delta is the gap between its deadline and its predecessor's. */
  ghost predicate Timed(nodes: seq<DelayQueueEntry>, d: seq<int>, now: int)
    reads nodes`fDeltaTimeRemaining
  {
    && |nodes| == |d|
    && forall i {:trigger nodes[i].fDeltaTimeRemaining} :: 0 <= i < |nodes| ==>
         Interval(nodes[i].fDeltaTimeRemaining) && Micros(nodes[i].fDeltaTimeRemaining) == Gap(d, now, i)
  }

  ghost predicate Named(nodes: seq<DelayQueueEntry>, timers: seq<Timer>) {
    |nodes| == |timers| + 1 && forall i :: 0 <= i < |timers| ==> nodes[i].fToken == timers[i].token
  }

  lemma {:induction false} DistinctRemove(nodes: seq<DelayQueueEntry>, k: nat)
    requires Distinct(nodes) && k < |nodes|
    ensures Distinct(nodes[..k] + nodes[k + 1..]) && nodes[k] !in nodes[..k] + nodes[k + 1..]
  {
    var r := nodes[..k] + nodes[k + 1..];
    assert forall i :: 0 <= i < |r| ==> r[i] == nodes[if i < k then i else i + 1];
  }

  lemma {:induction false} DistinctInsert(nodes: seq<DelayQueueEntry>, node: DelayQueueEntry, k: nat)
    requires Distinct(nodes) && node !in nodes && k <= |nodes|
    ensures Distinct(nodes[..k] + [node] + nodes[k..])
  {
    var r := nodes[..k] + [node] + nodes[k..];
    assert forall i :: 0 <= i < |r| ==> r[i] == if i < k then nodes[i] else if i == k then node else nodes[i - 1];
  }

  lemma {:induction false} NamedInsert(nodes: seq<DelayQueueEntry>, timers: seq<Timer>, node: DelayQueueEntry, t: Timer, k: nat)
    requires Named(nodes, timers) && k <= |timers| && node.fToken == t.token
    ensures Named(nodes[..k] + [node] + nodes[k..], timers[..k] + [t] + timers[k..])
  {
  }

  lemma {:induction false} NamedRemove(nodes: seq<DelayQueueEntry>, timers: seq<Timer>, k: nat)
    requires Named(nodes, timers) && k < |timers|
    ensures Named(nodes[..k] + nodes[k + 1..], timers[..k] + timers[k + 1..])
  {
  }

  /** The deltas stored in the nodes. */
  ghost function Deltas(nodes: seq<DelayQueueEntry>): (ds: seq<Timeval>)
    reads nodes`fDeltaTimeRemaining
    ensures |ds| == |nodes|
    ensures forall i :: 0 <= i < |nodes| ==> ds[i] == nodes[i].fDeltaTimeRemaining
  {
    if nodes == [] then [] else [nodes[0].fDeltaTimeRemaining] + Deltas(nodes[1..])
  }

  ghost predicate TimedDeltas(ds: seq<Timeval>, d: seq<int>, now: int) {
    |ds| == |d| && forall i :: 0 <= i < |ds| ==> Interval(ds[i]) && Micros(ds[i]) == Gap(d, now, i)
  }

  /** Splitting the gap of node `k` between a new node and itself. */
  lemma {:induction false} TimedInsert(ds: seq<Timeval>, was: seq<DelayQueueEntry>, nodes: seq<DelayQueueEntry>, node: DelayQueueEntry,
                                                d: seq<int>, now: int, k: nat, due: int)
    requires TimedDeltas(ds, d, now) && |was| == |ds| && k < |d| && Sorted(d) && now <= due < d[k] && (k > 0 ==> d[k - 1] <= due)
    requires nodes == was[..k] + [node] + was[k..]
    requires forall i :: 0 <= i < |was| && i != k ==> was[i].fDeltaTimeRemaining == ds[i]
    requires Interval(was[k].fDeltaTimeRemaining) && Micros(was[k].fDeltaTimeRemaining) == d[k] - due
    requires Interval(node.fDeltaTimeRemaining) && Micros(node.fDeltaTimeRemaining) == due - Before(d, now, k)
    ensures Timed(nodes, d[..k] + [due] + d[k..], now) && Sorted(d[..k] + [due] + d[k..])
  {
    hide Gap, Sorted, Before, Micros, Interval;
    forall i | 0 <= i < |nodes|
      ensures Interval(nodes[i].fDeltaTimeRemaining) && Micros(nodes[i].fDeltaTimeRemaining) == Gap(d[..k] + [due] + d[k..], now, i)
    {
      assert forall j :: 0 <= j < k ==> d[j] <= due by { EarlierDues(d, k, due); }
      GapAfterInsert(d, now, k, due, i);
      assert nodes[i] == if i < k then was[i] else if i == k then node else was[i - 1];
    }
    assert forall j :: 0 <= j < k ==> d[j] <= due by { EarlierDues(d, k, due); }
    GapAfterInsert(d, now, k, due, 0);
  }

  /** Giving the gap of a removed node to its successor. */
  lemma {:induction false} TimedRemove(ds: seq<Timeval>, was: seq<DelayQueueEntry>, nodes: seq<DelayQueueEntry>, d: seq<int>, now: int, k: nat)
    requires TimedDeltas(ds, d, now) && |was| == |ds| && k + 1 < |d| && Sorted(d)
    requires nodes == was[..k] + was[k + 1..]
    requires forall i :: 0 <= i < |was| && i != k + 1 ==> was[i].fDeltaTimeRemaining == ds[i]
    requires Interval(was[k + 1].fDeltaTimeRemaining)
    requires Micros(was[k + 1].fDeltaTimeRemaining) == Gap(d, now, k) + Gap(d, now, k + 1)
    ensures Timed(nodes, d[..k] + d[k + 1..], now) && Sorted(d[..k] + d[k + 1..])
  {
    hide Gap, Sorted, Before, Micros, Interval;
    forall i | 0 <= i < |nodes|
      ensures Interval(nodes[i].fDeltaTimeRemaining) && Micros(nodes[i].fDeltaTimeRemaining) == Gap(d[..k] + d[k + 1..], now, i)
    {
      GapAfterRemove(d, now, k, i);
      assert nodes[i] == was[if i < k then i else i + 1];
    }
    GapAfterRemove(d, now, k, 0);
  }

  class DelayQueue {
    const sentinel: DelayQueueEntry // the part of the queue object that is itself an entry
    var fLastSyncTime: Timeval
    ghost var nodes: seq<DelayQueueEntry>
    ghost var state: Queue

    ghost predicate Shape()
      reads this
    {
      && nodes != [] && nodes[|nodes| - 1] == sentinel && Distinct(nodes)
      && Named(nodes, state.timers) && Consistent(state)
      && Normal(fLastSyncTime) && Micros(fLastSyncTime) == state.lastSync
    }

    ghost predicate Valid()
      reads this, nodes`fNext, nodes`fPrev, nodes`fDeltaTimeRemaining
    {
      Shape() && Ring(nodes) && Timed(nodes, Dues(state.timers), state.clock)
    }

    constructor (timeNow: Timeval)
      requires Normal(timeNow)
      ensures Valid() && fresh(sentinel) && state == Queue([], 0, Micros(timeNow), 0)
    {
      var entry := new DelayQueueEntry(ETERNITY, 0);
      sentinel := entry;
      fLastSyncTime := timeNow;
      nodes := [entry];
      state := Queue([], 0, Micros(timeNow), 0);
    }

    /** The scan of synchronize: uses up the elapsed time from the head on. */
    method Elapse(elapsed: Timeval, ghost d: seq<int>, ghost now: int)
      requires Ring(nodes) && Distinct(nodes) && nodes[|nodes| - 1] == sentinel
      requires Timed(nodes, d, now) && Sorted(d)
      requires Interval(elapsed) && now + Micros(elapsed) < d[|d| - 1]
      modifies nodes`fDeltaTimeRemaining
      ensures Timed(nodes, d, now + Micros(elapsed))
    {
      hide Plus, Minus, AtLeast, Gap, Sorted;
      var timeSinceLastSync := elapsed;
      var curEntry := sentinel.fNext;
      ghost var k, later := 0, now + Micros(elapsed);
      while AtLeast(timeSinceLastSync, curEntry.fDeltaTimeRemaining)
        invariant 0 <= k < |nodes| && curEntry == nodes[k]
        invariant Before(d, now, k) <= later
        invariant Interval(timeSinceLastSync) && Micros(timeSinceLastSync) == later - Before(d, now, k)
        invariant k > 0 ==> d[k - 1] <= later
        invariant forall i :: 0 <= i < k ==> nodes[i].fDeltaTimeRemaining == DELAY_ZERO
        invariant forall i :: k <= i < |nodes| ==> nodes[i].fDeltaTimeRemaining == old(nodes[i].fDeltaTimeRemaining)
        decreases |nodes| - k
      {
        SyncStep(d, now, later, k);
        CompareMicros(timeSinceLastSync, curEntry.fDeltaTimeRemaining);
        MinusMicros(timeSinceLastSync, curEntry.fDeltaTimeRemaining);
        timeSinceLastSync := Minus(timeSinceLastSync, curEntry.fDeltaTimeRemaining);
        curEntry.fDeltaTimeRemaining := DELAY_ZERO;
        curEntry := curEntry.fNext;
        k := k + 1;
      }
      SyncStep(d, now, later, k);
      CompareMicros(timeSinceLastSync, curEntry.fDeltaTimeRemaining);
      MinusMicros(curEntry.fDeltaTimeRemaining, timeSinceLastSync);
      curEntry.fDeltaTimeRemaining := Minus(curEntry.fDeltaTimeRemaining, timeSinceLastSync);
      ZeroMicros();
      forall i | 0 <= i < |nodes|
        ensures Interval(nodes[i].fDeltaTimeRemaining) && Micros(nodes[i].fDeltaTimeRemaining) == Gap(d, later, i)
      {
        GapAfterSync(d, now, later, k, i);
      }
    }

    method Synchronize(timeNow: Timeval)
      requires Valid()
      requires Normal(timeNow) && Sync(state, Micros(timeNow)).clock < END
      modifies this`fLastSyncTime, this`state, nodes`fDeltaTimeRemaining
      ensures Valid() && state == Sync(old(state), Micros(timeNow))
      ensures state == old(state).(clock := old(state).clock + Max(0, Micros(timeNow) - old(state).lastSync), lastSync := Micros(timeNow))
    {
      hide Between, AtLeast, Gap, Sorted, Micros, Ring, Distinct;
      CompareMicros(timeNow, fLastSyncTime);
      if !AtLeast(timeNow, fLastSyncTime) {
        // The system clock has gone back: only the sync time is reset.
        fLastSyncTime := timeNow;
        state := Sync(state, Micros(timeNow));
        return;
      }
      EternityMicros();
      BetweenMicros(timeNow, fLastSyncTime);
      var timeSinceLastSync := Between(timeNow, fLastSyncTime);
      fLastSyncTime := timeNow;
      Elapse(timeSinceLastSync, Dues(state.timers), state.clock);
      state := Sync(state, Micros(timeNow));
    }

    /** Links an entry into the ring just before node `k`. */
    method LinkBefore(newEntry: DelayQueueEntry, cur: DelayQueueEntry, ghost k: nat)
      requires Ring(nodes) && Distinct(nodes) && newEntry !in nodes
      requires k < |nodes| && cur == nodes[k]
      modifies this`nodes, newEntry`fNext, newEntry`fPrev, nodes`fNext, nodes`fPrev
      ensures nodes == old(nodes)[..k] + [newEntry] + old(nodes)[k..]
      ensures Ring(nodes) && Distinct(nodes)
    {
      DistinctInsert(nodes, newEntry, k);
      newEntry.fNext := cur;
      newEntry.fPrev := cur.fPrev;
      newEntry.fPrev.fNext := newEntry;
      cur.fPrev := newEntry;
      nodes := nodes[..k] + [newEntry] + nodes[k..];
    }

    /** Takes node `k` out of the ring. */
    method Unlink(entry: DelayQueueEntry, ghost k: nat)
      requires Ring(nodes) && Distinct(nodes)
      requires k < |nodes| - 1 && entry == nodes[k]
      modifies this`nodes, nodes`fNext, nodes`fPrev
      ensures nodes == old(nodes)[..k] + old(nodes)[k + 1..]
      ensures Ring(nodes) && Distinct(nodes) && entry !in nodes
      ensures entry.fNext == null && entry.fPrev == null
    {
      ghost var was, n := nodes, |nodes|;
      DistinctRemove(was, k);
      assert was[k].fNext == was[k + 1] && was[k].fPrev == if k == 0 then was[n - 1] else was[k - 1];
      entry.fPrev.fNext := entry.fNext;
      entry.fNext.fPrev := entry.fPrev;
      entry.fNext, entry.fPrev := null, null;
      nodes := nodes[..k] + nodes[k + 1..];
      forall i | 0 < i < |nodes|
        ensures nodes[i].fPrev == nodes[i - 1]
      {
        assert nodes[i - 1] == if i - 1 < k then was[i - 1] else was[i];
        assert nodes[i] == if i < k then was[i] else was[i + 1];
      }
      forall i | 0 <= i < |nodes| - 1
        ensures nodes[i].fNext == nodes[i + 1]
      {
        assert nodes[i] == if i < k then was[i] else was[i + 1];
      }
    }

    /** The scan of addEntry: how far the delay reaches round the ring. */
    method FindSlot(newEntry: DelayQueueEntry, ghost d: seq<int>, ghost now: int)
      returns (cur: DelayQueueEntry, ghost k: nat)
      requires Ring(nodes) && Distinct(nodes) && nodes[|nodes| - 1] == sentinel && newEntry !in nodes
      requires Timed(nodes, d, now) && Sorted(d) && now < d[|d| - 1]
      requires Interval(newEntry.fDeltaTimeRemaining)
      modifies newEntry`fDeltaTimeRemaining
      ensures k < |nodes| && cur == nodes[k] && Interval(newEntry.fDeltaTimeRemaining)
      ensures var due := now + Wrap(old(Micros(newEntry.fDeltaTimeRemaining)), d[|d| - 1] - now);
        && Micros(newEntry.fDeltaTimeRemaining) == due - Before(d, now, k)
        && due < d[k] && (k > 0 ==> d[k - 1] <= due)
    {
      hide Plus, Minus, AtLeast, Gap, Sorted, Distinct, Wrap;
      ghost var end := d[|d| - 1];
      ghost var delay: nat := Micros(newEntry.fDeltaTimeRemaining);
      ghost var wrapped: nat := delay;
      cur, k := sentinel.fNext, 0;
      while AtLeast(newEntry.fDeltaTimeRemaining, cur.fDeltaTimeRemaining)
        invariant k < |nodes| && cur == nodes[k]
        invariant Wrap(wrapped, end - now) == Wrap(delay, end - now)
        invariant Interval(newEntry.fDeltaTimeRemaining)
        invariant Micros(newEntry.fDeltaTimeRemaining) == now + wrapped - Before(d, now, k)
        invariant k > 0 ==> d[k - 1] <= now + wrapped
        decreases wrapped, |nodes| - k
      {
        SyncStep(d, now, now + wrapped, k);
        CompareMicros(newEntry.fDeltaTimeRemaining, cur.fDeltaTimeRemaining);
        MinusMicros(newEntry.fDeltaTimeRemaining, cur.fDeltaTimeRemaining);
        newEntry.fDeltaTimeRemaining := Minus(newEntry.fDeltaTimeRemaining, cur.fDeltaTimeRemaining);
        if k == |nodes| - 1 {
          WrapStep(wrapped, end - now);
          wrapped, k := wrapped - (end - now), 0;
        } else {
          k := k + 1;
        }
        cur := cur.fNext;
      }
      SyncStep(d, now, now + wrapped, k);
      CompareMicros(newEntry.fDeltaTimeRemaining, cur.fDeltaTimeRemaining);
      LastIsLargest(d, k);
      WrapStep(wrapped, end - now);
    }

    /** The rest of addEntry: splits the gap of node `k` and links the new entry in front of it. */
    method InsertBefore(newEntry: DelayQueueEntry, cur: DelayQueueEntry, ghost k: nat, ghost t: Timer)
      requires Valid() && newEntry !in nodes && Interval(newEntry.fDeltaTimeRemaining)
      requires k < |nodes| && cur == nodes[k] && newEntry.fToken == t.token
      requires var d := Dues(state.timers);
        && state.clock <= t.due < d[k] && (k > 0 ==> d[k - 1] <= t.due)
        && Micros(newEntry.fDeltaTimeRemaining) == t.due - Before(d, state.clock, k)
      modifies this`nodes, this`state, nodes, newEntry
      ensures Valid() && nodes == old(nodes)[..k] + [newEntry] + old(nodes)[k..]
      ensures state == old(state).(timers := Place(old(state).timers, t), stamp := old(state).stamp + 1)
      ensures Position(old(state).timers, t.due) == k
    {
      hide Minus, Sorted, Ring, Position, Micros, Gap, Place, Named, Before, Deltas;
      ghost var d, now, ds, was := Dues(state.timers), state.clock, Deltas(nodes), nodes;
      assert |nodes| == |state.timers| + 1 && |d| == |nodes|;
      NamedInsert(nodes, state.timers, newEntry, t, k);
      DuesOfPlace(state.timers, t, k);
      SplitGap(d, now, k, t.due);
      MinusMicros(cur.fDeltaTimeRemaining, newEntry.fDeltaTimeRemaining);
      cur.fDeltaTimeRemaining := Minus(cur.fDeltaTimeRemaining, newEntry.fDeltaTimeRemaining);
      LinkBefore(newEntry, cur, k);
      state := state.(timers := Place(state.timers, t), stamp := state.stamp + 1);
      TimedInsert(ds, was, nodes, newEntry, d, now, k, t.due);
    }

    method AddEntry(newEntry: DelayQueueEntry, timeNow: Timeval)
      requires Valid() && newEntry !in nodes && Interval(newEntry.fDeltaTimeRemaining)
      requires Normal(timeNow) && Sync(state, Micros(timeNow)).clock < END
      modifies this, nodes, newEntry
      ensures Valid()
      ensures state == Add(old(state), newEntry.fToken, old(Micros(newEntry.fDeltaTimeRemaining)), Micros(timeNow))
      ensures var k := Position(old(state).timers, state.clock + Wrap(old(Micros(newEntry.fDeltaTimeRemaining)), END - state.clock));
        nodes == old(nodes)[..k] + [newEntry] + old(nodes)[k..]
    {
      hide Plus, Minus, AtLeast, Gap, Sorted, Ring, Distinct, Wrap, Position, Place, Dues, Named;
      ghost var delay: nat, before, timers := Micros(newEntry.fDeltaTimeRemaining), nodes, state.timers;
      ghost var synced := Sync(state, Micros(timeNow));
      Synchronize(timeNow);
      assert nodes == before && state == synced && synced.timers == timers;
      ghost var t := Timer(newEntry.fToken, synced.clock + Wrap(delay, END - synced.clock), synced.stamp, Micros(timeNow), delay);
      EndOfDues(timers);
      var cur;
      ghost var k;
      cur, k := FindSlot(newEntry, Dues(timers), synced.clock);
      InsertBefore(newEntry, cur, k, t);
      assert nodes == before[..k] + [newEntry] + before[k..];
    }

    /** removeEntry for an entry in the queue: its successor takes over its delta. */
    method RemoveQueued(entry: DelayQueueEntry, ghost k: nat)
      requires Valid() && k < |state.timers| && entry == nodes[k]
      modifies this`nodes, this`state, nodes
      ensures Valid() && state == RemoveAt(old(state), k)
      ensures nodes == old(nodes)[..k] + old(nodes)[k + 1..] && entry !in nodes
      ensures entry.fNext == null
    {
      hide Plus, Sorted, Ring, Micros, Gap, Named, Before, Deltas, Dues;
      EndOfDues(state.timers);
      ghost var d, now, ds, was := Dues(state.timers), state.clock, Deltas(nodes), nodes;
      assert |nodes| == |state.timers| + 1 && |d| == |nodes|;
      NamedRemove(nodes, state.timers, k);
      DuesOfRemove(state.timers, k);
      var next := Successor(entry, k);
      PlusMicros(next.fDeltaTimeRemaining, entry.fDeltaTimeRemaining);
      JoinGaps(d, now, k, next.fDeltaTimeRemaining, entry.fDeltaTimeRemaining);
      next.fDeltaTimeRemaining := Plus(next.fDeltaTimeRemaining, entry.fDeltaTimeRemaining);
      Unlink(entry, k);
      state := RemoveAt(state, k);
      assert Dues(state.timers) == d[..k] + d[k + 1..];
      assert nodes[|nodes| - 1] == sentinel;
      TimedRemove(ds, was, nodes, d, now, k);
    }

    method Successor(entry: DelayQueueEntry, ghost k: nat) returns (next: DelayQueueEntry)
      requires Ring(nodes) && k < |nodes| - 1 && entry == nodes[k]
      ensures next == nodes[k + 1]
    {
      next := entry.fNext;
    }

    /** removeEntry: nothing to do for no entry, or for one that was already removed. */
    method RemoveEntry(entry: DelayQueueEntry?)
      requires Valid()
      requires entry == null || entry.fNext == null || (entry in nodes && entry != sentinel)
      modifies this`nodes, this`state, nodes
      ensures Valid()
      ensures entry == null || old(entry.fNext == null) ==> state == old(state) && nodes == old(nodes)
      ensures entry != null && old(entry.fNext) != null ==>
                exists k: nat | k < |old(state).timers| && old(nodes)[k] == entry ::
                  && state == RemoveAt(old(state), k) && nodes == old(nodes)[..k] + old(nodes)[k + 1..]
                  && entry.fNext == null
    {
      if entry == null || entry.fNext == null { return; }
      ghost var k :| 0 <= k < |nodes| && nodes[k] == entry;
      RemoveQueued(entry, k);
    }

    method FindEntryByToken(tokenToFind: nat) returns (entry: DelayQueueEntry?)
      requires Valid()
      ensures var k := Find(state.timers, tokenToFind);
        if k < |state.timers| then entry == nodes[k] else entry == null
    {
      hide Timed, Find, Sorted;
      var cur := sentinel.fNext;
      ghost var k := 0;
      while cur != sentinel
        invariant 0 <= k < |nodes| && cur == nodes[k]
        invariant forall i :: 0 <= i < k ==> state.timers[i].token != tokenToFind
        decreases |nodes| - k
      {
        if cur.fToken == tokenToFind {
          FindUnique(state.timers, tokenToFind, k);
          return cur;
        }
        cur := cur.fNext;
        k := k + 1;
      }
      FindUnique(state.timers, tokenToFind, |state.timers|);
      entry := null;
    }

    /** updateEntry for an entry in the queue. */
    method UpdateQueued(entry: DelayQueueEntry, newDelay: Timeval, timeNow: Timeval, ghost k: nat)
      requires Valid() && k < |state.timers| && entry == nodes[k]
      requires Interval(newDelay) && Normal(timeNow) && Sync(state, Micros(timeNow)).clock < END
      modifies this, nodes
      ensures Valid() && state == Update(old(state), k, Micros(newDelay), Micros(timeNow))
      ensures forall x :: x in nodes <==> x in old(nodes)
    {
      hide Timed, Ring, Sorted, Dues, Micros, Add, Position, Wrap, Interval, Normal;
      assert entry.fToken == state.timers[k].token;
      ghost var before := nodes;
      RemoveQueued(entry, k);
      ghost var without := nodes;
      AddAgain(entry, newDelay, timeNow);
      SameMembers(before, without, nodes, k, entry);
    }

    /** An entry that has been taken out comes back with another delay. */
    method AddAgain(entry: DelayQueueEntry, newDelay: Timeval, timeNow: Timeval)
      requires Valid() && entry !in nodes && Interval(newDelay)
      requires Normal(timeNow) && Sync(state, Micros(timeNow)).clock < END
      modifies this, nodes, entry
      ensures Valid() && state == Add(old(state), entry.fToken, Micros(newDelay), Micros(timeNow))
      ensures exists j: nat | j <= |old(nodes)| :: nodes == old(nodes)[..j] + [entry] + old(nodes)[j..]
    {
      hide Timed, Ring, Sorted, Dues, Micros, Add, Position, Wrap, Interval, Normal;
      entry.fDeltaTimeRemaining := newDelay;
      AddEntry(entry, timeNow);
    }

    /** updateEntry by token: nothing happens when no timer has the token. */
    method UpdateEntry(tokenToFind: nat, newDelay: Timeval, timeNow: Timeval)
      requires Valid()
      requires Interval(newDelay) && Normal(timeNow) && Sync(state, Micros(timeNow)).clock < END
      modifies this, nodes
      ensures Valid()
      ensures var k := Find(old(state).timers, tokenToFind);
        state == if k < |old(state).timers| then Update(old(state), k, Micros(newDelay), Micros(timeNow)) else old(state)
      ensures forall x :: x in nodes <==> x in old(nodes)
    {
      hide Timed, Ring, Sorted, Dues, Micros, Update, Interval, Normal, Find;
      var entry := FindEntryByToken(tokenToFind);
      if entry != null {
        UpdateQueued(entry, newDelay, timeNow, Find(state.timers, tokenToFind));
      }
    }

    /** removeEntry by token. */
    method RemoveByToken(tokenToFind: nat) returns (entry: DelayQueueEntry?)
      requires Valid()
      modifies this`nodes, this`state, nodes
      ensures Valid()
      ensures var k := Find(old(state).timers, tokenToFind);
        if k < |old(state).timers| then entry == old(nodes)[k] && state == RemoveAt(old(state), k) && entry !in nodes
        else entry == null && state == old(state) && nodes == old(nodes)
    {
      hide Timed, Ring, Sorted, Dues, Micros, Interval, Normal, Find;
      entry := FindEntryByToken(tokenToFind);
      if entry != null {
        RemoveQueued(entry, Find(state.timers, tokenToFind));
      }
    }

    /** Is the head's delta zero? */
    method HeadIsZero() returns (zero: bool)
      requires Valid()
      ensures zero == HeadIsDue(state)
      ensures sentinel.fNext == nodes[0] && Micros(nodes[0].fDeltaTimeRemaining) == Max(0, HeadDue(state) - state.clock)
    {
      hide Ring, Sorted, AtLeast, Micros, Dues, Named, Distinct;
      ZeroMicros();
      var head := Head();
      CompareMicros(head.fDeltaTimeRemaining, DELAY_ZERO);
      zero := Equal(head.fDeltaTimeRemaining, DELAY_ZERO);
    }

    method Head() returns (head: DelayQueueEntry)
      requires Ring(nodes) && nodes[|nodes| - 1] == sentinel
      ensures head == nodes[0] == sentinel.fNext
    {
      head := sentinel.fNext;
    }

    /** The wait until the head is due. */
    method TimeToNextAlarm(timeNow: Timeval) returns (wait: Timeval)
      requires Valid() && Normal(timeNow) && Sync(state, Micros(timeNow)).clock < END
      modifies this`fLastSyncTime, this`state, nodes`fDeltaTimeRemaining
      ensures Valid() && state == Looked(old(state), Micros(timeNow))
      ensures var clock := old(state).clock + Max(0, Micros(timeNow) - old(state).lastSync);
        Micros(wait) == Max(0, (if old(state).timers == [] then END else old(state).timers[0].due) - clock)
    {
      hide Timed, Ring, Sorted, Dues, Micros, Named, Distinct, Consistent, HeadDue, Looked, Sync;
      ZeroMicros();
      LookedSees(state, Micros(timeNow));
      var zero := HeadIsZero();
      if zero { return DELAY_ZERO; }
      Synchronize(timeNow);
      zero := HeadIsZero();
      wait := sentinel.fNext.fDeltaTimeRemaining;
    }

    /** Takes out the head if it is due; the caller then runs its handler, which may use the queue. */
    method HandleAlarm(timeNow: Timeval) returns (toRemove: DelayQueueEntry?)
      requires Valid() && Normal(timeNow) && Sync(state, Micros(timeNow)).clock < END
      modifies this, nodes
      ensures Valid()
      ensures var q := Looked(old(state), Micros(timeNow));
        if HeadIsDue(q) then q.timers != [] && toRemove == old(nodes)[0] && toRemove.fToken == q.timers[0].token && state == RemoveAt(q, 0)
        else toRemove == null && state == q
      ensures var clock := old(state).clock + Max(0, Micros(timeNow) - old(state).lastSync);
        if old(state).timers != [] && old(state).timers[0].due <= clock then
          toRemove == old(nodes)[0] && toRemove.fToken == old(state).timers[0].token && state.timers == old(state).timers[1..]
        else toRemove == null && state.timers == old(state).timers
    {
      hide Timed, Ring, Sorted, Dues, Micros, Distinct;
      LookedSees(state, Micros(timeNow));
      var zero := HeadIsZero();
      if !zero { Synchronize(timeNow); }
      zero := HeadIsZero();
      toRemove := null;
      if zero {
        HeadIsTimer(state);
        toRemove := sentinel.fNext;
        RemoveQueued(toRemove, 0);
      }
    }
  }

  /** What is seen when the head is looked at. */
  lemma {:induction false} LookedSees(q: Queue, timeNow: int)
    requires Consistent(q) && Sync(q, timeNow).clock < END
    ensures var clock, l := q.clock + Max(0, timeNow - q.lastSync), Looked(q, timeNow);
      && (HeadIsDue(l) <==> q.timers != [] && q.timers[0].due <= clock) && l.timers == q.timers
      && Max(0, HeadDue(l) - l.clock) == Max(0, (if q.timers == [] then END else q.timers[0].due) - clock)
      && l == if HeadIsDue(q) then q else Sync(q, timeNow)
  {
    SyncReads(q, timeNow);
    LookedSeesDue(q, timeNow);
  }

  lemma {:induction false} SameMembers(before: seq<DelayQueueEntry>, without: seq<DelayQueueEntry>, after: seq<DelayQueueEntry>,
                                       k: nat, entry: DelayQueueEntry)
    requires k < |before| && before[k] == entry && without == before[..k] + before[k + 1..]
    requires exists j: nat | j <= |without| :: after == without[..j] + [entry] + without[j..]
    ensures forall x :: x in after <==> x in before
  {
    assert before == before[..k] + [entry] + before[k + 1..];
    var j: nat :| j <= |without| && after == without[..j] + [entry] + without[j..];
    assert without == without[..j] + without[j..];
    forall x
      ensures x in after <==> x in before
    {
      assert x in without <==> x in before[..k] || x in before[k + 1..];
      assert x in without <==> x in without[..j] || x in without[j..];
    }
  }
}
