/** What the delay queue means: timers with absolute deadlines, on a clock that counts the time seen to pass. */
module TimerQueues {
  import opened Timevals
  import Bits

  /** `due` is a reading of the queue's clock. `stamp` numbers the insertions; `setAt` and `delay` record the request. */
  datatype Timer = Timer(token: nat, due: int, stamp: nat, setAt: int, delay: nat)

  /** `clock` is the forward time seen by the queue so far; `lastSync` the last system time it looked at. */
  datatype Queue = Queue(timers: seq<Timer>, clock: int, lastSync: int, stamp: nat)

  /** The sentinel that closes the ring is due when the clock has counted this far. */
  const END := INT_MAX * MILLION + (MILLION - 1)

  function Dues(timers: seq<Timer>): (d: seq<int>)
    ensures |d| == |timers| + 1
  {
    seq(|timers|, i requires 0 <= i < |timers| => timers[i].due) + [END]
  }

  lemma {:induction false} EndOfDues(timers: seq<Timer>)
    ensures Dues(timers)[|Dues(timers)| - 1] == END
  {
  }

  predicate Sorted(d: seq<int>) {
    forall i, j :: 0 <= i <= j < |d| ==> d[i] <= d[j]
  }

  /** The time of deadline `i - 1`, or now, whichever is later. */
  function Before(d: seq<int>, now: int, i: nat): int
    requires i <= |d|
  {
    if i == 0 then now else Max(now, d[i - 1])
  }

  /** The delta stored for deadline `i`: the wait that remains once deadline `i - 1` has passed. */
  function Gap(d: seq<int>, now: int, i: nat): int
    requires i < |d|
  {
    Max(now, d[i]) - Before(d, now, i)
  }

  function SumOfGaps(d: seq<int>, now: int, k: nat): int
    requires k <= |d|
  {
    if k == 0 then 0 else SumOfGaps(d, now, k - 1) + Gap(d, now, k - 1)
  }

  /** Prefix sums of the deltas are the remaining times, max(0, deadline - now). */
  lemma {:induction false} PrefixSumIsRemaining(d: seq<int>, now: int, k: nat)
    requires Sorted(d) && k < |d|
    ensures SumOfGaps(d, now, k + 1) == Max(0, d[k] - now)
    decreases k
  {
    if k > 0 { PrefixSumIsRemaining(d, now, k - 1); }
  }

  predicate Consistent(q: Queue) {
    Sorted(Dues(q.timers)) && 0 <= q.clock < END
  }

  /** Conservation: the deltas, sentinel included, always add up to ETERNITY minus the forward time that has passed. */
  lemma {:induction false} DeltasAddUp(q: Queue)
    requires Consistent(q)
    ensures SumOfGaps(Dues(q.timers), q.clock, |q.timers| + 1) == Micros(ETERNITY) - q.clock > 0
  {
    PrefixSumIsRemaining(Dues(q.timers), q.clock, |q.timers|);
  }

  /** Looking at the system time: time running backwards is not counted. */
  function Sync(q: Queue, timeNow: int): Queue {
    if timeNow < q.lastSync then q.(lastSync := timeNow)
    else q.(clock := q.clock + (timeNow - q.lastSync), lastSync := timeNow)
  }

  /** How many timers are due no later than `due`. */
  function Position(timers: seq<Timer>, due: int): (k: nat)
    ensures k <= |timers|
    ensures forall i :: 0 <= i < k ==> timers[i].due <= due
    ensures k < |timers| ==> due < timers[k].due
  {
    if timers == [] || due < timers[0].due then 0 else 1 + Position(timers[1..], due)
  }

  lemma {:induction false} PositionUnique(timers: seq<Timer>, due: int, k: nat)
    requires Sorted(Dues(timers)) && k <= |timers|
    requires k > 0 ==> timers[k - 1].due <= due
    requires k < |timers| ==> due < timers[k].due
    ensures Position(timers, due) == k
  {
    hide Position;
    var p, d := Position(timers, due), Dues(timers);
    assert p < |timers| ==> d[p] == timers[p].due;
    assert p > 0 ==> d[p - 1] == timers[p - 1].due;
    assert k < |timers| ==> d[k] == timers[k].due;
    assert k > 0 ==> d[k - 1] == timers[k - 1].due;
  }

  function Place(timers: seq<Timer>, t: Timer): seq<Timer> {
    var k := Position(timers, t.due);
    timers[..k] + [t] + timers[k..]
  }

  /** A delay that goes all the way round the ring starts again at its head. */
  function Wrap(delay: nat, total: int): (w: nat)
    requires total > 0
    ensures w < total
    ensures delay < total <==> w == delay
  {
    if delay < total then delay else Wrap(delay - total, total)
  }

  /** A delay beyond the end of the queue's time keeps only its remainder. */
  lemma {:induction false} WrapIsRemainder(delay: nat, total: int)
    requires total > 0
    ensures Wrap(delay, total) == delay % total
    decreases delay
  {
    if delay >= total {
      WrapIsRemainder(delay - total, total);
      var q, r := (delay - total) / total, (delay - total) % total;
      assert delay == (q + 1) * total + r;
      Bits.DivUnique(delay, total, q + 1, r);
    }
  }

  lemma {:induction false} WrapStep(delay: nat, total: int)
    requires total > 0
    ensures Wrap(delay, total) == if delay < total then delay else Wrap(delay - total, total)
  {
  }

  lemma {:induction false} LastIsLargest(d: seq<int>, k: nat)
    requires Sorted(d) && k < |d|
    ensures d[k] <= d[|d| - 1]
  {
  }

  function Add(q: Queue, token: nat, delay: nat, timeNow: int): Queue
    requires Sync(q, timeNow).clock < END
  {
    var s := Sync(q, timeNow);
    var t := Timer(token, s.clock + Wrap(delay, END - s.clock), s.stamp, timeNow, delay);
    s.(timers := Place(s.timers, t), stamp := s.stamp + 1)
  }

  function RemoveAt(q: Queue, i: nat): Queue
    requires i < |q.timers|
  {
    q.(timers := q.timers[..i] + q.timers[i + 1..])
  }

  /** updateEntry: the entry is taken out before it is added again with its new delay. */
  function Update(q: Queue, i: nat, delay: nat, timeNow: int): Queue
    requires i < |q.timers| && Sync(q, timeNow).clock < END
  {
    Add(RemoveAt(q, i), q.timers[i].token, delay, timeNow)
  }

  /** The index of the first timer with a token, or the number of timers. */
  function Find(timers: seq<Timer>, token: nat): (k: nat)
    ensures k <= |timers|
    ensures forall i :: 0 <= i < k ==> timers[i].token != token
    ensures k < |timers| ==> timers[k].token == token
  {
    if timers == [] || timers[0].token == token then 0 else 1 + Find(timers[1..], token)
  }

  lemma {:induction false} FindUnique(timers: seq<Timer>, token: nat, k: nat)
    requires k <= |timers|
    requires forall i :: 0 <= i < k ==> timers[i].token != token
    requires k < |timers| ==> timers[k].token == token
    ensures Find(timers, token) == k
  {
    hide Find;
    var f := Find(timers, token);
  }

  /** The head's deadline; the sentinel's when there is no timer. */
  function HeadDue(q: Queue): int {
    Dues(q.timers)[0]
  }

  predicate HeadIsDue(q: Queue) {
    HeadDue(q) <= q.clock
  }

  lemma {:induction false} HeadIsTimer(q: Queue)
    requires Consistent(q) && HeadIsDue(q)
    ensures q.timers != [] && q.timers[0].due <= q.clock
  {
  }

  /** The queue as it is when handleAlarm looks at its head. */
  function Looked(q: Queue, timeNow: int): Queue {
    if HeadIsDue(q) then q else Sync(q, timeNow)
  }

  // ---------- What the operations mean ----------

  /** The reading of the clock at a system time: forward time is counted, and time running backwards is not. */
  function Reading(q: Queue, timeNow: int): int {
    q.clock + Max(0, timeNow - q.lastSync)
  }

  lemma {:induction false} SyncReads(q: Queue, timeNow: int)
    ensures Sync(q, timeNow) == q.(clock := Reading(q, timeNow), lastSync := timeNow)
  {
  }

  /** Whether or not the time had to be looked at, the head is found to be due exactly when its time has come. */
  lemma {:induction false} LookedSeesDue(q: Queue, timeNow: int)
    requires Consistent(q) && Reading(q, timeNow) < END
    ensures HeadIsDue(Looked(q, timeNow)) <==> q.timers != [] && q.timers[0].due <= Reading(q, timeNow)
    ensures Looked(q, timeNow).timers == q.timers && Looked(q, timeNow).stamp == q.stamp
    ensures !HeadIsDue(Looked(q, timeNow)) ==> Looked(q, timeNow).clock == Reading(q, timeNow)
    ensures Max(0, HeadDue(Looked(q, timeNow)) - Looked(q, timeNow).clock)
            == Max(0, (if q.timers == [] then END else q.timers[0].due) - Reading(q, timeNow))
  {
  }

  /** The timers are the others and `t`, which stands behind those due no later and before those due later. */
  predicate Joins(timers: seq<Timer>, others: seq<Timer>, t: Timer) {
    exists k: nat | k <= |others| ::
      && timers == others[..k] + [t] + others[k..]
      && (forall i :: 0 <= i < k ==> others[i].due <= t.due)
      && (forall i :: k <= i < |others| ==> others[i].due > t.due)
  }

  /** A new timer comes behind all those due no later and before all those due later, and is due after its delay if this is
      below what the ring has left. */
  lemma {:induction false} AddMeans(q: Queue, token: nat, delay: nat, timeNow: int)
    requires Consistent(q) && Reading(q, timeNow) < END && delay < END - Reading(q, timeNow)
    ensures Sync(q, timeNow).clock < END
    ensures var a, due := Add(q, token, delay, timeNow), Reading(q, timeNow) + delay;
      && a.clock == Reading(q, timeNow) && a.lastSync == timeNow
      && Joins(a.timers, q.timers, Timer(token, due, q.stamp, timeNow, delay))
  {
    hide Wrap, Position;
    SyncReads(q, timeNow);
    var due := Reading(q, timeNow) + delay;
    assert Wrap(delay, END - Reading(q, timeNow)) == delay;
    var k := Position(q.timers, due);
    forall i | k <= i < |q.timers|
      ensures q.timers[i].due > due
    {
      assert Dues(q.timers)[k] <= Dues(q.timers)[i];
    }
  }

  /** A rescheduled timer keeps its token, is due after its new delay, and no other timer changes. */
  lemma {:induction false} UpdateMeans(q: Queue, i: nat, delay: nat, timeNow: int)
    requires Consistent(q) && i < |q.timers| && Reading(q, timeNow) < END && delay < END - Reading(q, timeNow)
    ensures Sync(q, timeNow).clock < END
    ensures var u, others := Update(q, i, delay, timeNow), q.timers[..i] + q.timers[i + 1..];
      && u.clock == Reading(q, timeNow) && u.lastSync == timeNow
      && Joins(u.timers, others, Timer(q.timers[i].token, Reading(q, timeNow) + delay, q.stamp, timeNow, delay))
  {
    hide Add, Dues, Joins;
    SyncReads(q, timeNow);
    var r := RemoveAt(q, i);
    RemovedConsistent(q, i);
    AddMeans(r, q.timers[i].token, delay, timeNow);
  }

  lemma {:induction false} RemovedConsistent(q: Queue, i: nat)
    requires Consistent(q) && i < |q.timers|
    ensures Consistent(RemoveAt(q, i)) && RemoveAt(q, i).stamp == q.stamp
    ensures forall timeNow :: Reading(RemoveAt(q, i), timeNow) == Reading(q, timeNow)
  {
    var d, e := Dues(q.timers), Dues(RemoveAt(q, i).timers);
    DuesOfRemove(q.timers, i);
    assert forall j :: 0 <= j < |e| ==> e[j] == if j < i then d[j] else d[j + 1];
  }

  // ---------- Deltas under the operations ----------

  lemma {:induction false} GapAfterInsert(d: seq<int>, now: int, k: nat, due: int, i: nat)
    requires k < |d| && Sorted(d) && now <= due < d[k] && i <= |d|
    requires forall j :: 0 <= j < k ==> d[j] <= due
    ensures var e := d[..k] + [due] + d[k..];
      && Sorted(e)
      && Gap(e, now, i) == if i < k then Gap(d, now, i) else if i == k then due - Before(d, now, k)
                           else if i == k + 1 then d[k] - due else Gap(d, now, i - 1)
  {
    var e := d[..k] + [due] + d[k..];
    assert forall j :: 0 <= j < |e| ==> e[j] == if j < k then d[j] else if j == k then due else d[j - 1];
  }

  lemma {:induction false} EarlierDues(d: seq<int>, k: nat, due: int)
    requires Sorted(d) && k < |d| && (k > 0 ==> d[k - 1] <= due)
    ensures forall j :: 0 <= j < k ==> d[j] <= due
  {
  }

  /** The part of a gap that a new deadline leaves. */
  lemma {:induction false} SplitGap(d: seq<int>, now: int, k: nat, due: int)
    requires k < |d| && now <= due < d[k] && (k > 0 ==> d[k - 1] <= due)
    ensures 0 <= due - Before(d, now, k) < Gap(d, now, k)
    ensures Gap(d, now, k) - (due - Before(d, now, k)) == d[k] - due
  {
  }

  lemma {:induction false} GapAfterRemove(d: seq<int>, now: int, k: nat, i: nat)
    requires k + 1 < |d| && Sorted(d) && i < |d| - 1
    ensures var e := d[..k] + d[k + 1..];
      && Sorted(e)
      && Gap(e, now, i) == if i < k then Gap(d, now, i) else if i == k then Gap(d, now, k) + Gap(d, now, k + 1)
                           else Gap(d, now, i + 1)
  {
    var e := d[..k] + d[k + 1..];
    assert forall j :: 0 <= j < |e| ==> e[j] == if j < k then d[j] else d[j + 1];
  }

  /** The successor of a removed entry stays within ETERNITY. */
  lemma {:induction false} JoinGaps(d: seq<int>, now: int, k: nat, a: Timeval, b: Timeval)
    requires k + 1 < |d| && Sorted(d) && 0 <= now < d[|d| - 1] <= END
    requires Interval(a) && Interval(b) && Micros(a) == Gap(d, now, k + 1) && Micros(b) == Gap(d, now, k)
    ensures Interval(Plus(a, b))
  {
    hide Plus;
    PlusMicros(a, b);
    assert d[k + 1] <= d[|d| - 1];
    var t := Plus(a, b);
    assert Micros(t) <= END;
  }

  /** Advancing the clock zeroes the deltas it passes and shortens the first one it does not. */
  lemma {:induction false} GapAfterSync(d: seq<int>, now: int, later: int, k: nat, i: nat)
    requires Sorted(d) && now <= later && k < |d| && i < |d|
    requires later < d[k] && (k > 0 ==> d[k - 1] <= later)
    ensures Gap(d, later, i) == if i < k then 0 else if i == k then Gap(d, now, k) - (later - Before(d, now, k))
                                else Gap(d, now, i)
  {
    if i < k { assert d[i] <= d[k - 1]; }
    if i > k { assert d[k] <= d[i - 1]; }
  }

  /** One turn of the synchronising scan. */
  lemma {:induction false} SyncStep(d: seq<int>, now: int, later: int, k: nat)
    requires Sorted(d) && now <= later && k < |d| && Before(d, now, k) <= later
    ensures Before(d, now, 0) == now
    ensures Gap(d, now, k) >= 0
    ensures later - Before(d, now, k) >= Gap(d, now, k) <==> d[k] <= later
    ensures Before(d, now, k + 1) == Before(d, now, k) + Gap(d, now, k)
  {
  }

  /** Placing a timer at the slot the scan found. */
  lemma {:induction false} DuesOfPlace(timers: seq<Timer>, t: Timer, k: nat)
    requires Sorted(Dues(timers)) && k <= |timers|
    requires t.due < Dues(timers)[k] && (k > 0 ==> Dues(timers)[k - 1] <= t.due)
    ensures Position(timers, t.due) == k && Place(timers, t) == timers[..k] + [t] + timers[k..]
    ensures Dues(Place(timers, t)) == Dues(timers)[..k] + [t.due] + Dues(timers)[k..]
  {
    hide Position, Sorted;
    PositionUnique(timers, t.due, k);
  }

  lemma {:induction false} DuesOfRemove(timers: seq<Timer>, k: nat)
    requires k < |timers|
    ensures Dues(timers[..k] + timers[k + 1..]) == Dues(timers)[..k] + Dues(timers)[k + 1..]
  {
  }
}
