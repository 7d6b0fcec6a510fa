/** The packets that an RTP source takes are packets that arrived; and when all arrive, not too late and not too far out of order,
    all are taken. */
module Arriving {
  import opened SequenceNumbers
  import opened Codecs
  import opened Options
  import opened NalFragments
  import opened Collecting
  import opened Reordering

  // ---------- Nothing is taken that has not arrived ----------

  predicate Known(x: Numbers, n: nat) {
    n in x.waiting || n in x.taken
  }

  lemma {:induction false} KnownTaken(x: Numbers, n: nat)
    ensures Known(NumbersTaken(x), n) <==> Known(x, n)
  {
    if x.waiting != [] { assert x.waiting == [x.waiting[0]] + x.waiting[1..]; }
  }

  lemma {:induction false} KnownInserted(ns: seq<nat>, n: nat, m: nat)
    ensures m in Inserted(ns, n) <==> m in ns || m == n
  {
    hide Rank;
    var i := Rank(ns, n);
    assert ns == ns[..i] + ns[i..];
  }

  lemma {:induction false} KnownNext(c: Codec, b: Buffer, k: Collector, x: Numbers, now: int, threshold: nat, limit: nat, n: nat)
    ensures Known(NumbersNext(c, b, k, x, now, threshold, limit), n) <==> Known(x, n)
    decreases |b.queue|
  {
    hide Feed, NumbersTaken, Known;
    var (b', r) := NextCompleted(b, now, threshold);
    if r.Some? {
      KnownTaken(x, n);
      var (k', f) := Feed(c, k, r.value.0.payload, r.value.1, limit);
      if f.None? { KnownNext(c, Release(b'), k', NumbersTaken(x), now, threshold, limit, n); }
    }
  }

  lemma {:induction false} KnownAll(c: Codec, b: Buffer, k: Collector, x: Numbers, now: int, threshold: nat, limit: nat, n: nat)
    ensures Known(NumbersAll(c, b, k, x, now, threshold, limit), n) <==> Known(x, n)
    decreases |b.queue|
  {
    hide NextFrame, NumbersNext, Known;
    KnownNext(c, b, k, x, now, threshold, limit, n);
    var (b', k', f) := NextFrame(c, b, k, now, threshold, limit);
    if f.Some? { KnownAll(c, b', k', NumbersNext(c, b, k, x, now, threshold, limit), now, threshold, limit, n); }
  }

  predicate Arrived(arrivals: seq<Arrival>, n: nat) {
    exists i :: 0 <= i < |arrivals| && arrivals[i].number == n
  }

  /** What is waiting or taken at the end was so at the beginning, or has arrived since. */
  lemma {:induction false} KnownAfter(c: Codec, b: Buffer, k: Collector, x: Numbers, sent: seq<Bytes>, base: nat, arrivals: seq<Arrival>,
                                      threshold: nat, limit: nat, n: nat)
    requires forall i :: 0 <= i < |arrivals| ==> arrivals[i].number < |sent|
    requires Known(NumbersAfter(c, b, k, x, sent, base, arrivals, threshold, limit), n)
    ensures Known(x, n) || Arrived(arrivals, n)
    decreases |arrivals|
  {
    hide AllFrames, NumbersAll, Store, Inserted;
    if arrivals != [] {
      var p := PacketOf(sent, base, arrivals[0]);
      var b1, x1 := Store(b, p).0, NumbersStored(b, x, p, arrivals[0].number);
      var (b2, k2, _) := AllFrames(c, b1, k, arrivals[0].now, threshold, limit);
      var x2 := NumbersAll(c, b1, k, x1, arrivals[0].now, threshold, limit);
      KnownAfter(c, b2, k2, x2, sent, base, arrivals[1..], threshold, limit, n);
      if Known(x2, n) {
        KnownAll(c, b1, k, x1, arrivals[0].now, threshold, limit, n);
        KnownInserted(x.waiting, arrivals[0].number, n);
      } else {
        var i :| 0 <= i < |arrivals[1..]| && arrivals[1..][i].number == n;
        assert arrivals[i + 1].number == n;
      }
    }
  }

  /** Every packet taken in a session has arrived in it. */
  lemma {:induction false} TakenHasArrived(c: Codec, sent: seq<Bytes>, base: nat, arrivals: seq<Arrival>, threshold: nat, limit: nat, n: nat)
    requires forall i :: 0 <= i < |arrivals| ==> arrivals[i].number < |sent|
    requires n in NumbersAfter(c, Idle(), Collector([], false), Numbers([], 0, []), sent, base, arrivals, threshold, limit).taken
    ensures Arrived(arrivals, n)
  {
    hide NumbersAfter;
    KnownAfter(c, Idle(), Collector([], false), Numbers([], 0, []), sent, base, arrivals, threshold, limit, n);
  }

  // ---------- When everything arrives ----------

  /** While a packet before one that has arrived is missing, the latter does not wait for longer than the threshold. */
  predicate Patient(seen: seq<Arrival>, now: int, threshold: nat) {
    forall i, n: nat :: 0 <= i < |seen| && n < seen[i].number && !Arrived(seen, n) ==>
      threshold > 0 && Waited(now, seen[i].now) <= threshold
  }

  /** The packet is less than 2^15 away from the first one missing. */
  predicate Within(seen: seq<Arrival>, n: nat) {
    && (forall m: nat :: m + WINDOW <= n ==> Arrived(seen, m))
    && (exists m: nat :: m < n + WINDOW && !Arrived(seen, m))
  }

  /** All packets before the one expected have been taken, and those behind it that have arrived are waiting. */
  ghost predicate Settled(b: Buffer, x: Numbers, sent: seq<Bytes>, base: nat, seen: seq<Arrival>) {
    && Tracks(b, sent, base, x.waiting, x.expected, x.taken)
    && x.taken == Upto(x.expected)
    && (forall n: nat :: n < x.expected ==> Arrived(seen, n))
    && (forall n: nat :: n in x.waiting <==> n >= x.expected && Arrived(seen, n))
    && (forall q :: q in b.queue ==> exists i :: 0 <= i < |seen| && Since(q, seen[i], base, x.waiting))
  }

  /** This is the arrival of a packet in the queue. */
  predicate Since(q: Packet, a: Arrival, base: nat, waiting: seq<nat>) {
    q.timeReceived == a.now && q.seqNo == (base + a.number) % U16_MODULUS && a.number in waiting
  }

  lemma {:induction false} ArrivedStep(seen: seq<Arrival>, a: Arrival, n: nat)
    ensures Arrived(seen + [a], n) <==> Arrived(seen, n) || a.number == n
  {
    assert (seen + [a])[|seen|] == a;
    assert forall i :: 0 <= i < |seen| ==> (seen + [a])[i] == seen[i];
  }

  lemma {:induction false} StoredPackets(b: Buffer, p: Packet, q: Packet)
    requires q in Store(b, p).0.queue
    ensures q in b.queue || (Store(b, p).1 && q.timeReceived == p.timeReceived && q.seqNo == p.seqNo)
  {
    hide Place, SeqNumLT;
    var i := Place(b.queue, p.seqNo);
    assert b.queue == b.queue[..i] + b.queue[i..];
  }

  lemma {:induction false} SettledStore(b: Buffer, x: Numbers, sent: seq<Bytes>, base: nat, seen: seq<Arrival>, a: Arrival)
    requires Settled(b, x, sent, base, seen) && a.number < |sent| && Near(b, x.expected, a.number)
    requires !b.haveSeenFirst ==> a.number == 0 && x.expected == 0
    ensures var p := PacketOf(sent, base, a);
      Settled(Store(b, p).0, NumbersStored(b, x, p, a.number), sent, base, seen + [a])
  {
    hide Store, Tracks, Near, Inserted, Upto, Arrived;
    var p := PacketOf(sent, base, a);
    StoreTracks(b, sent, base, x.waiting, x.expected, x.taken, p, a.number);
    var y := NumbersStored(b, x, p, a.number);
    var c := Store(b, p).0;
    forall n: nat
      ensures Arrived(seen + [a], n) <==> Arrived(seen, n) || a.number == n
      ensures n in Inserted(x.waiting, a.number) <==> n in x.waiting || n == a.number
    {
      ArrivedStep(seen, a, n);
      KnownInserted(x.waiting, a.number, n);
    }
    forall q | q in c.queue
      ensures exists i :: 0 <= i < |seen + [a]| && Since(q, (seen + [a])[i], base, y.waiting)
    {
      StoredPackets(b, p, q);
      if q in b.queue {
        var i :| 0 <= i < |seen| && Since(q, seen[i], base, x.waiting);
        assert Since(q, (seen + [a])[i], base, y.waiting);
      } else {
        assert Since(q, (seen + [a])[|seen|], base, y.waiting);
      }
    }
  }

  lemma {:induction false} UptoStep(n: nat)
    ensures Upto(n) + [n] == Upto(n + 1)
  {
  }

  lemma {:induction false} TracksHead(b: Buffer, sent: seq<Bytes>, base: nat, x: Numbers)
    requires Tracks(b, sent, base, x.waiting, x.expected, x.taken) && b.queue != []
    ensures x.waiting != [] && |x.waiting| == |b.queue| && x.waiting[0] >= x.expected && x.waiting[0] < x.expected + WINDOW
    ensures forall n :: n in x.waiting[1..] <==> n in x.waiting && n > x.waiting[0]
    ensures b.nextExpected == (base + x.expected) % U16_MODULUS && b.queue[0].seqNo == (base + x.waiting[0]) % U16_MODULUS
  {
    assert x.waiting == [x.waiting[0]] + x.waiting[1..];
  }

  /** A packet that is not the one expected has to wait. */
  lemma {:induction false} HeadWaits(b: Buffer, x: Numbers, sent: seq<Bytes>, base: nat, seen: seq<Arrival>, now: int, threshold: nat)
    requires Settled(b, x, sent, base, seen) && Patient(seen, now, threshold)
    ensures NextCompleted(b, now, threshold).1.Some? <==> x.expected in x.waiting
    ensures x.expected in x.waiting ==> b.queue != [] && x.waiting != [] && x.waiting[0] == x.expected
  {
    hide Tracks, Arrived, Waited, Upto;
    TracksShape(b, sent, base, x.waiting, x.expected, x.taken);
    if b.queue != [] {
      TracksHead(b, sent, base, x);
      SameNumber(base + x.expected, base + x.waiting[0]);
      if x.waiting[0] != x.expected {
        assert b.queue[0] in b.queue;
        var i :| 0 <= i < |seen| && Since(b.queue[0], seen[i], base, x.waiting);
        assert x.expected < seen[i].number && !Arrived(seen, x.expected);
        assert threshold > 0 && Waited(now, seen[i].now) <= threshold;
      }
    }
  }

  lemma {:induction false} SettledTake(b: Buffer, x: Numbers, sent: seq<Bytes>, base: nat, seen: seq<Arrival>, now: int, threshold: nat)
    requires Settled(b, x, sent, base, seen) && Patient(seen, now, threshold) && NextCompleted(b, now, threshold).1.Some?
    ensures var b' := NextCompleted(b, now, threshold).0;
      b'.queue == b.queue != [] && Settled(Release(b'), NumbersTaken(x), sent, base, seen)
  {
    hide Tracks, Arrived, Patient, Upto, NextCompleted, Since;
    HeadWaits(b, x, sent, base, seen, now, threshold);
    TakeTracks(b, sent, base, x.waiting, x.expected, x.taken, now, threshold);
    TracksHead(b, sent, base, x);
    UptoStep(x.expected);
    StillSince(b, x, sent, base, seen);
  }

  /** The packets that stay in the queue have still arrived. */
  lemma {:induction false} StillSince(b: Buffer, x: Numbers, sent: seq<Bytes>, base: nat, seen: seq<Arrival>)
    requires Tracks(b, sent, base, x.waiting, x.expected, x.taken) && b.queue != []
    requires forall q :: q in b.queue ==> exists i :: 0 <= i < |seen| && Since(q, seen[i], base, x.waiting)
    ensures x.waiting != []
    ensures forall q :: q in b.queue[1..] ==> exists i :: 0 <= i < |seen| && Since(q, seen[i], base, x.waiting[1..])
  {
    hide Tracks, Since;
    TracksHead(b, sent, base, x);
    TracksShape(b, sent, base, x.waiting, x.expected, x.taken);
    forall q | q in b.queue[1..]
      ensures exists i :: 0 <= i < |seen| && Since(q, seen[i], base, x.waiting[1..])
    {
      var j :| 0 <= j < |b.queue[1..]| && b.queue[1..][j] == q;
      assert q == b.queue[j + 1] && q in b.queue;
      var i :| 0 <= i < |seen| && Since(q, seen[i], base, x.waiting);
      SinceBehind(q, seen[i], base, x.waiting, j + 1, x.expected);
    }
  }

  lemma {:induction false} SinceBehind(q: Packet, a: Arrival, base: nat, waiting: seq<nat>, j: nat, e: nat)
    requires Since(q, a, base, waiting) && Increasing(waiting) && 0 < j < |waiting|
    requires q.seqNo == (base + waiting[j]) % U16_MODULUS
    requires forall h :: 0 <= h < |waiting| ==> e <= waiting[h] < e + WINDOW
    ensures Since(q, a, base, waiting[1..])
  {
    var h :| 0 <= h < |waiting| && waiting[h] == a.number;
    NotTheHead(base, waiting[0], waiting[j], waiting[h], e);
    assert waiting[1..][h - 1] == a.number;
  }

  lemma {:induction false} NotTheHead(base: nat, first: nat, other: nat, n: nat, e: nat)
    requires e <= first < other < e + WINDOW && first <= n < e + WINDOW
    ensures (base + n) % U16_MODULUS == (base + other) % U16_MODULUS ==> n > first
  {
    SameNumber(base + first, base + other);
  }

  lemma {:induction false} SettledNext(c: Codec, b: Buffer, k: Collector, x: Numbers, sent: seq<Bytes>, base: nat, seen: seq<Arrival>,
                                       now: int, threshold: nat, limit: nat)
    requires Settled(b, x, sent, base, seen) && Patient(seen, now, threshold)
    ensures var (b', k', f) := NextFrame(c, b, k, now, threshold, limit);
      var y := NumbersNext(c, b, k, x, now, threshold, limit);
      Settled(b', y, sent, base, seen) && (f.None? ==> y.expected !in y.waiting)
    decreases |b.queue|
  {
    hide Settled, Patient, Feed, NumbersTaken;
    HeadWaits(b, x, sent, base, seen, now, threshold);
    var (b', r) := NextCompleted(b, now, threshold);
    if r.Some? {
      SettledTake(b, x, sent, base, seen, now, threshold);
      var (k', f) := Feed(c, k, r.value.0.payload, r.value.1, limit);
      if f.None? { SettledNext(c, Release(b'), k', NumbersTaken(x), sent, base, seen, now, threshold, limit); }
    }
  }

  lemma {:induction false} SettledAll(c: Codec, b: Buffer, k: Collector, x: Numbers, sent: seq<Bytes>, base: nat, seen: seq<Arrival>,
                                      now: int, threshold: nat, limit: nat)
    requires Settled(b, x, sent, base, seen) && Patient(seen, now, threshold)
    ensures var y := NumbersAll(c, b, k, x, now, threshold, limit);
      Settled(AllFrames(c, b, k, now, threshold, limit).0, y, sent, base, seen) && y.expected !in y.waiting
    decreases |b.queue|
  {
    hide Settled, Patient, NextFrame, NumbersNext;
    SettledNext(c, b, k, x, sent, base, seen, now, threshold, limit);
    var (b', k', f) := NextFrame(c, b, k, now, threshold, limit);
    if f.Some? { SettledAll(c, b', k', NumbersNext(c, b, k, x, now, threshold, limit), sent, base, seen, now, threshold, limit); }
  }

  /** Conditions on the arrivals alone: the first packet comes first, and none is too late or too far out of order. */
  predicate Orderly(arrivals: seq<Arrival>, threshold: nat) {
    && (arrivals != [] ==> arrivals[0].number == 0)
    && (forall i :: 0 < i < |arrivals| ==> Within(arrivals[..i], arrivals[i].number))
    && (forall i :: 0 <= i < |arrivals| ==> Patient(arrivals[..i + 1], arrivals[i].now, threshold))
  }

  lemma {:induction false} WithinIsNear(b: Buffer, x: Numbers, sent: seq<Bytes>, base: nat, seen: seq<Arrival>, n: nat)
    requires Settled(b, x, sent, base, seen) && Within(seen, n) && x.expected !in x.waiting
    ensures Near(b, x.expected, n)
  {
    hide Tracks, Arrived, Upto;
  }

  lemma {:induction false} SettledSession(c: Codec, b: Buffer, k: Collector, x: Numbers, sent: seq<Bytes>, base: nat, arrivals: seq<Arrival>,
                                          i: nat, threshold: nat, limit: nat)
    requires i <= |arrivals| && (forall j :: 0 <= j < |arrivals| ==> arrivals[j].number < |sent|) && Orderly(arrivals, threshold)
    requires Settled(b, x, sent, base, arrivals[..i]) && x.expected !in x.waiting
    requires if i == 0 then x.expected == 0 && !b.haveSeenFirst else b.haveSeenFirst
    ensures NearThroughout(c, b, k, x, sent, base, arrivals[i..], threshold, limit)
    ensures var y := NumbersAfter(c, b, k, x, sent, base, arrivals[i..], threshold, limit);
      y.taken == Upto(y.expected) && !Arrived(arrivals, y.expected) && y.expected <= |sent|
    decreases |arrivals| - i
  {
    hide AllFrames, NumbersAll, Store, Tracks, Within, Patient, Upto, Near, Arrived, NumbersStored;
    if i == |arrivals| {
      assert arrivals[i..] == [] && arrivals[..i] == arrivals;
      TakenBelow(b, sent, base, x);
    } else {
      var a, rest := arrivals[i], arrivals[i..];
      assert rest[0] == a && rest[1..] == arrivals[i + 1..] && arrivals[..i] + [a] == arrivals[..i + 1];
      var p := PacketOf(sent, base, a);
      if i > 0 { WithinIsNear(b, x, sent, base, arrivals[..i], a.number); } else { NearFirst(b, a.number); }
      SettledStore(b, x, sent, base, arrivals[..i], a);
      var b1, x1 := Store(b, p).0, NumbersStored(b, x, p, a.number);
      SettledAll(c, b1, k, x1, sent, base, arrivals[..i + 1], a.now, threshold, limit);
      var (b2, k2, _) := AllFrames(c, b1, k, a.now, threshold, limit);
      var x2 := NumbersAll(c, b1, k, x1, a.now, threshold, limit);
      SeenFirst(c, b, p, k, a.now, threshold, limit);
      SettledSession(c, b2, k2, x2, sent, base, arrivals, i + 1, threshold, limit);
    }
  }

  lemma {:induction false} NearFirst(b: Buffer, n: nat)
    requires !b.haveSeenFirst
    ensures Near(b, 0, n)
  {
  }

  lemma {:induction false} TakenBelow(b: Buffer, sent: seq<Bytes>, base: nat, x: Numbers)
    requires Tracks(b, sent, base, x.waiting, x.expected, x.taken) && x.taken == Upto(x.expected)
    ensures x.expected <= |sent|
  {
    if x.expected > 0 { assert x.taken[x.expected - 1] < |sent|; }
  }

  lemma {:induction false} SeenStays(c: Codec, b: Buffer, k: Collector, now: int, threshold: nat, limit: nat)
    ensures NextFrame(c, b, k, now, threshold, limit).0.haveSeenFirst == b.haveSeenFirst
    decreases |b.queue|
  {
    hide Feed, Waited;
    var (b', r) := NextCompleted(b, now, threshold);
    if r.Some? {
      var (k', f) := Feed(c, k, r.value.0.payload, r.value.1, limit);
      if f.None? { SeenStays(c, Release(b'), k', now, threshold, limit); }
    }
  }

  lemma {:induction false} SeenStaysAll(c: Codec, b: Buffer, k: Collector, now: int, threshold: nat, limit: nat)
    ensures AllFrames(c, b, k, now, threshold, limit).0.haveSeenFirst == b.haveSeenFirst
    decreases |b.queue|
  {
    hide NextFrame;
    SeenStays(c, b, k, now, threshold, limit);
    var (b', k', f) := NextFrame(c, b, k, now, threshold, limit);
    if f.Some? { SeenStaysAll(c, b', k', now, threshold, limit); }
  }

  lemma {:induction false} SeenFirst(c: Codec, b: Buffer, p: Packet, k: Collector, now: int, threshold: nat, limit: nat)
    ensures AllFrames(c, Store(b, p).0, k, now, threshold, limit).0.haveSeenFirst
  {
    hide AllFrames, Place, SeqNumLT;
    SeenStaysAll(c, Store(b, p).0, k, now, threshold, limit);
  }

  lemma {:induction false} IdleSettled(sent: seq<Bytes>, base: nat)
    ensures Settled(Idle(), Numbers([], 0, []), sent, base, [])
  {
  }

  /** When every packet arrives, in whatever order and however often, each less than 2^15 away from the first one missing and
      within the threshold of those behind it, every unit is given out. */
  lemma {:induction false} OrderlySessionGivesAll(c: Codec, nals: seq<Bytes>, m: nat, base: nat, arrivals: seq<Arrival>, threshold: nat, limit: nat)
    requires m >= MinLimit(c) && AllSendable(c, nals, m, limit)
    requires forall i :: 0 <= i < |arrivals| ==> arrivals[i].number < |Stream(c, nals, m)|
    requires forall n: nat :: n < |Stream(c, nals, m)| ==> Arrived(arrivals, n)
    requires Orderly(arrivals, threshold)
    ensures Session(c, Idle(), Collector([], false), Stream(c, nals, m), base, arrivals, threshold, limit) == nals
  {
    hide Session, NumbersAfter, Stream, Intact, NearThroughout, Mask, Orderly, Settled, Arrived;
    var sent := Stream(c, nals, m);
    var x, k := Numbers([], 0, []), Collector([], false);
    IdleSettled(sent, base);
    assert arrivals[..0] == [] && arrivals[0..] == arrivals;
    SettledSession(c, Idle(), k, x, sent, base, arrivals, 0, threshold, limit);
    var y := NumbersAfter(c, Idle(), k, x, sent, base, arrivals, threshold, limit);
    assert y.expected == |sent|;
    SessionGivesIntactUnits(c, nals, m, base, arrivals, threshold, limit);
    FullMask(|sent|);
    AllIntact(c, nals, m, Mask(|sent|, Upto(|sent|)));
  }

  // ---------- When packets are lost ----------

  function NumbersOf(arrivals: seq<Arrival>): (r: seq<nat>)
    ensures |r| == |arrivals| && forall i :: 0 <= i < |r| ==> r[i] == arrivals[i].number
  {
    seq(|arrivals|, i requires 0 <= i < |arrivals| => arrivals[i].number)
  }

  /** Everything that has arrived has been taken or is waiting, in the order of arrival. */
  ghost predicate Backlog(b: Buffer, x: Numbers, sent: seq<Bytes>, base: nat, seen: seq<Arrival>) {
    Tracks(b, sent, base, x.waiting, x.expected, x.taken) && Listed(b.queue, x, seen)
  }

  predicate Listed(queue: seq<Packet>, x: Numbers, seen: seq<Arrival>) {
    && x.taken + x.waiting == NumbersOf(seen)
    && |queue| == |x.waiting|
    && forall j :: 0 <= j < |queue| ==> queue[j].timeReceived == seen[|x.taken| + j].now
  }

  lemma {:induction false} ListedTail(queue: seq<Packet>, x: Numbers, seen: seq<Arrival>)
    requires Listed(queue, x, seen) && queue != []
    ensures Listed(queue[1..], NumbersTaken(x), seen)
  {
    assert (x.taken + [x.waiting[0]]) + x.waiting[1..] == x.taken + x.waiting;
  }

  /** A packet that comes directly behind the one before it, or has waited for longer than the threshold. */
  predicate Overdue(seen: seq<Arrival>, i: nat, now: int, threshold: nat)
    requires i < |seen|
  {
    i == 0 || threshold == 0 || seen[i].number == seen[i - 1].number + 1 || (now - seen[i].now) % 0x1_0000_0000 > threshold
  }

  predicate AllOverdue(seen: seq<Arrival>, now: int, threshold: nat) {
    forall i :: 0 <= i < |seen| ==> Overdue(seen, i, now, threshold)
  }

  /** A packet with a number greater than all before goes to the end of the queue. */
  lemma {:induction false} BacklogStore(b: Buffer, x: Numbers, sent: seq<Bytes>, base: nat, seen: seq<Arrival>, a: Arrival)
    requires Backlog(b, x, sent, base, seen) && a.number < |sent| && Near(b, x.expected, a.number)
    requires seen != [] ==> b.haveSeenFirst && a.number > seen[|seen| - 1].number
    requires Increasing(NumbersOf(seen)) && (seen == [] ==> !b.haveSeenFirst)
    ensures var p := PacketOf(sent, base, a);
      Backlog(Store(b, p).0, NumbersStored(b, x, p, a.number), sent, base, seen + [a])
  {
    hide Tracks, Near, SeqNumLT, Place, Store, Inserted, Increasing;
    var p := PacketOf(sent, base, a);
    var c, y := Store(b, p).0, NumbersStored(b, x, p, a.number);
    AboveAll(x, seen, a.number);
    if b.haveSeenFirst { TracksExpected(b, sent, base, x, a.number); }
    InsertedLast(x.waiting, a.number);
    StoredTracks(b, x, sent, base, a);
    StoredLast(b, x, sent, base, p, a.number);
    AppendedNumbers(x, seen, a);
    forall j | 0 <= j < |c.queue|
      ensures c.queue[j].timeReceived == (seen + [a])[|y.taken| + j].now
    {
      if j < |b.queue| { assert c.queue[j] == c.queue[..|b.queue|][j]; }
    }
  }

  lemma {:induction false} StoredTracks(b: Buffer, x: Numbers, sent: seq<Bytes>, base: nat, a: Arrival)
    requires Tracks(b, sent, base, x.waiting, x.expected, x.taken) && a.number < |sent| && Near(b, x.expected, a.number)
    requires a.number !in x.waiting && (b.haveSeenFirst ==> x.expected <= a.number)
    ensures var p := PacketOf(sent, base, a); var y := NumbersStored(b, x, p, a.number);
      Tracks(Store(b, p).0, sent, base, y.waiting, y.expected, y.taken) && y.waiting == Inserted(x.waiting, a.number) && y.taken == x.taken
  {
    hide Tracks, Near, Store, Inserted;
    StoreTracks(b, sent, base, x.waiting, x.expected, x.taken, PacketOf(sent, base, a), a.number);
  }

  lemma {:induction false} AppendedNumbers(x: Numbers, seen: seq<Arrival>, a: Arrival)
    requires x.taken + x.waiting == NumbersOf(seen)
    ensures x.taken + (x.waiting + [a.number]) == NumbersOf(seen + [a])
    ensures |x.taken| + |x.waiting| == |seen|
  {
    assert NumbersOf(seen + [a]) == NumbersOf(seen) + [a.number];
    assert |x.taken + x.waiting| == |seen|;
  }

  lemma {:induction false} AboveAll(x: Numbers, seen: seq<Arrival>, n: nat)
    requires x.taken + x.waiting == NumbersOf(seen) && Increasing(NumbersOf(seen))
    requires seen != [] ==> n > seen[|seen| - 1].number
    ensures forall m :: m in x.waiting || m in x.taken ==> m < n
  {
    var all := NumbersOf(seen);
    forall m | m in x.waiting || m in x.taken
      ensures m < n
    {
      assert m in x.taken + x.waiting;
      var i :| 0 <= i < |all| && all[i] == m;
      assert i < |all| - 1 ==> all[i] < all[|all| - 1];
    }
  }

  lemma {:induction false} TracksExpected(b: Buffer, sent: seq<Bytes>, base: nat, x: Numbers, n: nat)
    requires Tracks(b, sent, base, x.waiting, x.expected, x.taken) && b.haveSeenFirst
    requires forall m :: m in x.waiting || m in x.taken ==> m < n
    ensures x.expected <= n
  {
    assert x.taken != [] ==> x.taken[|x.taken| - 1] in x.taken;
    assert x.waiting != [] ==> x.waiting[0] in x.waiting;
  }

  lemma {:induction false} InsertedLast(ns: seq<nat>, n: nat)
    requires forall m :: m in ns ==> m < n
    ensures n !in ns && Inserted(ns, n) == ns + [n]
  {
    hide Rank;
    var i := Rank(ns, n);
    forall j | 0 <= j < |ns| ensures ns[j] < n { assert ns[j] in ns; }
  }

  lemma {:induction false} StoredLast(b: Buffer, x: Numbers, sent: seq<Bytes>, base: nat, p: Packet, n: nat)
    requires Tracks(b, sent, base, x.waiting, x.expected, x.taken) && Near(b, x.expected, n)
    requires p.seqNo == (base + n) % U16_MODULUS
    requires b.haveSeenFirst ==> x.expected <= n && forall m :: m in x.waiting ==> m < n
    ensures var q := Store(b, p).0.queue;
      |q| == |b.queue| + 1 && q[|b.queue|].timeReceived == p.timeReceived && q[..|b.queue|] == b.queue
  {
    hide SeqNumLT, Place, Tracks;
    TracksShape(b, sent, base, x.waiting, x.expected, x.taken);
    if b.haveSeenFirst {
      SerialOrder(base + x.expected, base + n, base + x.expected);
      if b.queue != [] {
        var last := |b.queue| - 1;
        assert x.waiting[last] in x.waiting;
        SerialOrder(base + x.expected, base + x.waiting[last], base + n);
        assert SeqNumLT(b.queue[last].seqNo, p.seqNo) && !SeqNumLT(p.seqNo, b.nextExpected);
        assert Store(b, p).0.queue == b.queue + [p];
      }
    } else {
      SerialOrder(base + n, base + n, base + n);
      FirstQueue(b, sent, base, x);
    }
  }

  lemma {:induction false} FirstQueue(b: Buffer, sent: seq<Bytes>, base: nat, x: Numbers)
    requires Tracks(b, sent, base, x.waiting, x.expected, x.taken) && !b.haveSeenFirst
    ensures b.queue == []
  {
  }

  /** Every packet in the queue has its turn. */
  lemma {:induction false} BacklogTake(b: Buffer, x: Numbers, sent: seq<Bytes>, base: nat, seen: seq<Arrival>, now: int, threshold: nat)
    requires Backlog(b, x, sent, base, seen)
    ensures AllOverdue(seen, now, threshold) && b.queue != [] ==> NextCompleted(b, now, threshold).1.Some?
    ensures NextCompleted(b, now, threshold).1.Some? ==>
              b.queue != [] && NextCompleted(b, now, threshold).0.queue == b.queue
              && Backlog(Release(NextCompleted(b, now, threshold).0), NumbersTaken(x), sent, base, seen)
  {
    hide Tracks, NextCompleted, AllOverdue, Increasing, Backlog;
    if b.queue != [] {
      GivenUpIff(b, now, threshold);
      if AllOverdue(seen, now, threshold) { HeadOverdue(b, x, sent, base, seen, now, threshold); }
    }
    if NextCompleted(b, now, threshold).1.Some? {
      SomeNotEmpty(b, now, threshold);
      BacklogReleased(b, x, sent, base, seen, now, threshold);
    }
  }

  lemma {:induction false} BacklogReleased(b: Buffer, x: Numbers, sent: seq<Bytes>, base: nat, seen: seq<Arrival>, now: int, threshold: nat)
    requires Backlog(b, x, sent, base, seen) && b.queue != [] && NextCompleted(b, now, threshold).1.Some?
    ensures NextCompleted(b, now, threshold).0.queue == b.queue
    ensures Backlog(Release(NextCompleted(b, now, threshold).0), NumbersTaken(x), sent, base, seen)
  {
    hide Tracks, NextCompleted, Listed;
    TakeTracks(b, sent, base, x.waiting, x.expected, x.taken, now, threshold);
    ListedTail(b.queue, x, seen);
  }

  lemma {:induction false} HeadOverdue(b: Buffer, x: Numbers, sent: seq<Bytes>, base: nat, seen: seq<Arrival>, now: int, threshold: nat)
    requires Backlog(b, x, sent, base, seen) && b.queue != [] && AllOverdue(seen, now, threshold)
    ensures b.queue[0].seqNo == b.nextExpected || threshold == 0 || (now - b.queue[0].timeReceived) % 0x1_0000_0000 > threshold
  {
    hide Tracks;
    TracksHead(b, sent, base, x);
    TracksSeen(b, sent, base, x);
    var i := |x.taken|;
    assert (x.taken + x.waiting)[i] == x.waiting[0] == seen[i].number;
    assert i > 0 ==> (x.taken + x.waiting)[i - 1] == x.taken[i - 1] == seen[i - 1].number;
    assert Overdue(seen, i, now, threshold);
    assert b.queue[0].timeReceived == seen[i].now;
  }

  lemma {:induction false} SomeNotEmpty(b: Buffer, now: int, threshold: nat)
    requires NextCompleted(b, now, threshold).1.Some?
    ensures b.queue != []
  {
  }

  lemma {:induction false} TracksSeen(b: Buffer, sent: seq<Bytes>, base: nat, x: Numbers)
    requires Tracks(b, sent, base, x.waiting, x.expected, x.taken) && b.queue != []
    ensures b.haveSeenFirst && (x.taken == [] ==> x.waiting[0] == x.expected)
    ensures x.taken != [] ==> x.expected == x.taken[|x.taken| - 1] + 1
  {
  }

  lemma {:induction false} BacklogNext(c: Codec, b: Buffer, k: Collector, x: Numbers, sent: seq<Bytes>, base: nat, seen: seq<Arrival>,
                                       now: int, threshold: nat, limit: nat)
    requires Backlog(b, x, sent, base, seen)
    ensures var (b', k', f) := NextFrame(c, b, k, now, threshold, limit);
      && Backlog(b', NumbersNext(c, b, k, x, now, threshold, limit), sent, base, seen)
      && (AllOverdue(seen, now, threshold) && f.None? ==> b'.queue == [])
    decreases |b.queue|
  {
    hide Backlog, AllOverdue, Feed, NumbersTaken, NextCompleted;
    BacklogTake(b, x, sent, base, seen, now, threshold);
    NextFrameStep(c, b, k, x, now, threshold, limit);
    var (b', r) := NextCompleted(b, now, threshold);
    if r.Some? {
      var (k', f) := Feed(c, k, r.value.0.payload, r.value.1, limit);
      if f.None? { BacklogNext(c, Release(b'), k', NumbersTaken(x), sent, base, seen, now, threshold, limit); }
    }
  }

  lemma {:induction false} NextFrameStep(c: Codec, b: Buffer, k: Collector, x: Numbers, now: int, threshold: nat, limit: nat)
    ensures NextCompleted(b, now, threshold).1.None? ==>
              NextCompleted(b, now, threshold).0 == b
              && NextFrame(c, b, k, now, threshold, limit) == (b, k, None) && NumbersNext(c, b, k, x, now, threshold, limit) == x
  {
  }

  lemma {:induction false} BacklogAll(c: Codec, b: Buffer, k: Collector, x: Numbers, sent: seq<Bytes>, base: nat, seen: seq<Arrival>,
                                      now: int, threshold: nat, limit: nat)
    requires Backlog(b, x, sent, base, seen)
    ensures var b' := AllFrames(c, b, k, now, threshold, limit).0;
      && Backlog(b', NumbersAll(c, b, k, x, now, threshold, limit), sent, base, seen)
      && (AllOverdue(seen, now, threshold) ==> b'.queue == [])
    decreases |b.queue|
  {
    hide Backlog, AllOverdue, NextFrame, NumbersNext;
    BacklogNext(c, b, k, x, sent, base, seen, now, threshold, limit);
    var (b', k', f) := NextFrame(c, b, k, now, threshold, limit);
    if f.Some? { BacklogAll(c, b', k', NumbersNext(c, b, k, x, now, threshold, limit), sent, base, seen, now, threshold, limit); }
  }

  lemma {:induction false} BacklogSession(c: Codec, b: Buffer, k: Collector, x: Numbers, sent: seq<Bytes>, base: nat, arrivals: seq<Arrival>,
                                          i: nat, threshold: nat, limit: nat)
    requires i < |arrivals| && (forall j :: 0 <= j < |arrivals| ==> arrivals[j].number < |sent|) && Increasing(NumbersOf(arrivals))
    requires Backlog(b, x, sent, base, arrivals[..i]) && (b.haveSeenFirst <==> i > 0)
    requires NearThroughout(c, b, k, x, sent, base, arrivals[i..], threshold, limit)
    ensures AllOverdue(arrivals, arrivals[|arrivals| - 1].now, threshold) ==>
              NumbersAfter(c, b, k, x, sent, base, arrivals[i..], threshold, limit).taken == NumbersOf(arrivals)
    decreases |arrivals| - i
  {
    hide AllFrames, NumbersAll, Store, Backlog, AllOverdue, NumbersStored, Near;
    var a, rest := arrivals[i], arrivals[i..];
    assert rest[0] == a && rest[1..] == arrivals[i + 1..] && arrivals[..i] + [a] == arrivals[..i + 1];
    var p := PacketOf(sent, base, a);
    PartIncreasing(arrivals, i);
    BacklogStore(b, x, sent, base, arrivals[..i], a);
    var b1, x1 := Store(b, p).0, NumbersStored(b, x, p, a.number);
    BacklogAll(c, b1, k, x1, sent, base, arrivals[..i + 1], a.now, threshold, limit);
    var (b2, k2, _) := AllFrames(c, b1, k, a.now, threshold, limit);
    var x2 := NumbersAll(c, b1, k, x1, a.now, threshold, limit);
    SeenFirst(c, b, p, k, a.now, threshold, limit);
    if i + 1 == |arrivals| {
      assert arrivals[..i + 1] == arrivals && arrivals[i + 1..] == [];
      if b2.queue == [] { NothingWaits(b2, x2, sent, base, arrivals); }
    } else {
      BacklogSession(c, b2, k2, x2, sent, base, arrivals, i + 1, threshold, limit);
    }
  }

  lemma {:induction false} PartIncreasing(arrivals: seq<Arrival>, i: nat)
    requires i < |arrivals| && Increasing(NumbersOf(arrivals))
    ensures Increasing(NumbersOf(arrivals[..i])) && (i > 0 ==> arrivals[i].number > arrivals[..i][i - 1].number)
  {
    assert i > 0 ==> NumbersOf(arrivals)[i - 1] < NumbersOf(arrivals)[i];
    assert NumbersOf(arrivals[..i]) == NumbersOf(arrivals)[..i];
  }

  lemma {:induction false} NothingWaits(b: Buffer, x: Numbers, sent: seq<Bytes>, base: nat, seen: seq<Arrival>)
    requires Backlog(b, x, sent, base, seen) && b.queue == []
    ensures x.taken == NumbersOf(seen)
  {
    hide Tracks;
    assert x.taken + [] == x.taken;
  }

  lemma {:induction false} IdleBacklog(sent: seq<Bytes>, base: nat)
    ensures Backlog(Idle(), Numbers([], 0, []), sent, base, [])
  {
  }

  /** When packets arrive in order, with any of them missing, and by the time of the last one every packet behind a gap has waited for
      longer than the threshold, none is left waiting: the units given out are exactly those all of whose packets have arrived. */
  lemma {:induction false} LossesAreGivenUp(c: Codec, nals: seq<Bytes>, m: nat, base: nat, arrivals: seq<Arrival>, threshold: nat, limit: nat)
    requires m >= MinLimit(c) && AllSendable(c, nals, m, limit) && arrivals != []
    requires forall i :: 0 <= i < |arrivals| ==> arrivals[i].number < |Stream(c, nals, m)|
    requires Increasing(NumbersOf(arrivals)) && AllOverdue(arrivals, arrivals[|arrivals| - 1].now, threshold)
    requires NearThroughout(c, Idle(), Collector([], false), Numbers([], 0, []), Stream(c, nals, m), base, arrivals, threshold, limit)
    ensures Session(c, Idle(), Collector([], false), Stream(c, nals, m), base, arrivals, threshold, limit)
            == Intact(c, nals, m, Mask(|Stream(c, nals, m)|, NumbersOf(arrivals)))
  {
    hide Session, NumbersAfter, Stream, Intact, NearThroughout, Mask, AllOverdue, Backlog;
    var sent := Stream(c, nals, m);
    IdleBacklog(sent, base);
    assert arrivals[..0] == [] && arrivals[0..] == arrivals;
    BacklogSession(c, Idle(), Collector([], false), Numbers([], 0, []), sent, base, arrivals, 0, threshold, limit);
    SessionGivesIntactUnits(c, nals, m, base, arrivals, threshold, limit);
  }

  /** Packet 2, received at time 0, is given out for the missing packet 1 once it has waited for longer than a tenth of a second. */
  lemma {:induction false} GivenUpAfterASecond(payload: Bytes)
    ensures var head := Packet(2, payload, false, 0);
      NextCompleted(Buffer([head], true, 1), 1_000_000, 100_000) == (Buffer([head], true, 2), Some((head, true)))
  {
  }
}
