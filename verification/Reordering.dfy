/** The reordering buffer of an RTP source, as a value, and the true numbers behind its 16-bit sequence numbers. */
module Reordering {
  import opened SequenceNumbers
  import opened Codecs
  import opened Options
  import opened Collecting
  import opened NalFragments

  const WINDOW := 0x8000
  const U32_MODULUS := 0x1_0000_0000

  datatype Packet = Packet(seqNo: nat, payload: Bytes, isFirst: bool, timeReceived: int)

  datatype Buffer = Buffer(queue: seq<Packet>, haveSeenFirst: bool, nextExpected: nat)

  /** The first packet of the queue that the new one belongs before; the length of the queue for none. */
  function Place(queue: seq<Packet>, seqNo: nat): (i: nat)
    ensures i <= |queue|
    ensures i < |queue| ==> SeqNumLT(seqNo, queue[i].seqNo) || seqNo == queue[i].seqNo
    ensures forall j :: 0 <= j < i ==> !SeqNumLT(seqNo, queue[j].seqNo) && seqNo != queue[j].seqNo
  {
    if queue == [] || SeqNumLT(seqNo, queue[0].seqNo) || seqNo == queue[0].seqNo then 0 else 1 + Place(queue[1..], seqNo)
  }

  /** storePacket */
  function Store(b: Buffer, packet: Packet): (Buffer, bool) {
    var b0 := if b.haveSeenFirst then b else b.(haveSeenFirst := true, nextExpected := packet.seqNo);
    var p := if b.haveSeenFirst then packet else packet.(isFirst := true);
    var last := |b0.queue| - 1;
    if SeqNumLT(p.seqNo, b0.nextExpected) then (b0, false)
    else if b0.queue == [] then (b0.(queue := [p]), true)
    else if SeqNumLT(b0.queue[last].seqNo, p.seqNo) then (b0.(queue := b0.queue + [p]), true)
    else if p.seqNo == b0.queue[last].seqNo then (b0, false)
    else
      var i := Place(b0.queue, p.seqNo);
      if i < |b0.queue| && p.seqNo == b0.queue[i].seqNo then (b0, false)
      else (b0.(queue := b0.queue[..i] + [p] + b0.queue[i..]), true)
  }

  /** Microseconds since a packet was received, in 32 unsigned bits: if the clock has been set back, they are very many. */
  function Waited(now: int, received: int): nat {
    (now - received) % U32_MODULUS
  }

  /** getNextCompletedPacket: the head of the queue, if it is the packet expected or has waited for too long. */
  function NextCompleted(b: Buffer, now: int, threshold: nat): (Buffer, Option<(Packet, bool)>) {
    if b.queue == [] then (b, None)
    else if b.queue[0].seqNo == b.nextExpected then (b, Some((b.queue[0], b.queue[0].isFirst)))
    else if threshold == 0 || Waited(now, b.queue[0].timeReceived) > threshold then
      (b.(nextExpected := b.queue[0].seqNo), Some((b.queue[0], true)))
    else (b, None)
  }

  /** A packet is given out just if it is the one expected or nothing more is waited for, the loss flag says which. */
  lemma {:induction false} GivenUpIff(b: Buffer, now: int, threshold: nat)
    requires b.queue != []
    ensures var head, (b', r) := b.queue[0], NextCompleted(b, now, threshold);
      && (r.Some? <==> head.seqNo == b.nextExpected || threshold == 0 || (now - head.timeReceived) % 0x1_0000_0000 > threshold)
      && (r.Some? ==> r.value == (head, head.seqNo != b.nextExpected || head.isFirst) && b' == b.(nextExpected := head.seqNo))
  {
  }

  /** releaseUsedPacket */
  function Release(b: Buffer): Buffer
    requires b.queue != []
  {
    b.(nextExpected := (b.nextExpected + 1) % U16_MODULUS, queue := b.queue[1..])
  }

  // ---------- True numbers ----------

  /** The buffer holds the packets of `sent` with the numbers `ns`; those with the numbers `taken` have been used; `e` is the
      number of the packet expected next. */
  ghost predicate Tracks(b: Buffer, sent: seq<Bytes>, base: nat, ns: seq<nat>, e: nat, taken: seq<nat>) {
    && |ns| == |b.queue| && Increasing(ns) && Increasing(taken)
    && (forall i :: 0 <= i < |taken| ==> taken[i] < |sent|)
    && (forall i :: 0 <= i < |ns| ==> ns[i] < |sent| && b.queue[i].payload == sent[ns[i]])
    && (forall i :: 0 <= i < |ns| ==> e <= ns[i] < e + WINDOW)
    && (forall i :: 0 <= i < |ns| ==> b.queue[i].seqNo == (base + ns[i]) % U16_MODULUS)
    && (b.haveSeenFirst ==> b.nextExpected == (base + e) % U16_MODULUS)
    && (taken != [] ==> b.haveSeenFirst && e == taken[|taken| - 1] + 1)
    && (!b.haveSeenFirst ==> b.queue == [])
    && (b.haveSeenFirst && taken == [] ==> b.queue != [] && ns[0] == e)
    && (forall i :: 0 <= i < |ns| ==> (b.queue[i].isFirst <==> i == 0 && taken == []))
  }

  /** The numbers with one more in its place. */
  function InsertedAt(ns: seq<nat>, i: nat, n: nat): seq<nat>
    requires i <= |ns|
  {
    ns[..i] + [n] + ns[i..]
  }

  lemma {:induction false} SerialOrder(e: nat, x: nat, y: nat)
    requires x < e + WINDOW && y < e + WINDOW && x + WINDOW > e && y + WINDOW > e
    requires (e <= x && e <= y) || x == e || y == e
    ensures SeqNumLT(x % U16_MODULUS, y % U16_MODULUS) <==> x < y
    ensures x % U16_MODULUS == y % U16_MODULUS <==> x == y
  {
  }

  /** How many of the numbers come before `n`. */
  function Rank(ns: seq<nat>, n: nat): (i: nat)
    ensures i <= |ns| && (i < |ns| ==> n <= ns[i]) && forall j :: 0 <= j < i ==> ns[j] < n
  {
    if ns == [] || n <= ns[0] then 0 else 1 + Rank(ns[1..], n)
  }

  lemma {:induction false} RankIs(ns: seq<nat>, n: nat, i: nat)
    requires Increasing(ns) && i <= |ns| && (i < |ns| ==> n <= ns[i]) && forall j :: 0 <= j < i ==> ns[j] < n
    ensures Rank(ns, n) == i && (n in ns <==> i < |ns| && ns[i] == n)
    ensures forall j :: i < j < |ns| ==> n < ns[j]
  {
    hide Rank;
    var r := Rank(ns, n);
  }

  /** The numbers with one more in its place. */
  function Inserted(ns: seq<nat>, n: nat): seq<nat> {
    InsertedAt(ns, Rank(ns, n), n)
  }

  /** A packet that arrives less than 2^15 away from the one expected. */
  predicate Near(b: Buffer, e: nat, n: nat) {
    b.haveSeenFirst ==> e < n + WINDOW && n < e + WINDOW
  }

  /** Where the place found by sequence numbers is among the true numbers. */
  lemma {:induction false} PlaceInNumbers(queue: seq<Packet>, base: nat, ns: seq<nat>, e: nat, n: nat)
    requires |queue| == |ns| && Increasing(ns) && e <= n < e + WINDOW
    requires forall i :: 0 <= i < |ns| ==> e <= ns[i] < e + WINDOW && queue[i].seqNo == (base + ns[i]) % U16_MODULUS
    ensures var i := Place(queue, (base + n) % U16_MODULUS);
      && (forall j :: 0 <= j < i ==> ns[j] < n) && (forall j :: i <= j < |ns| ==> n <= ns[j])
      && (i < |ns| ==> ((base + n) % U16_MODULUS == queue[i].seqNo <==> n == ns[i]))
  {
    hide Place, SeqNumLT;
    var i := Place(queue, (base + n) % U16_MODULUS);
    forall j | 0 <= j < |ns|
      ensures SeqNumLT((base + n) % U16_MODULUS, queue[j].seqNo) <==> n < ns[j]
      ensures (base + n) % U16_MODULUS == queue[j].seqNo <==> n == ns[j]
    {
      SerialOrder(base + e, base + n, base + ns[j]);
    }
  }

  /** storePacket keeps the queue in the order of the true numbers. A packet is kept if it is not behind the one expected
      and not there already. */
  lemma {:induction false} StoreTracks(b: Buffer, sent: seq<Bytes>, base: nat, ns: seq<nat>, e: nat, taken: seq<nat>, p: Packet, n: nat)
    requires Tracks(b, sent, base, ns, e, taken) && Near(b, e, n) && n < |sent|
    requires p.seqNo == (base + n) % U16_MODULUS && p.payload == sent[n] && !p.isFirst
    ensures var (b', stored) := Store(b, p);
      var e' := if b.haveSeenFirst then e else n;
      && (stored <==> n >= e' && n !in ns)
      && Tracks(b', sent, base, if stored then Inserted(ns, n) else ns, e', taken)
  {
    hide Place, SeqNumLT;
    if !b.haveSeenFirst {
      StoreFirst(b, sent, base, ns, e, taken, p, n);
    } else if n < e {
      SerialOrder(base + e, base + n, base + e);
      assert Store(b, p) == (b, false);
    } else {
      SerialOrder(base + e, base + n, base + e);
      StoreLater(b, sent, base, ns, e, taken, p, n);
    }
  }

  lemma {:induction false} StoreFirst(b: Buffer, sent: seq<Bytes>, base: nat, ns: seq<nat>, e: nat, taken: seq<nat>, p: Packet, n: nat)
    requires Tracks(b, sent, base, ns, e, taken) && n < |sent| && !b.haveSeenFirst
    requires p.seqNo == (base + n) % U16_MODULUS && p.payload == sent[n] && !p.isFirst
    ensures var (b', stored) := Store(b, p);
      stored && n !in ns && Tracks(b', sent, base, Inserted(ns, n), n, taken)
  {
    SerialOrder(base + n, base + n, base + n);
    assert Inserted(ns, n) == [n];
  }

  lemma {:induction false} ElementsInserted<T>(s: seq<T>, i: nat, x: T)
    requires i <= |s|
    ensures var t := s[..i] + [x] + s[i..];
      |t| == |s| + 1 && forall j :: 0 <= j < |t| ==> t[j] == if j < i then s[j] else if j == i then x else s[j - 1]
  {
  }

  lemma {:induction false} NumbersInserted(ns: seq<nat>, e: nat, n: nat, i: nat, limit: nat)
    requires Increasing(ns) && i <= |ns| && e <= n < e + WINDOW && n < limit
    requires forall j :: 0 <= j < |ns| ==> e <= ns[j] < e + WINDOW && ns[j] < limit
    requires (forall j :: 0 <= j < i ==> ns[j] < n) && (forall j :: i <= j < |ns| ==> n < ns[j])
    ensures var ms := InsertedAt(ns, i, n);
      Increasing(ms) && forall j :: 0 <= j < |ms| ==> e <= ms[j] < e + WINDOW && ms[j] < limit
  {
    var ms := InsertedAt(ns, i, n);
    ElementsInserted(ns, i, n);
    hide InsertedAt;
    forall j, k | 0 <= j < k < |ms|
      ensures ms[j] < ms[k]
    {
    }
  }

  lemma {:induction false} QueueInserted(b: Buffer, sent: seq<Bytes>, base: nat, ns: seq<nat>, taken: seq<nat>, p: Packet, n: nat, i: nat)
    requires |ns| == |b.queue| && i <= |ns| && n < |sent| && (taken == [] ==> i > 0)
    requires forall j :: 0 <= j < |ns| ==> ns[j] < |sent| && b.queue[j].payload == sent[ns[j]] && b.queue[j].seqNo == (base + ns[j]) % U16_MODULUS
    requires forall j :: 0 <= j < |ns| ==> (b.queue[j].isFirst <==> j == 0 && taken == [])
    requires p.seqNo == (base + n) % U16_MODULUS && p.payload == sent[n] && !p.isFirst
    ensures var q, ms := b.queue[..i] + [p] + b.queue[i..], InsertedAt(ns, i, n);
      && |ms| == |q|
      && (forall j :: 0 <= j < |ms| ==> ms[j] < |sent| && q[j].payload == sent[ms[j]] && q[j].seqNo == (base + ms[j]) % U16_MODULUS)
      && (forall j :: 0 <= j < |ms| ==> (q[j].isFirst <==> j == 0 && taken == []))
  {
    ElementsInserted(ns, i, n);
    ElementsInserted(b.queue, i, p);
  }

  /** One more packet in its place. */
  lemma {:induction false} InsertTracks(b: Buffer, sent: seq<Bytes>, base: nat, ns: seq<nat>, e: nat, taken: seq<nat>, p: Packet, n: nat, i: nat)
    requires Tracks(b, sent, base, ns, e, taken) && b.haveSeenFirst && e <= n < e + WINDOW && n < |sent| && i <= |ns|
    requires p.seqNo == (base + n) % U16_MODULUS && p.payload == sent[n] && !p.isFirst
    requires (forall j :: 0 <= j < i ==> ns[j] < n) && (forall j :: i <= j < |ns| ==> n < ns[j])
    ensures Tracks(b.(queue := b.queue[..i] + [p] + b.queue[i..]), sent, base, InsertedAt(ns, i, n), e, taken)
  {
    hide InsertedAt;
    NumbersInserted(ns, e, n, i, |sent|);
    QueueInserted(b, sent, base, ns, taken, p, n, i);
    if taken == [] { FirstStays(ns, i, n); }
  }

  lemma {:induction false} FirstStays(ns: seq<nat>, i: nat, n: nat)
    requires 0 < i <= |ns|
    ensures |InsertedAt(ns, i, n)| > 0 && InsertedAt(ns, i, n)[0] == ns[0]
  {
  }

  lemma {:induction false} StoreLater(b: Buffer, sent: seq<Bytes>, base: nat, ns: seq<nat>, e: nat, taken: seq<nat>, p: Packet, n: nat)
    requires Tracks(b, sent, base, ns, e, taken) && b.haveSeenFirst && e <= n < e + WINDOW && n < |sent|
    requires p.seqNo == (base + n) % U16_MODULUS && p.payload == sent[n] && !p.isFirst
    ensures var (b', stored) := Store(b, p);
      (stored <==> n !in ns) && Tracks(b', sent, base, if stored then Inserted(ns, n) else ns, e, taken)
  {
    hide Place, SeqNumLT, Tracks, InsertedAt, Rank;
    TracksShape(b, sent, base, ns, e, taken);
    SerialOrder(base + e, base + n, base + e);
    var i := Place(b.queue, p.seqNo);
    PlaceInNumbers(b.queue, base, ns, e, n);
    RankIs(ns, n, i);
    if b.queue == [] {
      InsertTracks(b, sent, base, ns, e, taken, p, n, 0);
      assert b.queue[..0] + [p] + b.queue[0..] == [p];
    } else {
      var last := |ns| - 1;
      SerialOrder(base + e, base + ns[last], base + n);
      if ns[last] < n {
        InsertTracks(b, sent, base, ns, e, taken, p, n, |ns|);
        assert b.queue[..|ns|] + [p] + b.queue[|ns|..] == b.queue + [p];
      } else if ns[last] != n && (i == |ns| || ns[i] != n) {
        InsertTracks(b, sent, base, ns, e, taken, p, n, i);
      }
    }
  }

  lemma {:induction false} TracksShape(b: Buffer, sent: seq<Bytes>, base: nat, ns: seq<nat>, e: nat, taken: seq<nat>)
    requires Tracks(b, sent, base, ns, e, taken)
    ensures |ns| == |b.queue| && Increasing(ns) && (b.haveSeenFirst ==> b.nextExpected == (base + e) % U16_MODULUS)
    ensures forall i :: 0 <= i < |ns| ==> e <= ns[i] < e + WINDOW && b.queue[i].seqNo == (base + ns[i]) % U16_MODULUS
  {
  }

  /** The packet that getNextCompletedPacket gives out, once released: numbers grow, and loss is reported just when a number
      is missing (or for the very first packet). */
  lemma {:induction false} TakeTracks(b: Buffer, sent: seq<Bytes>, base: nat, ns: seq<nat>, e: nat, taken: seq<nat>, now: int, threshold: nat)
    requires Tracks(b, sent, base, ns, e, taken)
    ensures var (b', r) := NextCompleted(b, now, threshold);
      if r.None? then b' == b
      else
        ns != [] && ns[0] < |sent| && b'.queue == b.queue && r.value == (b.queue[0], Lost(taken, ns[0]))
        && b.queue[0].payload == sent[ns[0]] && Tracks(Release(b'), sent, base, ns[1..], ns[0] + 1, taken + [ns[0]])
  {
    var (b', r) := NextCompleted(b, now, threshold);
    if r.Some? {
      SameNumber(base + e, base + ns[0]);
      ReleaseTracks(b, b', sent, base, ns, e, taken);
    }
  }

  lemma {:induction false} SameNumber(e: nat, n: nat)
    requires e <= n < e + WINDOW
    ensures e % U16_MODULUS == n % U16_MODULUS <==> e == n
  {
  }

  lemma {:induction false} NextNumber(n: nat)
    ensures (n % U16_MODULUS + 1) % U16_MODULUS == (n + 1) % U16_MODULUS
  {
  }

  lemma {:induction false} ReleaseTracks(b: Buffer, b': Buffer, sent: seq<Bytes>, base: nat, ns: seq<nat>, e: nat, taken: seq<nat>)
    requires Tracks(b, sent, base, ns, e, taken) && ns != []
    requires b' == b.(nextExpected := (base + ns[0]) % U16_MODULUS)
    ensures Tracks(Release(b'), sent, base, ns[1..], ns[0] + 1, taken + [ns[0]])
  {
    NextNumber(base + ns[0]);
  }

  // ---------- Whole sessions ----------

  /** doGetNextFrame1: packets are taken until one completes a frame, or none can be taken yet. */
  function NextFrame(c: Codec, b: Buffer, k: Collector, now: int, threshold: nat, limit: nat): (r: (Buffer, Collector, Option<Bytes>))
    ensures |r.0.queue| <= |b.queue| && (r.2.Some? ==> |r.0.queue| < |b.queue|)
    decreases |b.queue|
  {
    var (b', r) := NextCompleted(b, now, threshold);
    if r.None? then (b', k, None)
    else
      var (k', f) := Feed(c, k, r.value.0.payload, r.value.1, limit);
      if f.Some? then (Release(b'), k', f) else NextFrame(c, Release(b'), k', now, threshold, limit)
  }

  /** A client that keeps asking for frames, until it has to wait for more packets. */
  function AllFrames(c: Codec, b: Buffer, k: Collector, now: int, threshold: nat, limit: nat): (Buffer, Collector, seq<Bytes>)
    decreases |b.queue|
  {
    var (b', k', f) := NextFrame(c, b, k, now, threshold, limit);
    if f.None? then (b', k', [])
    else
      var (b'', k'', fs) := AllFrames(c, b', k', now, threshold, limit);
      (b'', k'', [f.value] + fs)
  }

  /** The packet with number `number` of those sent arrives. */
  datatype Arrival = Arrival(number: nat, now: int)

  function PacketOf(sent: seq<Bytes>, base: nat, a: Arrival): Packet
    requires a.number < |sent|
  {
    Packet((base + a.number) % U16_MODULUS, sent[a.number], false, a.now)
  }

  function Session(c: Codec, b: Buffer, k: Collector, sent: seq<Bytes>, base: nat, arrivals: seq<Arrival>, threshold: nat, limit: nat): seq<Bytes>
    requires forall i :: 0 <= i < |arrivals| ==> arrivals[i].number < |sent|
    decreases |arrivals|
  {
    if arrivals == [] then []
    else
      var b1 := Store(b, PacketOf(sent, base, arrivals[0])).0;
      var (b2, k2, fs) := AllFrames(c, b1, k, arrivals[0].now, threshold, limit);
      fs + Session(c, b2, k2, sent, base, arrivals[1..], threshold, limit)
  }

  // ---------- The true numbers in a session ----------

  /** The numbers of the packets waiting, of the one expected next, and of those taken. */
  datatype Numbers = Numbers(waiting: seq<nat>, expected: nat, taken: seq<nat>)

  function NumbersStored(b: Buffer, x: Numbers, p: Packet, n: nat): Numbers {
    Numbers(if Store(b, p).1 then Inserted(x.waiting, n) else x.waiting, if b.haveSeenFirst then x.expected else n, x.taken)
  }

  function NumbersTaken(x: Numbers): Numbers {
    if x.waiting == [] then x else Numbers(x.waiting[1..], x.waiting[0] + 1, x.taken + [x.waiting[0]])
  }

  function NumbersNext(c: Codec, b: Buffer, k: Collector, x: Numbers, now: int, threshold: nat, limit: nat): Numbers
    decreases |b.queue|
  {
    var (b', r) := NextCompleted(b, now, threshold);
    if r.None? then x
    else
      var (k', f) := Feed(c, k, r.value.0.payload, r.value.1, limit);
      if f.Some? then NumbersTaken(x) else NumbersNext(c, Release(b'), k', NumbersTaken(x), now, threshold, limit)
  }

  function NumbersAll(c: Codec, b: Buffer, k: Collector, x: Numbers, now: int, threshold: nat, limit: nat): Numbers
    decreases |b.queue|
  {
    var (b', k', f) := NextFrame(c, b, k, now, threshold, limit);
    var y := NumbersNext(c, b, k, x, now, threshold, limit);
    if f.None? then y else NumbersAll(c, b', k', y, now, threshold, limit)
  }

  /** The numbers at the end of a session. */
  function NumbersAfter(c: Codec, b: Buffer, k: Collector, x: Numbers, sent: seq<Bytes>, base: nat, arrivals: seq<Arrival>, threshold: nat,
                        limit: nat): Numbers
    requires forall i :: 0 <= i < |arrivals| ==> arrivals[i].number < |sent|
    decreases |arrivals|
  {
    if arrivals == [] then x
    else
      var p := PacketOf(sent, base, arrivals[0]);
      var b1, x1 := Store(b, p).0, NumbersStored(b, x, p, arrivals[0].number);
      var (b2, k2, _) := AllFrames(c, b1, k, arrivals[0].now, threshold, limit);
      NumbersAfter(c, b2, k2, NumbersAll(c, b1, k, x1, arrivals[0].now, threshold, limit), sent, base, arrivals[1..], threshold, limit)
  }

  /** Every packet arrives less than 2^15 away from the one expected at that time. */
  predicate NearThroughout(c: Codec, b: Buffer, k: Collector, x: Numbers, sent: seq<Bytes>, base: nat, arrivals: seq<Arrival>, threshold: nat,
                           limit: nat)
    requires forall i :: 0 <= i < |arrivals| ==> arrivals[i].number < |sent|
    decreases |arrivals|
  {
    arrivals == [] ||
    (Near(b, x.expected, arrivals[0].number) &&
     var p := PacketOf(sent, base, arrivals[0]);
     var b1, x1 := Store(b, p).0, NumbersStored(b, x, p, arrivals[0].number);
     var (b2, k2, _) := AllFrames(c, b1, k, arrivals[0].now, threshold, limit);
     NearThroughout(c, b2, k2, NumbersAll(c, b1, k, x1, arrivals[0].now, threshold, limit), sent, base, arrivals[1..], threshold, limit))
  }

  /** What has been taken so far has been fed, and nothing else. */
  ghost predicate Fed(c: Codec, b: Buffer, k: Collector, sent: seq<Bytes>, base: nat, x: Numbers, frames: seq<Bytes>, limit: nat) {
    Tracks(b, sent, base, x.waiting, x.expected, x.taken) && TakenInRange(sent, x.taken) && CollectTaken(c, sent, x.taken, limit) == (k, frames)
  }

  ghost predicate TakenInRange(sent: seq<Bytes>, taken: seq<nat>) {
    forall i :: 0 <= i < |taken| ==> taken[i] < |sent|
  }

  function Frames(f: Option<Bytes>): seq<Bytes> {
    if f.Some? then [f.value] else []
  }

  /** One packet more. */
  lemma {:induction false} FedTake(c: Codec, b: Buffer, k: Collector, sent: seq<Bytes>, base: nat, x: Numbers, frames: seq<Bytes>,
                                   now: int, threshold: nat, limit: nat)
    requires Fed(c, b, k, sent, base, x, frames, limit) && NextCompleted(b, now, threshold).1.Some?
    ensures var (b', r) := NextCompleted(b, now, threshold);
      var (k', f) := Feed(c, k, r.value.0.payload, r.value.1, limit);
      b'.queue != [] && Fed(c, Release(b'), k', sent, base, NumbersTaken(x), frames + Frames(f), limit)
  {
    hide Tracks, Feed, CollectTaken, Release;
    TakeTracks(b, sent, base, x.waiting, x.expected, x.taken, now, threshold);
    var more := x.taken + [x.waiting[0]];
    assert more[..|more| - 1] == x.taken;
    TakenStep(c, sent, more, limit);
  }

  lemma {:induction false} FedNext(c: Codec, b: Buffer, k: Collector, sent: seq<Bytes>, base: nat, x: Numbers, frames: seq<Bytes>,
                                   now: int, threshold: nat, limit: nat)
    requires Fed(c, b, k, sent, base, x, frames, limit)
    ensures var (b', k', f) := NextFrame(c, b, k, now, threshold, limit);
      Fed(c, b', k', sent, base, NumbersNext(c, b, k, x, now, threshold, limit), frames + Frames(f), limit)
    decreases |b.queue|
  {
    hide Fed, Feed, NumbersTaken;
    var (b', r) := NextCompleted(b, now, threshold);
    assert frames + [] == frames;
    if r.Some? {
      FedTake(c, b, k, sent, base, x, frames, now, threshold, limit);
      var (k', f) := Feed(c, k, r.value.0.payload, r.value.1, limit);
      if f.None? { FedNext(c, Release(b'), k', sent, base, NumbersTaken(x), frames, now, threshold, limit); }
    }
  }

  lemma {:induction false} FedAll(c: Codec, b: Buffer, k: Collector, sent: seq<Bytes>, base: nat, x: Numbers, frames: seq<Bytes>,
                                  now: int, threshold: nat, limit: nat)
    requires Fed(c, b, k, sent, base, x, frames, limit)
    ensures var (b', k', fs) := AllFrames(c, b, k, now, threshold, limit);
      Fed(c, b', k', sent, base, NumbersAll(c, b, k, x, now, threshold, limit), frames + fs, limit)
    decreases |b.queue|
  {
    hide Fed, NextFrame, NumbersNext;
    var (b', k', f) := NextFrame(c, b, k, now, threshold, limit);
    FedNext(c, b, k, sent, base, x, frames, now, threshold, limit);
    if f.Some? {
      var y := NumbersNext(c, b, k, x, now, threshold, limit);
      FedAll(c, b', k', sent, base, y, frames + [f.value], now, threshold, limit);
      var fs := AllFrames(c, b', k', now, threshold, limit).2;
      assert frames + ([f.value] + fs) == (frames + [f.value]) + fs;
    }
  }

  lemma {:induction false} FedSession(c: Codec, b: Buffer, k: Collector, sent: seq<Bytes>, base: nat, x: Numbers, frames: seq<Bytes>,
                                      arrivals: seq<Arrival>, threshold: nat, limit: nat)
    requires Fed(c, b, k, sent, base, x, frames, limit) && forall i :: 0 <= i < |arrivals| ==> arrivals[i].number < |sent|
    requires NearThroughout(c, b, k, x, sent, base, arrivals, threshold, limit)
    ensures var y, fs := NumbersAfter(c, b, k, x, sent, base, arrivals, threshold, limit), Session(c, b, k, sent, base, arrivals, threshold, limit);
      Increasing(y.taken) && TakenInRange(sent, y.taken) && CollectTaken(c, sent, y.taken, limit).1 == frames + fs
    decreases |arrivals|
  {
    hide Tracks, CollectTaken, AllFrames, NumbersAll, Store, Near;
    if arrivals == [] {
      TracksIncreasing(b, sent, base, x);
      assert frames + [] == frames;
    } else {
      var a := arrivals[0];
      var p := PacketOf(sent, base, a);
      StoreTracks(b, sent, base, x.waiting, x.expected, x.taken, p, a.number);
      var b1, x1 := Store(b, p).0, NumbersStored(b, x, p, a.number);
      FedAll(c, b1, k, sent, base, x1, frames, a.now, threshold, limit);
      var (b2, k2, fs) := AllFrames(c, b1, k, a.now, threshold, limit);
      var x2 := NumbersAll(c, b1, k, x1, a.now, threshold, limit);
      FedSession(c, b2, k2, sent, base, x2, frames + fs, arrivals[1..], threshold, limit);
      var more := Session(c, b2, k2, sent, base, arrivals[1..], threshold, limit);
      assert frames + (fs + more) == (frames + fs) + more;
    }
  }

  lemma {:induction false} TracksIncreasing(b: Buffer, sent: seq<Bytes>, base: nat, x: Numbers)
    requires Tracks(b, sent, base, x.waiting, x.expected, x.taken)
    ensures Increasing(x.taken)
  {
  }

  function Idle(): Buffer {
    Buffer([], false, 0)
  }

  /** In any session, whatever packets are lost, doubled, late or out of order, the frames given out are the units of which
      all packets were taken, each intact and in order. */
  lemma {:induction false} SessionGivesIntactUnits(c: Codec, nals: seq<Bytes>, m: nat, base: nat, arrivals: seq<Arrival>, threshold: nat, limit: nat)
    requires m >= MinLimit(c) && AllSendable(c, nals, m, limit)
    requires forall i :: 0 <= i < |arrivals| ==> arrivals[i].number < |Stream(c, nals, m)|
    requires NearThroughout(c, Idle(), Collector([], false), Numbers([], 0, []), Stream(c, nals, m), base, arrivals, threshold, limit)
    ensures var sent := Stream(c, nals, m);
      var taken := NumbersAfter(c, Idle(), Collector([], false), Numbers([], 0, []), sent, base, arrivals, threshold, limit).taken;
      Session(c, Idle(), Collector([], false), sent, base, arrivals, threshold, limit) == Intact(c, nals, m, Mask(|sent|, taken))
  {
    hide Session, NumbersAfter, CollectTaken, Stream, Intact, Mask, NearThroughout;
    var sent := Stream(c, nals, m);
    var k, x := Collector([], false), Numbers([], 0, []);
    NothingTaken(c, sent, limit);
    FedSession(c, Idle(), k, sent, base, x, [], arrivals, threshold, limit);
    var y := NumbersAfter(c, Idle(), k, x, sent, base, arrivals, threshold, limit);
    TakenUnitsIntact(c, nals, m, y.taken, limit);
    var fs := Session(c, Idle(), k, sent, base, arrivals, threshold, limit);
    assert [] + fs == fs;
  }

  // ---------- Sessions without loss ----------

  function Upto(i: nat): (r: seq<nat>)
    ensures |r| == i && forall j :: 0 <= j < i ==> r[j] == j
  {
    seq(i, j requires 0 <= j < i => j)
  }

  /** Before the packet with number `i` arrives, when all before it have arrived in order. */
  predicate UpToDate(b: Buffer, x: Numbers, base: nat, i: nat) {
    b == (if i == 0 then Idle() else Buffer([], true, (base + i) % U16_MODULUS)) && x == Numbers([], i, Upto(i))
  }

  lemma {:induction false} TakenAtOnce(c: Codec, b: Buffer, k: Collector, x: Numbers, base: nat, i: nat, p: Packet, now: int, threshold: nat, limit: nat)
    requires UpToDate(b, x, base, i) && p.seqNo == (base + i) % U16_MODULUS && !p.isFirst
    ensures var b1, x1 := Store(b, p).0, NumbersStored(b, x, p, i);
      UpToDate(AllFrames(c, b1, k, now, threshold, limit).0, NumbersAll(c, b1, k, x1, now, threshold, limit), base, i + 1)
  {
    hide Feed;
    var b1, x1 := Store(b, p).0, NumbersStored(b, x, p, i);
    assert Inserted([], i) == [i];
    assert b1 == Buffer([if i == 0 then p.(isFirst := true) else p], true, (base + i) % U16_MODULUS);
    NextNumber(base + i);
    var b2 := Buffer([], true, (base + (i + 1)) % U16_MODULUS);
    assert Release(b1) == b2;
    var x2 := Numbers([], i + 1, Upto(i) + [i]);
    assert Upto(i) + [i] == Upto(i + 1);
    assert NumbersTaken(x1) == x2;
    EmptyQueue(c, b2, Feed(c, k, b1.queue[0].payload, b1.queue[0].isFirst, limit).0, x2, now, threshold, limit);
  }

  lemma {:induction false} EmptyQueue(c: Codec, b: Buffer, k: Collector, x: Numbers, now: int, threshold: nat, limit: nat)
    requires b.queue == []
    ensures NextFrame(c, b, k, now, threshold, limit) == (b, k, None) && NumbersNext(c, b, k, x, now, threshold, limit) == x
    ensures AllFrames(c, b, k, now, threshold, limit) == (b, k, []) && NumbersAll(c, b, k, x, now, threshold, limit) == x
  {
  }

  lemma {:induction false} InOrderFrom(c: Codec, b: Buffer, k: Collector, x: Numbers, sent: seq<Bytes>, base: nat, i: nat, arrivals: seq<Arrival>,
                                       threshold: nat, limit: nat)
    requires UpToDate(b, x, base, i) && i + |arrivals| == |sent|
    requires forall j :: 0 <= j < |arrivals| ==> arrivals[j].number == i + j
    ensures NearThroughout(c, b, k, x, sent, base, arrivals, threshold, limit)
    ensures NumbersAfter(c, b, k, x, sent, base, arrivals, threshold, limit).taken == Upto(|sent|)
    decreases |arrivals|
  {
    hide AllFrames, NumbersAll, Store, NumbersStored;
    if arrivals != [] {
      var p := PacketOf(sent, base, arrivals[0]);
      TakenAtOnce(c, b, k, x, base, i, p, arrivals[0].now, threshold, limit);
      var b1, x1 := Store(b, p).0, NumbersStored(b, x, p, i);
      var (b2, k2, _) := AllFrames(c, b1, k, arrivals[0].now, threshold, limit);
      InOrderFrom(c, b2, k2, NumbersAll(c, b1, k, x1, arrivals[0].now, threshold, limit), sent, base, i + 1, arrivals[1..], threshold, limit);
    }
  }

  lemma {:induction false} AllIntact(c: Codec, nals: seq<Bytes>, m: nat, mask: seq<bool>)
    requires m >= MinLimit(c) && |mask| == |Stream(c, nals, m)| && All(mask)
    ensures Intact(c, nals, m, mask) == nals
    decreases |nals|
  {
    hide Packets;
    if nals != [] {
      var n := |Packets(c, nals[0], 1, m)|;
      AllIntact(c, nals[1..], m, mask[n..]);
    }
  }

  /** When every packet arrives, in order, every unit is given out. */
  lemma {:induction false} InOrderSessionGivesAll(c: Codec, nals: seq<Bytes>, m: nat, base: nat, arrivals: seq<Arrival>, threshold: nat, limit: nat)
    requires m >= MinLimit(c) && AllSendable(c, nals, m, limit)
    requires |arrivals| == |Stream(c, nals, m)| && forall i :: 0 <= i < |arrivals| ==> arrivals[i].number == i
    ensures Session(c, Idle(), Collector([], false), Stream(c, nals, m), base, arrivals, threshold, limit) == nals
  {
    hide Session, NumbersAfter, Stream, Intact, NearThroughout, Mask, Idle;
    var sent := Stream(c, nals, m);
    IdleUpToDate(base);
    InOrderFrom(c, Idle(), Collector([], false), Numbers([], 0, []), sent, base, 0, arrivals, threshold, limit);
    SessionGivesIntactUnits(c, nals, m, base, arrivals, threshold, limit);
    FullMask(|sent|);
    AllIntact(c, nals, m, Mask(|sent|, Upto(|sent|)));
  }

  lemma {:induction false} IdleUpToDate(base: nat)
    ensures UpToDate(Idle(), Numbers([], 0, []), base, 0)
  {
  }

  lemma {:induction false} FullMask(n: nat)
    ensures All(Mask(n, Upto(n)))
  {
    forall i | 0 <= i < n
      ensures i in Upto(n)
    {
      assert Upto(n)[i] == i;
    }
  }
}
