/** De-interleaving AMR frames, as a value: two banks of bins, one being filled and one being emptied. */
module AmrBins {
  import opened SequenceNumbers
  import opened Options

  const AMR_MAX_FRAME_SIZE := 60
  const NO_DATA_HEADER: bv8 := 0x78
  const US_PER_FRAME := 20000
  const MILLION := 1000000
  const U8_MODULUS := 0x100

  type Bytes = seq<bv8>

  datatype Time = Time(sec: int, usec: nat)

  /** A bin; it is empty if its data is. */
  datatype Bin = Bin(data: Bytes, header: bv8, time: Time, synced: bool)

  /** A frame as the source delivers it. Its frame index has been incremented already. */
  datatype Frame = Frame(ill: nat, ilp: nat, frameIndex: nat, toc: Bytes, seqNum: nat, data: Bytes, time: Time, synced: bool)

  datatype Output = Output(data: Bytes, numTruncatedBytes: nat, header: bv8, time: Time, synced: bool)

  datatype Buffer = Buffer(incoming: seq<Bin>, outgoing: seq<Bin>, incomingMax: nat, outgoingMax: nat, nextOutgoing: nat,
                           haveSeenPackets: bool, lastSeqNum: nat, syncedRun: nat, ill: nat, lastTime: Time)

  /** The sanity check of deliverIncomingFrame; a frame that fails it is an internal error. */
  predicate Sane(f: Frame) {
    f.ilp <= f.ill && f.frameIndex > 0
  }

  function FrameBlock(f: Frame, channels: nat): nat
    requires Sane(f) && channels > 0
  {
    (f.frameIndex - 1) / channels
  }

  function HeaderOf(f: Frame): bv8
    requires Sane(f)
  {
    if f.frameIndex - 1 >= |f.toc| then NO_DATA_HEADER else f.toc[f.frameIndex - 1]
  }

  function TimeOf(f: Frame, channels: nat): Time
    requires Sane(f) && channels > 0
  {
    var usec := f.time.usec + FrameBlock(f, channels) * (f.ill + 1) * US_PER_FRAME;
    Time(f.time.sec + usec / MILLION, usec % MILLION)
  }

  /** The frame belongs to a later interleave group than the one being filled. */
  function StartsGroup(b: Buffer, f: Frame, channels: nat): bool
    requires Sane(f) && channels > 0
  {
    !b.haveSeenPackets || SeqNumLT(b.lastSeqNum, (f.seqNum + FrameBlock(f, channels)) % U16_MODULUS)
  }

  function BinOf(f: Frame, channels: nat, groupSize: nat): (bin: nat)
    requires Sane(f) && channels > 0 && groupSize > 0
    ensures bin < groupSize
  {
    ((f.ilp + FrameBlock(f, channels) * (f.ill + 1)) * channels + (f.frameIndex - 1) % channels) % groupSize
  }

  /** The banks change places. */
  function Switched(b: Buffer, f: Frame): Buffer
    requires Sane(f)
  {
    b.(incoming := b.outgoing, outgoing := b.incoming, incomingMax := b.outgoingMax, outgoingMax := b.incomingMax,
       nextOutgoing := 0, haveSeenPackets := true, lastSeqNum := (f.seqNum + f.ill - f.ilp) % U16_MODULUS)
  }

  /** deliverIncomingFrame */
  function Deliver(b: Buffer, f: Frame, channels: nat): Buffer
    requires Sane(f) && channels > 0 && |b.incoming| == |b.outgoing| > 0
  {
    var c := if StartsGroup(b, f, channels) then Switched(b, f) else b;
    var bin := BinOf(f, channels, |b.incoming|);
    c.(ill := f.ill,
       incoming := c.incoming[bin := Bin(f.data, HeaderOf(f), TimeOf(f, channels), f.synced)],
       incomingMax := if bin >= c.incomingMax then (bin + 1) % U8_MODULUS else c.incomingMax)
  }

  function After(t: Time): Time {
    if t.usec + US_PER_FRAME >= MILLION then Time(t.sec + 1, t.usec + US_PER_FRAME - MILLION) else Time(t.sec, t.usec + US_PER_FRAME)
  }

  /** The run of synchronized frames after the next frame is taken, and whether that frame counts as synchronized. */
  function NextSynced(syncedRun: nat, ill: nat, synced: bool): (nat, bool) {
    if !synced then (0, false)
    else if syncedRun + 1 > ill then (ill + 1, true)
    else (syncedRun + 1, false)
  }

  predicate Drained(b: Buffer) {
    b.nextOutgoing >= b.outgoingMax
  }

  /** retrieveFrame, when there is a bin left to take. */
  function Retrieve(b: Buffer, maxSize: nat): (Buffer, Output)
    requires b.nextOutgoing < b.outgoingMax <= |b.outgoing|
  {
    var bin := b.outgoing[b.nextOutgoing];
    var (run, synced) := NextSynced(b.syncedRun, b.ill, bin.synced);
    var header := if bin.data == [] then NO_DATA_HEADER else bin.header;
    var time := if bin.data == [] then After(b.lastTime) else bin.time;
    var size := if |bin.data| > maxSize then maxSize else |bin.data|;
    (b.(outgoing := b.outgoing[b.nextOutgoing := bin.(data := [])], nextOutgoing := b.nextOutgoing + 1, syncedRun := run, lastTime := time),
     Output(bin.data[..size], |bin.data| - size, header, time, synced))
  }

  /** retrieveFrame; it reports failure when no bin is left. */
  function RetrieveAny(b: Buffer, maxSize: nat): (Buffer, Option<Output>) {
    if b.nextOutgoing < b.outgoingMax <= |b.outgoing| then
      var (c, o) := Retrieve(b, maxSize); (c, Some(o))
    else (b, None)
  }

  /** A client that keeps asking: every bin left is taken before the next frame is read. */
  function Drain(b: Buffer, maxSize: nat): (r: (Buffer, seq<Output>))
    requires b.outgoingMax <= |b.outgoing|
    decreases b.outgoingMax - b.nextOutgoing
  {
    if Drained(b) then (b, [])
    else
      var (c, o) := Retrieve(b, maxSize);
      var (d, os) := Drain(c, maxSize);
      (d, [o] + os)
  }

  /** The bins are as many as declared, and the counters, which are octets, count bins. */
  ghost predicate Shaped(b: Buffer, groupSize: nat) {
    && |b.incoming| == |b.outgoing| == groupSize > 0
    && b.incomingMax <= groupSize && b.outgoingMax <= groupSize
    && b.incomingMax < U8_MODULUS && b.outgoingMax < U8_MODULUS
  }

  /** A bin that is out of use is empty. */
  ghost predicate Tidy(b: Buffer, groupSize: nat) {
    && Shaped(b, groupSize)
    && (forall i :: b.incomingMax <= i < groupSize ==> b.incoming[i].data == [])
    && (forall i :: 0 <= i < groupSize && (i < b.nextOutgoing || i >= b.outgoingMax) ==> b.outgoing[i].data == [])
  }

  predicate Empty(bins: seq<Bin>) {
    forall i :: 0 <= i < |bins| ==> bins[i].data == []
  }

  lemma {:induction false} DeliverShaped(b: Buffer, f: Frame, channels: nat, groupSize: nat)
    requires Shaped(b, groupSize) && Sane(f) && channels > 0
    ensures Shaped(Deliver(b, f, channels), groupSize)
  {
    hide StartsGroup, HeaderOf, TimeOf, FrameBlock, BinOf;
    NextCount(BinOf(f, channels, groupSize));
  }

  /** The next value of an octet that counts bins. */
  lemma {:induction false} NextCount(bin: nat)
    ensures (bin + 1) % U8_MODULUS < U8_MODULUS && (bin + 1) % U8_MODULUS <= bin + 1
    ensures (bin + 1) % U8_MODULUS == bin + 1 <==> bin < U8_MODULUS - 1
  {
  }

  /** Bins out of use stay empty exactly while no frame goes to a bin that its counter cannot count. */
  lemma {:induction false} DeliverTidyIff(b: Buffer, f: Frame, channels: nat, groupSize: nat)
    requires Tidy(b, groupSize) && Drained(b) && Sane(f) && channels > 0 && f.data != []
    ensures Tidy(Deliver(b, f, channels), groupSize) <==> BinOf(f, channels, groupSize) < U8_MODULUS - 1
  {
    hide StartsGroup, HeaderOf, TimeOf, FrameBlock, BinOf;
    var bin, c := BinOf(f, channels, groupSize), Deliver(b, f, channels);
    NextCount(bin);
    assert c.incoming[bin].data == f.data;
  }

  /** What the client sees of a frame given out: an erasure, or the data with its header and presentation time. */
  datatype Sight = Erasure(header: bv8) | Speech(data: Bytes, header: bv8, time: Time)

  /** What is given out for the bins from `next` on. */
  function Given(bins: seq<Bin>, next: nat, max: nat): (r: seq<Sight>)
    requires max <= |bins|
    ensures |r| == if next < max then max - next else 0
    ensures forall i :: 0 <= i < |r| ==> r[i] == GivenFor(bins[next + i])
    decreases max - next
  {
    if next >= max then [] else [GivenFor(bins[next])] + Given(bins, next + 1, max)
  }

  function GivenFor(bin: Bin): Sight {
    if bin.data == [] then Erasure(NO_DATA_HEADER) else Speech(bin.data, bin.header, bin.time)
  }

  function Sees(o: Output): Sight {
    if o.data == [] then Erasure(o.header) else Speech(o.data, o.header, o.time)
  }

  function Shown(os: seq<Output>): (r: seq<Sight>)
    ensures |r| == |os|
    ensures forall i :: 0 <= i < |os| ==> r[i] == Sees(os[i])
  {
    seq(|os|, i requires 0 <= i < |os| => Sees(os[i]))
  }

  predicate Fits(bins: seq<Bin>) {
    forall i :: 0 <= i < |bins| ==> |bins[i].data| <= AMR_MAX_FRAME_SIZE
  }

  /** Draining gives out the bins that are left in order, and leaves these, and only these, empty. */
  lemma {:induction false} DrainGives(b: Buffer, maxSize: nat)
    requires b.outgoingMax <= |b.outgoing| && Fits(b.outgoing) && maxSize >= AMR_MAX_FRAME_SIZE
    ensures var (c, os) := Drain(b, maxSize);
      && Shown(os) == Given(b.outgoing, b.nextOutgoing, b.outgoingMax)
      && Drained(c) && Fits(c.outgoing) && |c.outgoing| == |b.outgoing|
      && (c.incoming, c.incomingMax, c.outgoingMax) == (b.incoming, b.incomingMax, b.outgoingMax)
      && (c.haveSeenPackets, c.lastSeqNum) == (b.haveSeenPackets, b.lastSeqNum)
      && (forall i :: b.nextOutgoing <= i < b.outgoingMax ==> c.outgoing[i].data == [])
      && (forall i :: 0 <= i < |b.outgoing| && (i < b.nextOutgoing || b.outgoingMax <= i) ==> c.outgoing[i] == b.outgoing[i])
    decreases b.outgoingMax - b.nextOutgoing
  {
    hide Given, NextSynced;
    if !Drained(b) {
      var (c, o) := Retrieve(b, maxSize);
      var bin := b.outgoing[b.nextOutgoing];
      assert bin.data[..|bin.data|] == bin.data;
      assert Sees(o) == GivenFor(bin);
      DrainGives(c, maxSize);
      GivenStep(b.outgoing, c.outgoing, b.nextOutgoing, b.outgoingMax);
      ShownStep(o, Drain(c, maxSize).1);
    } else {
      GivenEnd(b.outgoing, b.nextOutgoing, b.outgoingMax);
    }
  }

  /** A tidy buffer is tidy once it has been drained, and all of its outgoing bank is empty. */
  lemma {:induction false} DrainTidy(b: Buffer, groupSize: nat, maxSize: nat)
    requires Tidy(b, groupSize) && Fits(b.outgoing) && maxSize >= AMR_MAX_FRAME_SIZE
    ensures Tidy(Drain(b, maxSize).0, groupSize) && Empty(Drain(b, maxSize).0.outgoing)
  {
    hide Drain;
    DrainGives(b, maxSize);
  }

  lemma {:induction false} ShownStep(o: Output, os: seq<Output>)
    ensures Shown([o] + os) == [Sees(o)] + Shown(os)
  {
  }

  lemma {:induction false} GivenEnd(bins: seq<Bin>, next: nat, max: nat)
    requires next >= max && max <= |bins|
    ensures Given(bins, next, max) == []
  {
  }

  lemma {:induction false} GivenStep(bins: seq<Bin>, after: seq<Bin>, next: nat, max: nat)
    requires next < max <= |bins| == |after| && forall i :: next < i < |bins| ==> after[i] == bins[i]
    ensures Given(bins, next, max) == [GivenFor(bins[next])] + Given(after, next + 1, max)
  {
    hide Given;
    var g, h := Given(bins, next, max), Given(after, next + 1, max);
    assert |g| == |h| + 1;
    forall i | 0 <= i < |g|
      ensures g[i] == ([GivenFor(bins[next])] + h)[i]
    {
      if i > 0 { assert h[i - 1] == GivenFor(after[next + 1 + (i - 1)]); }
    }
  }

  // ---------- Presentation times and truncation ----------

  function Microseconds(t: Time): int {
    t.sec * 1_000_000 + t.usec
  }

  /** The frames of the k-th frame-block of a packet are k * (ILL + 1) frames of 20 ms later than its first. */
  lemma {:induction false} TimeOfFrame(f: Frame, channels: nat)
    requires Sane(f) && channels > 0
    ensures Microseconds(TimeOf(f, channels)) == Microseconds(f.time) + (f.frameIndex - 1) / channels * (f.ill + 1) * 20_000
    ensures TimeOf(f, channels).usec < 1_000_000
  {
    hide FrameBlock;
    assert FrameBlock(f, channels) == (f.frameIndex - 1) / channels by { BlockIs(f, channels); }
    var usec := f.time.usec + FrameBlock(f, channels) * (f.ill + 1) * US_PER_FRAME;
    assert usec == usec / MILLION * MILLION + usec % MILLION;
  }

  lemma {:induction false} BlockIs(f: Frame, channels: nat)
    requires Sane(f) && channels > 0
    ensures FrameBlock(f, channels) == (f.frameIndex - 1) / channels
  {
  }

  lemma {:induction false} AfterIsNextFrame(t: Time)
    ensures Microseconds(After(t)) == Microseconds(t) + 20_000
    ensures t.usec < 1_000_000 ==> After(t).usec < 1_000_000
  {
  }

  /** What is given out for a bin after an output at time `before`. */
  predicate GivesOut(o: Output, bin: Bin, maxSize: nat, before: Time) {
    && o.data == bin.data[..Least(|bin.data|, maxSize)] && o.numTruncatedBytes == |bin.data| - |o.data|
    && o.time == if bin.data == [] then After(before) else bin.time
  }

  /** The presentation time of the output before the i-th; before the first stands `first`. */
  function TimeBefore(os: seq<Output>, i: nat, first: Time): Time
    requires i <= |os|
  {
    if i == 0 then first else os[i - 1].time
  }

  lemma {:induction false} RetrieveGives(b: Buffer, maxSize: nat)
    requires b.nextOutgoing < b.outgoingMax <= |b.outgoing|
    ensures var (c, o) := Retrieve(b, maxSize);
      && GivesOut(o, b.outgoing[b.nextOutgoing], maxSize, b.lastTime) && c.lastTime == o.time
      && c.nextOutgoing == b.nextOutgoing + 1 && c.outgoingMax == b.outgoingMax && |c.outgoing| == |b.outgoing|
      && forall i :: b.nextOutgoing < i < |b.outgoing| ==> c.outgoing[i] == b.outgoing[i]
  {
    hide NextSynced, After;
  }

  /** Every output has what fits of its bin's data, with the rest counted; an erasure is timed 20 ms after the output before it. */
  lemma {:induction false} DrainTimes(b: Buffer, maxSize: nat)
    requires b.outgoingMax <= |b.outgoing|
    ensures var os := Drain(b, maxSize).1;
      && |os| == (if Drained(b) then 0 else b.outgoingMax - b.nextOutgoing)
      && forall i :: 0 <= i < |os| ==> GivesOut(os[i], b.outgoing[b.nextOutgoing + i], maxSize, TimeBefore(os, i, b.lastTime))
    decreases b.outgoingMax - b.nextOutgoing
  {
    hide GivesOut, Retrieve;
    if !Drained(b) {
      var (c, o) := Retrieve(b, maxSize);
      RetrieveGives(b, maxSize);
      DrainTimes(c, maxSize);
      var os, rest := Drain(b, maxSize).1, Drain(c, maxSize).1;
      assert os == [o] + rest;
      forall i | 0 <= i < |os|
        ensures GivesOut(os[i], b.outgoing[b.nextOutgoing + i], maxSize, TimeBefore(os, i, b.lastTime))
      {
        if i > 0 {
          assert os[i] == rest[i - 1] && b.outgoing[b.nextOutgoing + i] == c.outgoing[c.nextOutgoing + (i - 1)];
          assert TimeBefore(os, i, b.lastTime) == TimeBefore(rest, i - 1, c.lastTime);
        }
      }
    }
  }

  function Least(a: nat, b: nat): nat {
    if a < b then a else b
  }
}
