/** What comes out of the de-interleaver: the frames of each interleave group, in order. */
module AmrTheorems {
  import opened SequenceNumbers
  import opened AmrBins

  /** A stream with one frame-block a packet and a constant interleaving length. */
  datatype Layout = Layout(channels: nat, groupSize: nat, ill: nat)

  predicate Proper(p: Layout) {
    p.channels > 0 && p.ill <= 15 && (p.ill + 1) * p.channels <= p.groupSize
  }

  /** An interleave group: the true sequence number of its first packet, and those of its frames that arrive, in any order. */
  datatype Group = Group(start: nat, frames: seq<Frame>)

  predicate Belongs(f: Frame, start: nat, p: Layout) {
    && f.ill == p.ill && f.ilp <= f.ill && 0 < f.frameIndex <= p.channels
    && 0 < |f.data| <= AMR_MAX_FRAME_SIZE
    && f.seqNum == (start + f.ilp) % U16_MODULUS
  }

  predicate Whole(g: Group, p: Layout) {
    g.frames != [] && forall i :: 0 <= i < |g.frames| ==> Belongs(g.frames[i], g.start, p)
  }

  /** Groups follow one another, with fewer than 2^15 sequence numbers from one to the next. */
  predicate Follows(g: Group, h: Group, p: Layout) {
    g.start + p.ill < h.start < g.start + 0x8000
  }

  predicate Stream(groups: seq<Group>, p: Layout) {
    && (forall i :: 0 <= i < |groups| ==> Whole(groups[i], p))
    && (forall i :: 0 < i < |groups| ==> Follows(groups[i - 1], groups[i], p))
  }

  function Flat(groups: seq<Group>): seq<Frame> {
    if groups == [] then [] else groups[0].frames + Flat(groups[1..])
  }

  // ---------- What is promised ----------

  /** The place of a frame: by ILP, then by channel. */
  function Slot(f: Frame, p: Layout): int {
    f.ilp * p.channels + f.frameIndex - 1
  }

  /** A frame of a packet with one frame-block: its data, the entry of the table of contents for it (or NO_DATA, frame type 15), and
      the time of its packet, with less than a second of microseconds. */
  function Placed(f: Frame): Sight {
    Speech(f.data, if 0 < f.frameIndex <= |f.toc| then f.toc[f.frameIndex - 1] else 15 << 3,
           Time(f.time.sec + f.time.usec / 1_000_000, f.time.usec % 1_000_000))
  }

  /** What is given out in a place of a group: the frame that arrived for it (the last, if there are several), or NO_DATA. */
  function At(frames: seq<Frame>, slot: nat, p: Layout): Sight {
    if frames == [] then Erasure(15 << 3)
    else
      var f := frames[|frames| - 1];
      if Slot(f, p) == slot then Placed(f) else At(frames[..|frames| - 1], slot, p)
  }

  /** The number of places in use, never less than `before`. */
  function High(frames: seq<Frame>, before: nat, p: Layout): nat {
    if frames == [] then before
    else
      var h := High(frames[..|frames| - 1], before, p);
      var slot := Slot(frames[|frames| - 1], p);
      if slot >= h then slot + 1 else h
  }

  /** The counter of a bank is an octet, so this is what it holds once `frames` have arrived. */
  function Counter(frames: seq<Frame>, before: nat, p: Layout): nat {
    if frames == [] then before
    else
      var c := Counter(frames[..|frames| - 1], before, p);
      var slot := Slot(frames[|frames| - 1], p);
      if slot >= c then (slot + 1) % U8_MODULUS else c
  }

  /** No frame has a place that the counter cannot count. */
  predicate Small(frames: seq<Frame>, p: Layout) {
    forall i :: 0 <= i < |frames| ==> Slot(frames[i], p) < U8_MODULUS - 1
  }

  function GroupGiven(frames: seq<Frame>, high: nat, p: Layout): (r: seq<Sight>) {
    seq(high, slot requires 0 <= slot < high => At(frames, slot, p))
  }

  /** All groups but the last, whose bank is still being filled. A bank is used by every second group, and remembers how
      many places it has ever used. */
  function Expected(groups: seq<Group>, high: nat, otherHigh: nat, p: Layout): seq<Sight> {
    if |groups| <= 1 then []
    else
      var h := High(groups[0].frames, high, p);
      GroupGiven(groups[0].frames, h, p) + Expected(groups[1..], otherHigh, h, p)
  }

  /** Frames are given out by ILP, then by channel. */
  lemma {:induction false} SlotOrder(f: Frame, g: Frame, start: nat, p: Layout)
    requires Proper(p) && Belongs(f, start, p) && Belongs(g, start, p)
    ensures Slot(f, p) < Slot(g, p) <==> f.ilp < g.ilp || (f.ilp == g.ilp && f.frameIndex < g.frameIndex)
  {
    hide Slot;
    SlotBefore(f, g, start, p);
    SlotBefore(g, f, start, p);
  }

  lemma {:induction false} SlotBefore(f: Frame, g: Frame, start: nat, p: Layout)
    requires Proper(p) && Belongs(f, start, p) && Belongs(g, start, p)
    ensures f.ilp < g.ilp ==> Slot(f, p) < Slot(g, p)
    ensures f.ilp == g.ilp ==> Slot(g, p) - Slot(f, p) == g.frameIndex - f.frameIndex
  {
    if f.ilp < g.ilp { Times(f.ilp + 1, g.ilp, p.channels); Times(f.ilp, g.ilp, p.channels); }
  }

  lemma {:induction false} Times(a: nat, b: nat, c: nat)
    requires a <= b
    ensures a * c <= b * c && (a + 1) * c == a * c + c
  {
  }

  /** A frame that arrives is given out in its place, with its header, unless another one arrives later for that place. */
  lemma {:induction false} GivenInPlace(frames: seq<Frame>, i: nat, start: nat, p: Layout)
    requires Proper(p) && i < |frames| && forall j :: 0 <= j < |frames| ==> Belongs(frames[j], start, p)
    requires forall j :: i < j < |frames| ==> Slot(frames[j], p) != Slot(frames[i], p)
    ensures Belongs(frames[i], start, p) && 0 <= Slot(frames[i], p)
    ensures At(frames, Slot(frames[i], p), p) == Placed(frames[i])
    ensures forall before :: Slot(frames[i], p) < High(frames, before, p)
    decreases |frames|
  {
    hide Slot, HeaderOf;
    SlotInRange(frames[i], start, p);
    if i < |frames| - 1 { GivenInPlace(frames[..|frames| - 1], i, start, p); }
  }

  /** A place for which no frame arrives is given out as NO_DATA. */
  lemma {:induction false} MissingInPlace(frames: seq<Frame>, slot: nat, p: Layout)
    requires forall i :: 0 <= i < |frames| ==> Slot(frames[i], p) != slot
    ensures At(frames, slot, p) == Erasure(15 << 3)
    decreases |frames|
  {
    if frames != [] { MissingInPlace(frames[..|frames| - 1], slot, p); }
  }

  // ---------- Bins and sequence numbers ----------

  lemma {:induction false} SlotInRange(f: Frame, start: nat, p: Layout)
    requires Proper(p) && Belongs(f, start, p)
    ensures 0 <= Slot(f, p) < p.groupSize
  {
    Times(f.ilp, f.ilp, p.channels);
    Times(f.ilp + 1, p.ill + 1, p.channels);
  }

  lemma {:induction false} SlotIsBin(f: Frame, start: nat, p: Layout)
    requires Proper(p) && Belongs(f, start, p)
    ensures FrameBlock(f, p.channels) == 0 && BinOf(f, p.channels, p.groupSize) == Slot(f, p)
  {
    SlotInRange(f, start, p);
    SmallQuotient(f.frameIndex - 1, p.channels);
    SmallQuotient(Slot(f, p), p.groupSize);
    assert (f.ilp + 0 * (f.ill + 1)) * p.channels == f.ilp * p.channels;
  }

  lemma {:induction false} SmallQuotient(a: nat, d: nat)
    requires a < d
    ensures a / d == 0 && a % d == a
  {
  }

  /** Within a group no frame seems to start another one. */
  lemma {:induction false} SameGroup(start: nat, ilp: nat, ill: nat)
    requires ilp <= ill <= 15
    ensures !SeqNumLT((start + ill) % U16_MODULUS, (start + ilp) % U16_MODULUS)
  {
  }

  lemma {:induction false} LaterGroup(start: nat, ill: nat, next: nat, ilp: nat)
    requires ilp <= ill <= 15 && start + ill < next < start + 0x8000
    ensures SeqNumLT((start + ill) % U16_MODULUS, (next + ilp) % U16_MODULUS)
  {
  }

  lemma {:induction false} LastOfGroup(start: nat, ilp: nat, ill: nat)
    requires ilp <= ill
    ensures ((start + ilp) % U16_MODULUS + ill - ilp) % U16_MODULUS == (start + ill) % U16_MODULUS
  {
  }

  // ---------- What the counter covers ----------

  predicate AllAtLeastZero(frames: seq<Frame>, p: Layout) {
    forall i :: 0 <= i < |frames| ==> Slot(frames[i], p) >= 0
  }

  lemma {:induction false} BelongToSlots(frames: seq<Frame>, start: nat, p: Layout)
    requires Proper(p) && forall i :: 0 <= i < |frames| ==> Belongs(frames[i], start, p)
    ensures AllAtLeastZero(frames, p)
  {
    hide Slot;
    forall i | 0 <= i < |frames| ensures Slot(frames[i], p) >= 0 {
      SlotInRange(frames[i], start, p);
    }
  }

  /** The counter is right exactly while all places are below 255. */
  lemma {:induction false} CounterIsHighIff(frames: seq<Frame>, before: nat, p: Layout)
    requires before < U8_MODULUS && AllAtLeastZero(frames, p)
    ensures Counter(frames, before, p) < U8_MODULUS
    ensures Counter(frames, before, p) == High(frames, before, p) <==> Small(frames, p)
    ensures Small(frames, p) ==> High(frames, before, p) < U8_MODULUS
    ensures !Small(frames, p) ==> High(frames, before, p) >= U8_MODULUS
    decreases |frames|
  {
    hide Slot;
    if frames != [] {
      var front, f := frames[..|frames| - 1], frames[|frames| - 1];
      CounterIsHighIff(front, before, p);
      NextCount(Slot(f, p));
      SmallStep(front, f, p);
      assert frames == front + [f];
    }
  }

  lemma {:induction false} SmallStep(frames: seq<Frame>, f: Frame, p: Layout)
    ensures Small(frames + [f], p) <==> Small(frames, p) && Slot(f, p) < U8_MODULUS - 1
  {
    hide Slot;
    assert (frames + [f])[|frames|] == f;
    assert forall i :: 0 <= i < |frames| ==> (frames + [f])[i] == frames[i];
  }

  /** Every frame that has arrived is within what the counter covers exactly while all places are below 255. */
  lemma {:induction false} AllCoveredIff(frames: seq<Frame>, before: nat, p: Layout)
    requires before < U8_MODULUS && AllAtLeastZero(frames, p)
    ensures (forall i :: 0 <= i < |frames| ==> Slot(frames[i], p) < Counter(frames, before, p)) <==> Small(frames, p)
  {
    hide Slot;
    CounterIsHighIff(frames, before, p);
    if Small(frames, p) {
      forall i | 0 <= i < |frames| ensures Slot(frames[i], p) < Counter(frames, before, p) { HighCovers(frames, i, before, p); }
    }
  }

  lemma {:induction false} HighCovers(frames: seq<Frame>, i: nat, before: nat, p: Layout)
    requires i < |frames|
    ensures Slot(frames[i], p) < High(frames, before, p)
    decreases |frames|
  {
    hide Slot;
    if i < |frames| - 1 { HighCovers(frames[..|frames| - 1], i, before, p); }
  }

  /** Frame `k` has brought the counter above `slot`, and none after it wraps the counter round. */
  predicate Raises(frames: seq<Frame>, k: nat, slot: nat, p: Layout)
    requires k < |frames| && AllAtLeastZero(frames, p)
  {
    slot < (Slot(frames[k], p) + 1) % U8_MODULUS && Small(frames[k + 1..], p)
  }

  /** Whether a place is given out depends on the frames from the last one on that wraps the counter round: the place must be
      below what some frame leaves in the counter. */
  lemma {:induction false} PlaceCoveredIff(frames: seq<Frame>, before: nat, slot: nat, p: Layout)
    requires before < U8_MODULUS && AllAtLeastZero(frames, p)
    ensures slot < Counter(frames, before, p) <==>
            (slot < before && Small(frames, p)) || exists k :: 0 <= k < |frames| && Raises(frames, k, slot, p)
    decreases |frames|
  {
    hide Slot, Raises;
    if frames != [] {
      var n := |frames| - 1;
      var front, f := frames[..n], frames[n];
      assert frames == front + [f];
      PlaceCoveredIff(front, before, slot, p);
      CounterIsHighIff(front, before, p);
      SmallStep(front, f, p);
      NextCount(Slot(f, p));
      RaisesLast(frames, slot, p);
      forall k | 0 <= k < n
        ensures Raises(frames, k, slot, p) <==> Raises(front, k, slot, p) && Slot(f, p) < U8_MODULUS - 1
      {
        RaisesStep(front, f, k, slot, p);
      }
    }
  }

  lemma {:induction false} RaisesLast(frames: seq<Frame>, slot: nat, p: Layout)
    requires frames != [] && AllAtLeastZero(frames, p)
    ensures Raises(frames, |frames| - 1, slot, p) <==> slot < (Slot(frames[|frames| - 1], p) + 1) % U8_MODULUS
  {
    hide Slot;
    assert frames[|frames|..] == [];
  }

  lemma {:induction false} RaisesStep(front: seq<Frame>, f: Frame, k: nat, slot: nat, p: Layout)
    requires k < |front| && AllAtLeastZero(front + [f], p) && AllAtLeastZero(front, p)
    ensures Raises(front + [f], k, slot, p) <==> Raises(front, k, slot, p) && Slot(f, p) < U8_MODULUS - 1
  {
    hide Slot;
    SmallStep(front[k + 1..], f, p);
    assert (front + [f])[k + 1..] == front[k + 1..] + [f];
    assert (front + [f])[k] == front[k];
  }

  /** A layout with at most 255 places has no others. */
  lemma {:induction false} SmallLayout(frames: seq<Frame>, start: nat, p: Layout)
    requires Proper(p) && (p.ill + 1) * p.channels <= U8_MODULUS - 1
    requires forall i :: 0 <= i < |frames| ==> Belongs(frames[i], start, p)
    ensures Small(frames, p)
  {
    hide Slot;
    forall i | 0 <= i < |frames| ensures Slot(frames[i], p) < U8_MODULUS - 1 {
      SlotInRange(frames[i], start, p.(groupSize := (p.ill + 1) * p.channels));
      SlotIgnoresSize(frames[i], p);
    }
  }

  lemma {:induction false} SlotIgnoresSize(f: Frame, p: Layout)
    ensures Slot(f, p.(groupSize := (p.ill + 1) * p.channels)) == Slot(f, p)
  {
  }

  // ---------- Runs ----------

  predicate Sound(frames: seq<Frame>) {
    forall i :: 0 <= i < |frames| ==> Sane(frames[i]) && |frames[i].data| <= AMR_MAX_FRAME_SIZE
  }

  ghost predicate Ready(b: Buffer, p: Layout) {
    Shaped(b, p.groupSize) && Drained(b) && Fits(b.incoming) && Fits(b.outgoing) && Proper(p)
  }

  /** A client that keeps asking for frames: each frame read is delivered, and then everything that can be is taken. */
  function Run(b: Buffer, frames: seq<Frame>, p: Layout): (r: (Buffer, seq<Output>))
    requires Ready(b, p) && Sound(frames)
    decreases |frames|
  {
    if frames == [] then (b, [])
    else
      assert Sound([frames[0]]);
      var (c, os) := DeliverAndDrain(b, frames[0], p);
      var (d, more) := Run(c, frames[1..], p);
      (d, os + more)
  }

  function DeliverAndDrain(b: Buffer, f: Frame, p: Layout): (r: (Buffer, seq<Output>))
    requires Ready(b, p) && Sound([f])
    ensures Ready(r.0, p)
  {
    assert Sane([f][0]);
    DeliverShaped(b, f, p.channels, p.groupSize);
    DeliverFits(b, f, p.channels);
    var c := Deliver(b, f, p.channels);
    DrainGives(c, AMR_MAX_FRAME_SIZE);
    Drain(c, AMR_MAX_FRAME_SIZE)
  }

  lemma {:induction false} DeliverFits(b: Buffer, f: Frame, channels: nat)
    requires Sane(f) && channels > 0 && |b.incoming| == |b.outgoing| > 0
    requires Fits(b.incoming) && Fits(b.outgoing) && |f.data| <= AMR_MAX_FRAME_SIZE
    ensures Fits(Deliver(b, f, channels).incoming) && Fits(Deliver(b, f, channels).outgoing)
  {
    hide StartsGroup, HeaderOf, TimeOf, FrameBlock, BinOf;
  }

  /** The incoming bank holds `frames`, which all belong to the group at `start`; the outgoing bank has been emptied. */
  ghost predicate Filling(b: Buffer, frames: seq<Frame>, start: nat, before: nat, p: Layout) {
    && Shaped(b, p.groupSize) && Drained(b) && Fits(b.incoming) && Empty(b.outgoing)
    && b.haveSeenPackets && b.lastSeqNum == (start + p.ill) % U16_MODULUS
    && before < U8_MODULUS && b.incomingMax == Counter(frames, before, p)
    && forall i :: 0 <= i < p.groupSize ==> GivenFor(b.incoming[i]) == At(frames, i, p)
  }

  lemma {:induction false} EmptyFits(bins: seq<Bin>)
    requires Empty(bins)
    ensures Fits(bins)
  {
  }

  /** The bin of a frame, with what it is given. */
  function Filled(f: Frame, p: Layout): Bin
    requires Sane(f) && p.channels > 0
  {
    Bin(f.data, HeaderOf(f), TimeOf(f, p.channels), f.synced)
  }

  /** A bin with a frame in it is seen as the frame. */
  lemma {:induction false} FilledIsPlaced(f: Frame, start: nat, p: Layout)
    requires Proper(p) && Belongs(f, start, p)
    ensures GivenFor(Filled(f, p)) == Placed(f) && NO_DATA_HEADER == 15 << 3
  {
    hide FrameBlock;
    SlotIsBin(f, start, p);
    assert FrameBlock(f, p.channels) * (f.ill + 1) * US_PER_FRAME == 0;
  }

  lemma {:induction false} DeliverInside(b: Buffer, f: Frame, frames: seq<Frame>, start: nat, before: nat, p: Layout)
    requires Proper(p) && Filling(b, frames, start, before, p) && Belongs(f, start, p)
    ensures Ready(b, p) && Sound([f])
    ensures Filling(DeliverAndDrain(b, f, p).0, frames + [f], start, before, p)
    ensures DeliverAndDrain(b, f, p).1 == [] && DeliverAndDrain(b, f, p).0.outgoingMax == b.outgoingMax
  {
    hide Slot, HeaderOf, TimeOf, FrameBlock, BinOf, Counter, At, SeqNumLT, Fits, Empty;
    EmptyFits(b.outgoing);
    OneSound(f, start, p);
    SlotIsBin(f, start, p);
    SlotInRange(f, start, p);
    SameGroup(start, f.ilp, p.ill);
    SmallQuotient(f.seqNum, U16_MODULUS);
    assert !StartsGroup(b, f, p.channels);
    var c := Deliver(b, f, p.channels);
    assert c == b.(ill := f.ill, incoming := b.incoming[Slot(f, p) := Filled(f, p)],
                   incomingMax := if Slot(f, p) >= b.incomingMax then (Slot(f, p) + 1) % U8_MODULUS else b.incomingMax);
    DeliverShaped(b, f, p.channels, p.groupSize);
    DeliverFits(b, f, p.channels);
    CounterStep(frames, f, before, p);
    FilledIsPlaced(f, start, p);
    forall i | 0 <= i < p.groupSize
      ensures GivenFor(c.incoming[i]) == At(frames + [f], i, p)
    {
      AtStep(frames, f, i, p);
    }
  }

  lemma {:induction false} OneSound(f: Frame, start: nat, p: Layout)
    requires Belongs(f, start, p)
    ensures Sound([f])
  {
  }

  lemma {:induction false} CounterStep(frames: seq<Frame>, f: Frame, before: nat, p: Layout)
    ensures Counter(frames + [f], before, p)
            == if Slot(f, p) >= Counter(frames, before, p) then (Slot(f, p) + 1) % U8_MODULUS else Counter(frames, before, p)
    ensures Counter([], before, p) == before
  {
    hide Slot;
    assert (frames + [f])[..|frames|] == frames;
  }

  lemma {:induction false} AtStep(frames: seq<Frame>, f: Frame, slot: nat, p: Layout)
    requires Sane(f)
    ensures At(frames + [f], slot, p) == if Slot(f, p) == slot then Placed(f) else At(frames, slot, p)
    ensures At([], slot, p) == Erasure(15 << 3)
  {
    hide Slot, HeaderOf;
    assert (frames + [f])[..|frames|] == frames;
  }

  /** The first frame of the next group brings the group before it out, as far as the counter covers it. */
  lemma {:induction false} DeliverNext(b: Buffer, f: Frame, frames: seq<Frame>, start: nat, before: nat, next: nat, p: Layout)
    requires Proper(p) && Filling(b, frames, start, before, p) && Belongs(f, next, p) && start + p.ill < next < start + 0x8000
    ensures Ready(b, p) && Sound([f])
    ensures var (d, os) := DeliverAndDrain(b, f, p);
      && Shown(os) == GroupGiven(frames, Counter(frames, before, p), p)
      && (Small(frames, p) ==> Filling(d, [f], next, b.outgoingMax, p) && d.outgoingMax == b.incomingMax)
  {
    hide Slot, HeaderOf, TimeOf, FrameBlock, BinOf, Counter, At, SeqNumLT, Fits, Given, GivenFor, Empty, Deliver, StartsGroup, Drain, Shown, Small;
    EmptyFits(b.outgoing);
    OneSound(f, next, p);
    NextStarts(b, f, start, next, p);
    SwitchedFilling(b, f, next, p);
    var c := Deliver(b, f, p.channels);
    DeliverShaped(b, f, p.channels, p.groupSize);
    DeliverFits(b, f, p.channels);
    DrainGives(c, AMR_MAX_FRAME_SIZE);
    GroupIsGiven(b.incoming, frames, b.incomingMax, p);
    if Small(frames, p) { DrainedEmpty(b.incoming, Drain(c, AMR_MAX_FRAME_SIZE).0.outgoing, frames, before, p); }
  }

  lemma {:induction false} NextStarts(b: Buffer, f: Frame, start: nat, next: nat, p: Layout)
    requires Proper(p) && Belongs(f, next, p) && start + p.ill < next < start + 0x8000
    requires b.haveSeenPackets && b.lastSeqNum == (start + p.ill) % U16_MODULUS
    ensures StartsGroup(b, f, p.channels)
  {
    hide Slot, FrameBlock, BinOf, SeqNumLT;
    SmallQuotient(f.seqNum, U16_MODULUS);
    LaterGroup(start, p.ill, next, f.ilp);
    SlotIsBin(f, next, p);
  }

  /** When the counter has covered all frames, giving them out empties the bank. */
  lemma {:induction false} DrainedEmpty(bins: seq<Bin>, after: seq<Bin>, frames: seq<Frame>, before: nat, p: Layout)
    requires before < U8_MODULUS && Small(frames, p) && |bins| == |after| == p.groupSize
    requires forall i :: 0 <= i < p.groupSize ==> GivenFor(bins[i]) == At(frames, i, p)
    requires forall i :: 0 <= i < p.groupSize ==> if i < Counter(frames, before, p) then after[i].data == [] else after[i] == bins[i]
    ensures Empty(after)
  {
    hide Slot, At, Counter, High;
    forall i | 0 <= i < |after| ensures after[i].data == [] {
      if i >= Counter(frames, before, p) {
        forall k | 0 <= k < |frames| ensures Slot(frames[k], p) != i {
          SmallCovers(frames, k, before, p);
        }
        MissingInPlace(frames, i, p);
        assert GivenFor(bins[i]).Erasure?;
      }
    }
  }

  lemma {:induction false} SmallCovers(frames: seq<Frame>, k: nat, before: nat, p: Layout)
    requires Small(frames, p) && k < |frames|
    ensures Slot(frames[k], p) < Counter(frames, before, p)
    decreases |frames|
  {
    hide Slot;
    var front, f := frames[..|frames| - 1], frames[|frames| - 1];
    assert Slot(f, p) >= 0 ==> (Slot(f, p) + 1) % U8_MODULUS == Slot(f, p) + 1;
    if k < |frames| - 1 { SmallCovers(front, k, before, p); }
  }

  /** A group comes out whole exactly while none of its frames has a place of 255 or above: otherwise the counter wraps round,
      and does not cover the places in use. */
  lemma {:induction false} GroupComesOutIff(b: Buffer, f: Frame, frames: seq<Frame>, start: nat, before: nat, next: nat, p: Layout)
    requires Proper(p) && Filling(b, frames, start, before, p) && Belongs(f, next, p) && start + p.ill < next < start + 0x8000
    requires forall i :: 0 <= i < |frames| ==> Belongs(frames[i], start, p)
    ensures Ready(b, p) && Sound([f])
    ensures var given := Shown(DeliverAndDrain(b, f, p).1);
      && (given == GroupGiven(frames, High(frames, before, p), p) <==> Small(frames, p))
      && ((forall i :: 0 <= i < |frames| ==> Slot(frames[i], p) < |given|) <==> Small(frames, p))
  {
    hide Slot, Counter, High, At, Filling, Belongs, DeliverAndDrain, Shown, Small;
    FillingReady(b, frames, start, before, p);
    DeliverNext(b, f, frames, start, before, next, p);
    BelongToSlots(frames, start, p);
    CounterIsHighIff(frames, before, p);
    AllCoveredIff(frames, before, p);
  }

  lemma {:induction false} GroupIsGiven(bins: seq<Bin>, frames: seq<Frame>, max: nat, p: Layout)
    requires max <= p.groupSize == |bins| && forall i :: 0 <= i < p.groupSize ==> GivenFor(bins[i]) == At(frames, i, p)
    ensures Given(bins, 0, max) == GroupGiven(frames, max, p)
  {
    hide Given, At, GivenFor;
    var g := Given(bins, 0, max);
    forall i | 0 <= i < max
      ensures g[i] == GroupGiven(frames, max, p)[i]
    {
      assert g[i] == GivenFor(bins[0 + i]);
    }
  }

  /** The bank that a new group starts on. */
  lemma {:induction false} SwitchedFilling(b: Buffer, f: Frame, next: nat, p: Layout)
    requires Proper(p) && Shaped(b, p.groupSize) && Empty(b.outgoing) && Belongs(f, next, p)
    requires StartsGroup(b, f, p.channels)
    ensures var c := Deliver(b, f, p.channels);
      && c.outgoing == b.incoming && c.outgoingMax == b.incomingMax && c.nextOutgoing == 0
      && c.haveSeenPackets && c.lastSeqNum == (next + p.ill) % U16_MODULUS
      && c.incomingMax == Counter([f], b.outgoingMax, p)
      && forall i :: 0 <= i < p.groupSize ==> GivenFor(c.incoming[i]) == At([f], i, p)
  {
    hide Slot, HeaderOf, TimeOf, FrameBlock, BinOf, Counter, At, SeqNumLT, StartsGroup, GivenFor, Empty, Deliver, Placed, Switched;
    DeliverSwitched(b, f, p.channels, p.groupSize);
    SwitchedBanks(b, f, next, p);
    SlotIsBin(f, next, p);
    SlotInRange(f, next, p);
    CounterStep([], f, b.outgoingMax, p);
    assert [] + [f] == [f];
    FilledIsPlaced(f, next, p);
    assert Deliver(b, f, p.channels).incoming == b.outgoing[Slot(f, p) := Filled(f, p)];
    FirstInBank(b.outgoing, f, p);
  }

  lemma {:induction false} SwitchedBanks(b: Buffer, f: Frame, next: nat, p: Layout)
    requires Belongs(f, next, p)
    ensures var c := Switched(b, f);
      && c.outgoing == b.incoming && c.outgoingMax == b.incomingMax && c.nextOutgoing == 0
      && c.haveSeenPackets && c.lastSeqNum == (next + p.ill) % U16_MODULUS
  {
    LastOfGroup(next, f.ilp, p.ill);
  }

  /** A frame that starts a group, where it goes. */
  lemma {:induction false} DeliverSwitched(b: Buffer, f: Frame, channels: nat, groupSize: nat)
    requires Shaped(b, groupSize) && Sane(f) && channels > 0 && StartsGroup(b, f, channels)
    ensures var bin := BinOf(f, channels, groupSize);
      Deliver(b, f, channels) == Switched(b, f).(ill := f.ill,
        incoming := b.outgoing[bin := Bin(f.data, HeaderOf(f), TimeOf(f, channels), f.synced)],
        incomingMax := if bin >= b.outgoingMax then (bin + 1) % U8_MODULUS else b.outgoingMax)
  {
    hide StartsGroup, HeaderOf, TimeOf, BinOf;
  }

  lemma {:induction false} FirstInBank(bins: seq<Bin>, f: Frame, p: Layout)
    requires Empty(bins) && Sane(f) && p.channels > 0 && 0 <= Slot(f, p) < |bins| && f.data != []
    requires GivenFor(Filled(f, p)) == Placed(f) && NO_DATA_HEADER == 15 << 3
    ensures forall i :: 0 <= i < |bins| ==> GivenFor(bins[Slot(f, p) := Filled(f, p)][i]) == At([f], i, p)
  {
    hide Slot, HeaderOf, TimeOf, At, Placed;
    assert [] + [f] == [f];
    forall i | 0 <= i < |bins|
      ensures GivenFor(bins[Slot(f, p) := Filled(f, p)][i]) == At([f], i, p)
    {
      AtStep([], f, i, p);
    }
  }

  // ---------- The main result ----------

  lemma {:induction false} RunAppend(b: Buffer, xs: seq<Frame>, ys: seq<Frame>, p: Layout)
    requires Ready(b, p) && Sound(xs) && Sound(ys)
    ensures Ready(Run(b, xs, p).0, p)
    ensures Run(b, xs + ys, p).0 == Run(Run(b, xs, p).0, ys, p).0
    ensures Run(b, xs + ys, p).1 == Run(b, xs, p).1 + Run(Run(b, xs, p).0, ys, p).1
    decreases |xs|
  {
    hide DeliverAndDrain, Ready, Sane;
    if xs == [] {
      assert xs + ys == ys;
    } else {
      assert (xs + ys)[1..] == xs[1..] + ys;
      RunAppend(DeliverAndDrain(b, xs[0], p).0, xs[1..], ys, p);
    }
  }

  /** The rest of a group: nothing is given out. */
  lemma {:induction false} RunInside(b: Buffer, done: seq<Frame>, rest: seq<Frame>, start: nat, before: nat, p: Layout)
    requires Proper(p) && Filling(b, done, start, before, p) && Sound(rest)
    requires forall i :: 0 <= i < |rest| ==> Belongs(rest[i], start, p)
    ensures Filling(Run(b, rest, p).0, done + rest, start, before, p)
    ensures Run(b, rest, p).1 == [] && Run(b, rest, p).0.outgoingMax == b.outgoingMax
    decreases |rest|
  {
    hide DeliverAndDrain, Filling, Ready, Sane, Belongs, At, High;
    if rest == [] {
      assert done + rest == done;
    } else {
      DeliverInside(b, rest[0], done, start, before, p);
      var c := DeliverAndDrain(b, rest[0], p).0;
      RunInside(c, done + [rest[0]], rest[1..], start, before, p);
      assert done + [rest[0]] + rest[1..] == done + rest;
    }
  }

  lemma {:induction false} FlatSound(groups: seq<Group>, p: Layout)
    requires forall i :: 0 <= i < |groups| ==> Whole(groups[i], p)
    ensures Sound(Flat(groups))
    decreases |groups|
  {
    if groups != [] {
      assert Whole(groups[0], p);
      FlatSound(groups[1..], p);
    }
  }

  lemma {:induction false} WholeParts(g: Group, p: Layout)
    requires Whole(g, p)
    ensures g.frames != [] && Belongs(g.frames[0], g.start, p) && Sound(g.frames) && Sound(g.frames[1..]) && Sound([g.frames[0]])
    ensures forall i :: 0 <= i < |g.frames[1..]| ==> Belongs(g.frames[1..][i], g.start, p)
    ensures [g.frames[0]] + g.frames[1..] == g.frames
  {
  }

  lemma {:induction false} FillingReady(b: Buffer, frames: seq<Frame>, start: nat, before: nat, p: Layout)
    requires Proper(p) && Filling(b, frames, start, before, p)
    ensures Ready(b, p) && b.incomingMax == Counter(frames, before, p) && before < U8_MODULUS
  {
  }

  lemma {:induction false} RunOne(b: Buffer, f: Frame, p: Layout)
    requires Ready(b, p) && Sound([f])
    ensures Run(b, [f], p) == DeliverAndDrain(b, f, p)
  {
    hide DeliverAndDrain, Ready, Sane;
    assert [f][1..] == [];
    var (c, os) := DeliverAndDrain(b, f, p);
    assert os + [] == os;
  }

  /** A group is read: the one before it comes out. */
  lemma {:induction false} RunGroup(b: Buffer, g: Group, before: nat, h: Group, p: Layout)
    requires Proper(p) && Filling(b, g.frames, g.start, before, p) && Whole(g, p) && Whole(h, p) && Follows(g, h, p)
    requires Small(g.frames, p)
    ensures Ready(b, p) && Sound(h.frames)
    ensures var (d, os) := Run(b, h.frames, p);
      && Filling(d, h.frames, h.start, b.outgoingMax, p)
      && d.outgoingMax == High(g.frames, before, p)
      && Shown(os) == GroupGiven(g.frames, High(g.frames, before, p), p)
  {
    hide DeliverAndDrain, Filling, Belongs, At, High, Counter, Small, Slot, Run, Ready, Sound, Shown, GroupGiven;
    FillingReady(b, g.frames, g.start, before, p);
    BelongToSlots(g.frames, g.start, p);
    CounterIsHighIff(g.frames, before, p);
    WholeParts(h, p);
    var f, rest := h.frames[0], h.frames[1..];
    RunOne(b, f, p);
    DeliverNext(b, f, g.frames, g.start, before, h.start, p);
    RunAppend(b, [f], rest, p);
    var c := Run(b, [f], p);
    RunInside(c.0, [f], rest, h.start, b.outgoingMax, p);
    assert c.1 + [] == c.1;
  }

  lemma {:induction false} ShownAppend(a: seq<Output>, b: seq<Output>)
    ensures Shown(a + b) == Shown(a) + Shown(b)
  {
  }

  /** All groups but the last, whose bank is still being filled, have places that the counter can count. */
  predicate AllSmall(groups: seq<Group>, p: Layout) {
    forall i :: 0 <= i < |groups| - 1 ==> Small(groups[i].frames, p)
  }

  /** A layout with (ILL + 1) * channels up to 255 is enough for that, whatever the group size. */
  lemma {:induction false} SmallLayouts(groups: seq<Group>, p: Layout)
    requires Proper(p) && Stream(groups, p) && (p.ill + 1) * p.channels <= U8_MODULUS - 1
    ensures AllSmall(groups, p)
  {
    forall i | 0 <= i < |groups| - 1 ensures Small(groups[i].frames, p) {
      assert Whole(groups[i], p);
      SmallLayout(groups[i].frames, groups[i].start, p);
    }
  }

  lemma {:induction false} RunGroups(b: Buffer, groups: seq<Group>, before: nat, p: Layout)
    requires Proper(p) && groups != [] && Stream(groups, p) && Filling(b, groups[0].frames, groups[0].start, before, p)
    requires AllSmall(groups, p)
    ensures Ready(b, p) && Sound(Flat(groups[1..]))
    ensures Shown(Run(b, Flat(groups[1..]), p).1) == Expected(groups, before, b.outgoingMax, p)
    decreases |groups|
  {
    hide DeliverAndDrain, Filling, Belongs, At, High, Counter, Small, Ready, Sound, Shown, GroupGiven, Run;
    FillingReady(b, groups[0].frames, groups[0].start, before, p);
    FlatSound(groups[1..], p);
    if |groups| > 1 {
      var h := groups[1];
      FlatSound(groups[2..], p);
      assert groups[1..][1..] == groups[2..] && groups[1..][0] == h;
      RunGroup(b, groups[0], before, h, p);
      var (c, os) := Run(b, h.frames, p);
      RunGroups(c, groups[1..], b.outgoingMax, p);
      RunAppend(b, h.frames, Flat(groups[2..]), p);
      ShownAppend(os, Run(c, Flat(groups[2..]), p).1);
    } else {
      RunEmpty(b, p);
    }
  }

  lemma {:induction false} RunEmpty(b: Buffer, p: Layout)
    requires Ready(b, p)
    ensures Run(b, [], p) == (b, []) && Shown([]) == [] && Sound([])
  {
  }

  ghost predicate Fresh(b: Buffer, p: Layout) {
    && !b.haveSeenPackets && b.incomingMax == b.outgoingMax == b.nextOutgoing == 0
    && |b.incoming| == |b.outgoing| == p.groupSize
    && (forall i :: 0 <= i < p.groupSize ==> b.incoming[i].data == b.outgoing[i].data == [])
  }

  lemma {:induction false} DeliverFirst(b: Buffer, f: Frame, start: nat, p: Layout)
    requires Proper(p) && Fresh(b, p) && Belongs(f, start, p)
    ensures Ready(b, p) && Sound([f])
    ensures var (d, os) := DeliverAndDrain(b, f, p);
      Filling(d, [f], start, 0, p) && d.outgoingMax == 0 && os == []
  {
    hide Slot, HeaderOf, TimeOf, FrameBlock, BinOf, Counter, At, Given, Deliver;
    Times(1, p.ill + 1, p.channels);
    OneSound(f, start, p);
    assert StartsGroup(b, f, p.channels);
    SwitchedFilling(b, f, start, p);
    DeliverShaped(b, f, p.channels, p.groupSize);
    DeliverFits(b, f, p.channels);
    DrainGives(Deliver(b, f, p.channels), AMR_MAX_FRAME_SIZE);
  }

  /** With 16 channels and groups of 16 packets, frames arrive for the places 10 and 255: neither is given out. */
  lemma {:induction false} GroupLost(b: Buffer, f: Frame, g: Frame, h: Frame, start: nat, next: nat)
    requires var p := Layout(16, 300, 15);
      && Fresh(b, p) && Belongs(f, start, p) && Belongs(g, start, p) && Belongs(h, next, p) && start + 15 < next < start + 0x8000
      && (f.ilp, f.frameIndex) == (0, 11) && (g.ilp, g.frameIndex) == (15, 16)
    ensures var p := Layout(16, 300, 15);
      Ready(b, p) && Sound([f, g, h]) && Run(b, [f, g, h], p).1 == []
  {
    hide DeliverAndDrain, Filling, Belongs, At, Ready, Shown, GroupGiven, Run, Fresh;
    var p := Layout(16, 300, 15);
    DeliverFirst(b, f, start, p);
    var c := DeliverAndDrain(b, f, p).0;
    FillingReady(c, [f], start, 0, p);
    DeliverInside(c, g, [f], start, 0, p);
    var d := DeliverAndDrain(c, g, p).0;
    FillingReady(d, [f] + [g], start, 0, p);
    DeliverNext(d, h, [f] + [g], start, 0, next, p);
    CounterStep([], f, 0, p);
    CounterStep([f], g, 0, p);
    assert [] + [f] == [f];
    assert Counter([f] + [g], 0, p) == 0;
    assert GroupGiven([f] + [g], 0, p) == [] by { NothingGiven([f] + [g], p); }
    NothingShown(DeliverAndDrain(d, h, p).1);
    RunThree(b, f, g, h, p);
  }

  lemma {:induction false} NothingGiven(frames: seq<Frame>, p: Layout)
    ensures GroupGiven(frames, 0, p) == []
  {
  }

  lemma {:induction false} NothingShown(os: seq<Output>)
    ensures Shown(os) == [] <==> os == []
  {
  }

  lemma {:induction false} RunThree(b: Buffer, f: Frame, g: Frame, h: Frame, p: Layout)
    requires Ready(b, p) && Sound([f]) && Sound([g]) && Sound([h])
    ensures Sound([f, g, h])
    ensures var c, d := DeliverAndDrain(b, f, p), DeliverAndDrain(DeliverAndDrain(b, f, p).0, g, p);
      Run(b, [f, g, h], p).1 == c.1 + d.1 + DeliverAndDrain(d.0, h, p).1
  {
    hide DeliverAndDrain, Ready, Run;
    var c := DeliverAndDrain(b, f, p);
    var d := DeliverAndDrain(c.0, g, p);
    assert [f, g, h] == [f] + ([g] + [h]) && Sound([g] + [h]) by {
      assert [f][0] == f && [g][0] == g && [h][0] == h;
    }
    RunOne(b, f, p);
    RunOne(c.0, g, p);
    RunOne(d.0, h, p);
    RunAppend(b, [f], [g] + [h], p);
    RunAppend(c.0, [g], [h], p);
  }

  /** The first group is read: nothing comes out yet. */
  lemma {:induction false} RunFirst(b: Buffer, g: Group, p: Layout)
    requires Proper(p) && Fresh(b, p) && Whole(g, p)
    ensures Ready(b, p) && Sound(g.frames)
    ensures var (d, os) := Run(b, g.frames, p); Filling(d, g.frames, g.start, 0, p) && d.outgoingMax == 0 && os == []
  {
    hide DeliverAndDrain, Filling, Belongs, At, High, Counter, Ready, Sound, Run, Fresh;
    WholeParts(g, p);
    var f, rest := g.frames[0], g.frames[1..];
    DeliverFirst(b, f, g.start, p);
    RunOne(b, f, p);
    RunAppend(b, [f], rest, p);
    RunInside(Run(b, [f], p).0, [f], rest, g.start, 0, p);
  }

  /** Whatever the order in which a group's frames arrive, the groups come out one after the other (each when the next one
      begins), and each group's frames come out in order. */
  lemma {:induction false} GroupsComeOutInOrder(b: Buffer, groups: seq<Group>, p: Layout)
    requires Proper(p) && Fresh(b, p) && groups != [] && Stream(groups, p) && AllSmall(groups, p)
    ensures Ready(b, p) && Sound(Flat(groups))
    ensures Shown(Run(b, Flat(groups), p).1) == Expected(groups, 0, 0, p)
  {
    hide DeliverAndDrain, Filling, Belongs, At, High, Counter, Small, Ready, Sound, Shown, GroupGiven, Run, Fresh;
    var g := groups[0];
    FlatSound(groups, p);
    RunFirst(b, g, p);
    var d := Run(b, g.frames, p).0;
    RunGroups(d, groups, 0, p);
    RunAppend(b, g.frames, Flat(groups[1..]), p);
    FlatSound(groups[1..], p);
  }
}
