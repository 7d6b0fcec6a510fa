/** The RTP source: its reordering buffer, and the loop that puts frames together. The linked list of packets is a sequence. */
module RtpSources {
  import opened SequenceNumbers
  import opened Codecs
  import opened Options
  import opened NalFragments
  import opened Collecting
  import opened Reordering

  class ReorderingPacketBuffer {
    var fPackets: seq<Packet>
    var fHaveSeenFirstPacket: bool
    var fNextExpectedSeqNo: nat
    const fThresholdTime: nat

    function Model(): Buffer
      reads this
    {
      Buffer(fPackets, fHaveSeenFirstPacket, fNextExpectedSeqNo)
    }

    constructor (thresholdTime: nat)
      ensures Model() == Idle() && fThresholdTime == thresholdTime
    {
      fPackets, fHaveSeenFirstPacket, fNextExpectedSeqNo, fThresholdTime := [], false, 0, thresholdTime;
    }

    method StorePacket(packet: Packet) returns (stored: bool)
      modifies this
      ensures (Model(), stored) == Store(old(Model()), packet)
    {
      hide SeqNumLT, Place;
      var bPacket := packet;
      if !fHaveSeenFirstPacket {
        fNextExpectedSeqNo := packet.seqNo;
        bPacket := packet.(isFirst := true);
        fHaveSeenFirstPacket := true;
      }
      if SeqNumLT(packet.seqNo, fNextExpectedSeqNo) { return false; }
      if fPackets == [] {
        fPackets := [bPacket];
        return true;
      }
      var tail := fPackets[|fPackets| - 1];
      if SeqNumLT(tail.seqNo, packet.seqNo) {
        fPackets := fPackets + [bPacket];
        return true;
      }
      if packet.seqNo == tail.seqNo { return false; }
      var i := FindPlace(packet.seqNo);
      if i < |fPackets| && packet.seqNo == fPackets[i].seqNo { return false; }
      fPackets := fPackets[..i] + [bPacket] + fPackets[i..];
      return true;
    }

    /** The walk from the head of the list. */
    method FindPlace(seqNo: nat) returns (i: nat)
      ensures i == Place(fPackets, seqNo)
    {
      hide SeqNumLT, Place;
      i := 0;
      while i < |fPackets| && !SeqNumLT(seqNo, fPackets[i].seqNo) && seqNo != fPackets[i].seqNo
        invariant i <= |fPackets| && forall j :: 0 <= j < i ==> !SeqNumLT(seqNo, fPackets[j].seqNo) && seqNo != fPackets[j].seqNo
        decreases |fPackets| - i
      {
        i := i + 1;
      }
      PlaceIs(fPackets, seqNo, i);
    }

    method GetNextCompletedPacket(now: int) returns (packet: Option<Packet>, packetLossPreceded: bool)
      modifies this
      ensures (Model(), if packet.Some? then Some((packet.value, packetLossPreceded)) else None) == NextCompleted(old(Model()), now, fThresholdTime)
      ensures fPackets == old(fPackets) && (packet.Some? ==> fPackets != [])
      ensures fPackets != [] && fPackets[0].seqNo == old(fNextExpectedSeqNo) ==>
                packet == Some(fPackets[0]) && packetLossPreceded == fPackets[0].isFirst && fNextExpectedSeqNo == old(fNextExpectedSeqNo)
      ensures fPackets != [] && fPackets[0].seqNo != old(fNextExpectedSeqNo)
              && (fThresholdTime == 0 || (now - fPackets[0].timeReceived) % 0x1_0000_0000 > fThresholdTime) ==>
                packet == Some(fPackets[0]) && packetLossPreceded && fNextExpectedSeqNo == fPackets[0].seqNo
      ensures fPackets == [] || (fPackets[0].seqNo != old(fNextExpectedSeqNo) && fThresholdTime > 0
                                 && (now - fPackets[0].timeReceived) % 0x1_0000_0000 <= fThresholdTime) ==>
                packet == None && fNextExpectedSeqNo == old(fNextExpectedSeqNo)
    {
      if fPackets == [] { return None, false; }
      var head := fPackets[0];
      if head.seqNo == fNextExpectedSeqNo {
        return Some(head), head.isFirst;
      }
      var timeThresholdHasBeenExceeded := fThresholdTime == 0 || Waited(now, head.timeReceived) > fThresholdTime;
      if timeThresholdHasBeenExceeded {
        fNextExpectedSeqNo := head.seqNo;
        return Some(head), true;
      }
      return None, false;
    }

    method ReleaseUsedPacket()
      requires fPackets != []
      modifies this
      ensures Model() == Release(old(Model())) && |fPackets| < |old(fPackets)|
    {
      fNextExpectedSeqNo := (fNextExpectedSeqNo + 1) % U16_MODULUS;
      fPackets := fPackets[1..];
    }
  }

  lemma {:induction false} PlaceIs(queue: seq<Packet>, seqNo: nat, i: nat)
    requires i <= |queue| && (i < |queue| ==> SeqNumLT(seqNo, queue[i].seqNo) || seqNo == queue[i].seqNo)
    requires forall j :: 0 <= j < i ==> !SeqNumLT(seqNo, queue[j].seqNo) && seqNo != queue[j].seqNo
    ensures Place(queue, seqNo) == i
  {
    hide Place, SeqNumLT;
    var p := Place(queue, seqNo);
  }

  class MultiFramedRTPSource {
    const fCodec: Codec
    const fReorderingBuffer: ReorderingPacketBuffer
    var fSavedTo: array<bv8>
    var fTo: nat
    var fMaxSize: nat
    var fFrameSize: nat
    var fNumTruncatedBytes: nat
    var fCurrentPacketBeginsFrame: bool
    var fCurrentPacketCompletesFrame: bool
    var fPacketLossInFragmentedFrame: bool
    var fNeedDelivery: bool

    ghost predicate Valid()
      reads this
    {
      fTo == fFrameSize <= fSavedTo.Length && fMaxSize == fSavedTo.Length - fTo
    }

    ghost function Collected(): Collector
      reads this, fSavedTo
      requires Valid()
    {
      Collector(fSavedTo[..fFrameSize], fPacketLossInFragmentedFrame)
    }

    constructor (codec: Codec, buffer: ReorderingPacketBuffer, to: array<bv8>)
      ensures Valid() && Collected() == Collector([], false) && fCodec == codec && fReorderingBuffer == buffer && fSavedTo == to
    {
      fCodec, fReorderingBuffer, fSavedTo := codec, buffer, to;
      fTo, fMaxSize, fFrameSize, fNumTruncatedBytes := 0, to.Length, 0, 0;
      fCurrentPacketBeginsFrame, fCurrentPacketCompletesFrame, fPacketLossInFragmentedFrame, fNeedDelivery := true, true, false, false;
    }

    /** use: copies what fits behind the data collected so far. */
    method Use(data: Bytes) returns (bytesUsed: nat)
      requires Valid()
      modifies this`fNumTruncatedBytes, fSavedTo
      ensures bytesUsed == Min(|data|, fMaxSize)
      ensures fNumTruncatedBytes == if |data| > fMaxSize then old(fNumTruncatedBytes) + (|data| - fMaxSize) else 0
      ensures fSavedTo[..fFrameSize + bytesUsed] == old(fSavedTo[..fFrameSize]) + data[..bytesUsed]
    {
      if |data| > fMaxSize {
        fNumTruncatedBytes := fNumTruncatedBytes + (|data| - fMaxSize);
        bytesUsed := fMaxSize;
      } else {
        fNumTruncatedBytes := 0;
        bytesUsed := |data|;
      }
      for i := 0 to bytesUsed
        invariant fNumTruncatedBytes == if |data| > fMaxSize then old(fNumTruncatedBytes) + (|data| - fMaxSize) else 0
        invariant fSavedTo[..fFrameSize + i] == old(fSavedTo[..fFrameSize]) + data[..i]
      {
        fSavedTo[fFrameSize + i] := data[i];
      }
    }

    /** The part of doGetNextFrame1 that checks for loss. */
    method CheckLoss(packetLossPrecededThis: bool)
      requires Valid()
      modifies this`fTo, this`fMaxSize, this`fFrameSize, this`fPacketLossInFragmentedFrame
      ensures Valid()
      ensures var k, lost := old(Collected()), packetLossPrecededThis || old(fPacketLossInFragmentedFrame);
        Collected() == Collector(if fCurrentPacketBeginsFrame && lost then [] else k.frame, !fCurrentPacketBeginsFrame && lost)
    {
      if fCurrentPacketBeginsFrame {
        if packetLossPrecededThis || fPacketLossInFragmentedFrame {
          fTo, fMaxSize, fFrameSize := 0, fSavedTo.Length, 0;
        }
        fPacketLossInFragmentedFrame := false;
      } else if packetLossPrecededThis {
        fPacketLossInFragmentedFrame := true;
      }
    }

    /** The part of doGetNextFrame1 that delivers a packet's data. */
    method Deliver(data: Bytes)
      requires Valid() && !fPacketLossInFragmentedFrame
      modifies this`fTo, this`fMaxSize, this`fFrameSize, this`fNumTruncatedBytes, fSavedTo
      ensures Valid()
      ensures var frame := old(Collected()).frame; Collected() == Collector(frame + data[..Used(frame, data, fSavedTo.Length)], false)
    {
      var frameSize := Use(data);
      fFrameSize := fFrameSize + frameSize;
      fTo, fMaxSize := fTo + frameSize, fMaxSize - frameSize;
    }

    /** One packet in the loop of doGetNextFrame1. */
    method TakePacket(packet: Bytes, packetLossPrecededThis: bool) returns (frame: Option<Bytes>)
      requires Valid()
      modifies this`fTo, this`fMaxSize, this`fFrameSize, this`fNumTruncatedBytes, this`fCurrentPacketBeginsFrame,
               this`fCurrentPacketCompletesFrame, this`fPacketLossInFragmentedFrame, this`fNeedDelivery, fSavedTo
      ensures Valid()
      ensures var (k, f) := Feed(fCodec, old(Collected()), packet, packetLossPrecededThis, fSavedTo.Length);
        frame == f && fNeedDelivery == f.None? && (f.None? ==> Collected() == k)
      ensures frame.Some? ==> !fPacketLossInFragmentedFrame
    {
      hide Receive, Used;
      frame, fNeedDelivery := None, true;
      var r := Receive(fCodec, packet);
      if r == None { return; }
      fCurrentPacketBeginsFrame, fCurrentPacketCompletesFrame := r.value.begins, r.value.completes;
      CheckLoss(packetLossPrecededThis);
      if fPacketLossInFragmentedFrame { return; }
      Deliver(r.value.data);
      if fCurrentPacketCompletesFrame && fFrameSize > 0 {
        fNeedDelivery := false;
        frame := Some(fSavedTo[..fFrameSize]);
      }
    }

    /** doGetNextFrame1 */
    method DoGetNextFrame1(now: int) returns (frame: Option<Bytes>)
      requires Valid() && fNeedDelivery
      modifies this`fTo, this`fMaxSize, this`fFrameSize, this`fNumTruncatedBytes, this`fCurrentPacketBeginsFrame,
               this`fCurrentPacketCompletesFrame, this`fPacketLossInFragmentedFrame, this`fNeedDelivery, fSavedTo, fReorderingBuffer
      ensures Valid() && fNeedDelivery == frame.None?
      ensures var (b, k, f) := NextFrame(fCodec, old(fReorderingBuffer.Model()), old(Collected()), now, fReorderingBuffer.fThresholdTime, fSavedTo.Length);
        frame == f && fReorderingBuffer.Model() == b && (f.None? ==> Collected() == k)
      ensures frame.Some? ==> !fPacketLossInFragmentedFrame
    {
      hide Feed, NextCompleted, Release;
      ghost var b0, k0, t := fReorderingBuffer.Model(), Collected(), fReorderingBuffer.fThresholdTime;
      frame := None;
      while fNeedDelivery
        invariant Valid() && fNeedDelivery == frame.None?
        invariant frame.None? ==> NextFrame(fCodec, fReorderingBuffer.Model(), Collected(), now, t, fSavedTo.Length) == NextFrame(fCodec, b0, k0, now, t, fSavedTo.Length)
        invariant frame.Some? ==> frame == NextFrame(fCodec, b0, k0, now, t, fSavedTo.Length).2 && fReorderingBuffer.Model() == NextFrame(fCodec, b0, k0, now, t, fSavedTo.Length).0
        invariant frame.Some? ==> !fPacketLossInFragmentedFrame
        decreases |fReorderingBuffer.fPackets|, fNeedDelivery
      {
        ghost var b, k := fReorderingBuffer.Model(), Collected();
        var nextPacket, packetLossPrecededThis := fReorderingBuffer.GetNextCompletedPacket(now);
        if nextPacket == None { break; }
        frame := TakePacket(nextPacket.value.payload, packetLossPrecededThis);
        fReorderingBuffer.ReleaseUsedPacket();
      }
    }

    /** doGetNextFrame, up to the call of doGetNextFrame1: the next frame goes to a buffer of the client's. */
    method BeginFrame(to: array<bv8>)
      requires Valid() && !fPacketLossInFragmentedFrame
      modifies this`fSavedTo, this`fTo, this`fMaxSize, this`fFrameSize, this`fNeedDelivery
      ensures Valid() && fSavedTo == to && fNeedDelivery && Collected() == Collector([], false)
    {
      fSavedTo, fTo, fMaxSize, fFrameSize, fNeedDelivery := to, 0, to.Length, 0, true;
    }
  }

  lemma {:induction false} NextFrameResets(c: Codec, b: Buffer, k: Collector, now: int, threshold: nat, limit: nat)
    ensures NextFrame(c, b, k, now, threshold, limit).2.Some? ==> NextFrame(c, b, k, now, threshold, limit).1 == Collector([], false)
    decreases |b.queue|
  {
    hide Receive, Used;
    var (b', r) := NextCompleted(b, now, threshold);
    if r.Some? {
      var (k', f) := Feed(c, k, r.value.0.payload, r.value.1, limit);
      if f.None? { NextFrameResets(c, Release(b'), k', now, threshold, limit); }
    }
  }

  /** The client takes frames for as long as there are any. */
  method TakeFrames(source: MultiFramedRTPSource, now: int, limit: nat) returns (frames: seq<Bytes>)
    requires source.Valid() && source.fNeedDelivery && source.fSavedTo.Length == limit
    modifies source, source.fSavedTo, source.fReorderingBuffer
    ensures source.Valid() && source.fNeedDelivery && source.fSavedTo.Length == limit
    ensures source.fSavedTo == old(source.fSavedTo) || fresh(source.fSavedTo)
    ensures var t := source.fReorderingBuffer.fThresholdTime;
      (source.fReorderingBuffer.Model(), source.Collected(), frames)
      == AllFrames(source.fCodec, old(source.fReorderingBuffer.Model()), old(source.Collected()), now, t, limit)
  {
    hide NextFrame;
    frames := [];
    ghost var c, t, b0, k0 := source.fCodec, source.fReorderingBuffer.fThresholdTime, source.fReorderingBuffer.Model(), source.Collected();
    ghost var all := AllFrames(c, b0, k0, now, t, limit);
    assert [] + all.2 == all.2;
    while true
      invariant source.Valid() && source.fNeedDelivery && source.fSavedTo.Length == limit
      invariant source.fSavedTo == old(source.fSavedTo) || fresh(source.fSavedTo)
      invariant var rest := AllFrames(c, source.fReorderingBuffer.Model(), source.Collected(), now, t, limit);
        (rest.0, rest.1) == (all.0, all.1) && all.2 == frames + rest.2
      decreases |source.fReorderingBuffer.fPackets|
    {
      ghost var b, k := source.fReorderingBuffer.Model(), source.Collected();
      NextFrameResets(c, b, k, now, t, limit);
      var frame := source.DoGetNextFrame1(now);
      if frame == None {
        assert frames + [] == frames;
        break;
      }
      FrameFirst(c, b, k, now, t, limit, frames, all.2);
      frames := frames + [frame.value];
      var to := new bv8[limit];
      source.BeginFrame(to);
    }
  }

  lemma {:induction false} FrameFirst(c: Codec, b: Buffer, k: Collector, now: int, t: nat, limit: nat, frames: seq<Bytes>, all: seq<Bytes>)
    requires NextFrame(c, b, k, now, t, limit).2.Some? && all == frames + AllFrames(c, b, k, now, t, limit).2
    ensures var (b', k', f) := NextFrame(c, b, k, now, t, limit);
      all == (frames + [f.value]) + AllFrames(c, b', k', now, t, limit).2
      && (AllFrames(c, b, k, now, t, limit).0, AllFrames(c, b, k, now, t, limit).1)
         == (AllFrames(c, b', k', now, t, limit).0, AllFrames(c, b', k', now, t, limit).1)
  {
    hide NextFrame;
  }

  /** A whole session of the source. */
  method RunSession(c: Codec, sent: seq<Bytes>, base: nat, arrivals: seq<Arrival>, threshold: nat, limit: nat) returns (frames: seq<Bytes>)
    requires forall i :: 0 <= i < |arrivals| ==> arrivals[i].number < |sent|
    ensures frames == Session(c, Idle(), Collector([], false), sent, base, arrivals, threshold, limit)
  {
    hide AllFrames, Store;
    var to := new bv8[limit];
    var buffer := new ReorderingPacketBuffer(threshold);
    var source := new MultiFramedRTPSource(c, buffer, to);
    source.BeginFrame(to);
    frames := [];
    ghost var all := Session(c, Idle(), Collector([], false), sent, base, arrivals, threshold, limit);
    assert arrivals[0..] == arrivals && [] + all == all;
    for i := 0 to |arrivals|
      invariant source.Valid() && source.fNeedDelivery && source.fSavedTo.Length == limit && fresh(source.fSavedTo)
      invariant all == frames + Session(c, buffer.Model(), source.Collected(), sent, base, arrivals[i..], threshold, limit)
    {
      SessionStep(c, buffer.Model(), source.Collected(), sent, base, arrivals, i, threshold, limit, frames, all);
      var _ := buffer.StorePacket(PacketOf(sent, base, arrivals[i]));
      var more := TakeFrames(source, arrivals[i].now, limit);
      frames := frames + more;
    }
    assert arrivals[|arrivals|..] == [] && frames + [] == frames;
  }

  lemma {:induction false} SessionStep(c: Codec, b: Buffer, k: Collector, sent: seq<Bytes>, base: nat, arrivals: seq<Arrival>, i: nat,
                                       threshold: nat, limit: nat, frames: seq<Bytes>, all: seq<Bytes>)
    requires i < |arrivals| && forall j :: 0 <= j < |arrivals| ==> arrivals[j].number < |sent|
    requires all == frames + Session(c, b, k, sent, base, arrivals[i..], threshold, limit)
    ensures var (b2, k2, fs) := AllFrames(c, Store(b, PacketOf(sent, base, arrivals[i])).0, k, arrivals[i].now, threshold, limit);
      all == (frames + fs) + Session(c, b2, k2, sent, base, arrivals[i + 1..], threshold, limit)
  {
    hide AllFrames, Store;
    assert arrivals[i..][1..] == arrivals[i + 1..];
  }
}
