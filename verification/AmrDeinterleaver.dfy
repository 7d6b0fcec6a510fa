/** The de-interleaving buffer itself: two banks of frame descriptors that exchange data buffers with the reader. */
module AmrDeinterleavers {
  import opened SequenceNumbers
  import opened Options
  import opened AmrBins

  datatype FrameDescriptor = FrameDescriptor(frameSize: nat, frameData: array?<bv8>, frameHeader: bv8, presentationTime: Time, synced: bool)

  ghost predicate Usable(d: FrameDescriptor) {
    && d.frameSize <= AMR_MAX_FRAME_SIZE
    && (d.frameData != null ==> d.frameData.Length == AMR_MAX_FRAME_SIZE)
    && (d.frameSize > 0 ==> d.frameData != null)
  }

  ghost function BinAt(d: FrameDescriptor): Bin
    reads d.frameData
    requires Usable(d)
  {
    Bin(if d.frameSize > 0 then d.frameData[..d.frameSize] else [], d.frameHeader, d.presentationTime, d.synced)
  }

  ghost function DataOf(ds: seq<FrameDescriptor>): set<object?> {
    set d | d in ds :: d.frameData
  }

  ghost predicate AllUsable(ds: seq<FrameDescriptor>) {
    forall i :: 0 <= i < |ds| ==> Usable(ds[i])
  }

  ghost function BinsOf(ds: seq<FrameDescriptor>): (r: seq<Bin>)
    reads DataOf(ds)
    requires AllUsable(ds)
    ensures |r| == |ds|
    ensures forall i :: 0 <= i < |ds| ==> r[i] == BinAt(ds[i])
  {
    if ds == [] then []
    else
      DataOfFront(ds);
      BinsOf(ds[..|ds| - 1]) + [BinAt(ds[|ds| - 1])]
  }

  lemma {:induction false} DataOfFront(ds: seq<FrameDescriptor>)
    requires ds != []
    ensures DataOf(ds[..|ds| - 1]) <= DataOf(ds) && ds[|ds| - 1].frameData in DataOf(ds)
  {
    assert ds[|ds| - 1] in ds;
  }

  /** No buffer is in two places: two descriptors, or a descriptor and the reader's input buffer. */
  ghost predicate Apart(a: seq<FrameDescriptor>, b: seq<FrameDescriptor>, input: array<bv8>) {
    && (forall i, j :: 0 <= i < j < |a| && a[i].frameData != null ==> a[i].frameData != a[j].frameData)
    && (forall i, j :: 0 <= i < j < |b| && b[i].frameData != null ==> b[i].frameData != b[j].frameData)
    && (forall i, j :: 0 <= i < |a| && 0 <= j < |b| && a[i].frameData != null ==> a[i].frameData != b[j].frameData)
    && (forall i :: 0 <= i < |a| ==> a[i].frameData != input)
    && (forall i :: 0 <= i < |b| ==> b[i].frameData != input)
  }

  /** The two banks, seen from the other side. */
  lemma {:induction false} ApartTurned(a: seq<FrameDescriptor>, b: seq<FrameDescriptor>, input: array<bv8>)
    requires Apart(a, b, input)
    ensures Apart(b, a, input)
  {
  }

  lemma {:induction false} DataExchanged(ds: seq<FrameDescriptor>, k: nat, d: FrameDescriptor)
    requires k < |ds|
    ensures DataOf(ds[k := d]) <= DataOf(ds) + {d.frameData}
  {
  }

  /** The input buffer and the buffer of a bin change places. */
  lemma {:induction false} ApartExchanged(a: seq<FrameDescriptor>, b: seq<FrameDescriptor>, input: array<bv8>, k: nat,
                                          d: FrameDescriptor, other: array<bv8>)
    requires Apart(a, b, input) && k < |a| && d.frameData == input
    requires other == a[k].frameData || (other != input && other !in DataOf(a) && other !in DataOf(b))
    ensures Apart(a[k := d], b, other)
  {
    assert forall i :: 0 <= i < |a| ==> a[i].frameData in DataOf(a);
    assert forall i :: 0 <= i < |b| ==> b[i].frameData in DataOf(b);
  }

  class AMRDeinterleavingBuffer {
    const fNumChannels: nat
    const fMaxInterleaveGroupSize: nat
    const fFrames0: array<FrameDescriptor>
    const fFrames1: array<FrameDescriptor>
    var fIncomingBankId: nat
    var fIncomingBinMax: nat
    var fOutgoingBinMax: nat
    var fNextOutgoingBin: nat
    var fHaveSeenPackets: bool
    var fLastPacketSeqNumForGroup: nat
    var fInputBuffer: array<bv8>
    var fLastRetrievedPresentationTime: Time
    var fNumSuccessiveSyncedFrames: nat
    var fILL: nat

    /** fFrames[id] */
    function Bank(id: nat): array<FrameDescriptor> {
      if id == 0 then fFrames0 else fFrames1
    }

    ghost predicate Valid()
      reads this, fFrames0, fFrames1
    {
      && fNumChannels > 0 && fMaxInterleaveGroupSize > 0
      && fFrames0 != fFrames1 && fFrames0.Length == fFrames1.Length == fMaxInterleaveGroupSize
      && fIncomingBankId <= 1
      && fInputBuffer.Length == AMR_MAX_FRAME_SIZE
      && AllUsable(fFrames0[..]) && AllUsable(fFrames1[..])
      && Apart(Bank(fIncomingBankId)[..], Bank(1 - fIncomingBankId)[..], fInputBuffer)
      && fFrames0 !in Buffers() && fFrames1 !in Buffers() && this !in Buffers()
    }

    /** All the data buffers in use. */
    ghost function Buffers(): set<object?>
      reads this, fFrames0, fFrames1
    {
      DataOf(fFrames0[..]) + DataOf(fFrames1[..]) + {fInputBuffer}
    }

    ghost function Model(): (b: Buffer)
      reads this, fFrames0, fFrames1, Buffers()
      requires Valid()
      ensures |b.incoming| == |b.outgoing| == fMaxInterleaveGroupSize
    {
      Buffer(BinsOf(Bank(fIncomingBankId)[..]), BinsOf(Bank(1 - fIncomingBankId)[..]), fIncomingBinMax, fOutgoingBinMax,
             fNextOutgoingBin, fHaveSeenPackets, fLastPacketSeqNumForGroup, fNumSuccessiveSyncedFrames, fILL,
             fLastRetrievedPresentationTime)
    }

    constructor (numChannels: nat, maxInterleaveGroupSize: nat)
      requires numChannels > 0 && maxInterleaveGroupSize > 0
      ensures Valid() && fNumChannels == numChannels && fMaxInterleaveGroupSize == maxInterleaveGroupSize
      ensures fresh(fFrames0) && fresh(fFrames1) && fresh(fInputBuffer) && Buffers() <= {null, fInputBuffer}
      ensures !fHaveSeenPackets && fIncomingBinMax == fOutgoingBinMax == fNextOutgoingBin == fILL == fNumSuccessiveSyncedFrames == 0
      ensures forall i :: 0 <= i < maxInterleaveGroupSize ==> Model().incoming[i].data == Model().outgoing[i].data == []
    {
      hide BinsOf, AllUsable, DataOf;
      fNumChannels, fMaxInterleaveGroupSize := numChannels, maxInterleaveGroupSize;
      var empty := FrameDescriptor(0, null, 0, Time(0, 0), false);
      fFrames0 := new FrameDescriptor[maxInterleaveGroupSize](_ => empty);
      fFrames1 := new FrameDescriptor[maxInterleaveGroupSize](_ => empty);
      fIncomingBankId, fIncomingBinMax, fOutgoingBinMax, fNextOutgoingBin := 0, 0, 0, 0;
      fHaveSeenPackets, fLastPacketSeqNumForGroup, fNumSuccessiveSyncedFrames, fILL := false, 0, 0, 0;
      fLastRetrievedPresentationTime := Time(0, 0);
      fInputBuffer := new bv8[AMR_MAX_FRAME_SIZE](_ => 0);
      new;
      EmptyBank(fFrames0[..], empty);
      EmptyBank(fFrames1[..], empty);
    }

    /** The source puts a frame into the input buffer: no bin is affected. */
    method ReadFrame(data: Bytes)
      requires Valid() && |data| <= AMR_MAX_FRAME_SIZE
      modifies fInputBuffer
      ensures Valid() && Model() == old(Model())
      ensures fInputBuffer[..|data|] == data
    {
      hide BinsOf, BinAt;
      ghost var was, ins, outs := Model(), Bank(fIncomingBankId)[..], Bank(1 - fIncomingBankId)[..];
      CopyInto(fInputBuffer, data);
      assert Bank(fIncomingBankId)[..] == ins && Bank(1 - fIncomingBankId)[..] == outs;
      SameBins(ins, was.incoming);
      SameBins(outs, was.outgoing);
    }

    /** The banks change places at the start of an interleave group. */
    method SwitchBanks(ghost f: Frame, lastSeqNum: nat)
      requires Valid() && Sane(f) && lastSeqNum == (f.seqNum + f.ill - f.ilp) % U16_MODULUS
      modifies this
      ensures Valid() && Model() == Switched(old(Model()), f)
      ensures fInputBuffer == old(fInputBuffer) && Buffers() == old(Buffers())
    {
      hide BinsOf, BinAt, Apart, AllUsable, DataOf;
      ApartTurned(Bank(fIncomingBankId)[..], Bank(1 - fIncomingBankId)[..], fInputBuffer);
      ghost var b := Model();
      fHaveSeenPackets := true;
      fLastPacketSeqNumForGroup := lastSeqNum;
      fIncomingBankId := 1 - fIncomingBankId;
      var tmp := fIncomingBinMax;
      fIncomingBinMax := fOutgoingBinMax;
      fOutgoingBinMax := tmp;
      fNextOutgoingBin := 0;
      assert BinsOf(Bank(fIncomingBankId)[..]) == b.outgoing;
      assert BinsOf(Bank(1 - fIncomingBankId)[..]) == b.incoming;
    }

    /** Puts the input buffer into a bin, and takes the bin's buffer (or a new one) as the input buffer. */
    method FillBin(binNumber: nat, frameSize: nat, frameHeader: bv8, presentationTime: Time, synced: bool)
      requires Valid() && binNumber < fMaxInterleaveGroupSize && frameSize <= AMR_MAX_FRAME_SIZE
      modifies this`fInputBuffer, Bank(fIncomingBankId)
      ensures Valid()
      ensures Model() == old(Model()).(incoming := old(Model()).incoming[binNumber := Bin(old(fInputBuffer[..frameSize]), frameHeader, presentationTime, synced)])
      ensures Buffers() <= old(Buffers()) + {fInputBuffer} && (fInputBuffer in old(Buffers()) || fresh(fInputBuffer))
    {
      hide BinsOf, BinAt, Apart, AllUsable, DataOf;
      ghost var b, ins, outs := Model(), Bank(fIncomingBankId)[..], Bank(1 - fIncomingBankId)[..];
      var bank := Bank(fIncomingBankId);
      var d := FrameDescriptor(frameSize, fInputBuffer, frameHeader, presentationTime, synced);
      BinUpdated(ins, binNumber, d);
      InData(ins, binNumber);
      DataExchanged(ins, binNumber, d);
      DataAllocated(ins);
      DataAllocated(outs);
      BinAtIs(d, fInputBuffer);
      var curBuffer := bank[binNumber].frameData;
      if curBuffer == null {
        curBuffer := new bv8[AMR_MAX_FRAME_SIZE](_ => 0);
      }
      ApartExchanged(ins, outs, fInputBuffer, binNumber, d, curBuffer);
      bank[binNumber] := d;
      assert bank[..] == ins[binNumber := d];
      fInputBuffer := curBuffer;
      assert Bank(fIncomingBankId)[..] == ins[binNumber := d] && Bank(1 - fIncomingBankId)[..] == outs;
      assert BinsOf(outs) == b.outgoing;
      assert BinsOf(ins[binNumber := d]) == b.incoming[binNumber := old(BinAt(d))];
    }

    /** deliverIncomingFrame: `f.data` is what the source has put into the input buffer. */
    method DeliverIncomingFrame(f: Frame)
      requires Valid() && Sane(f) && |f.data| <= AMR_MAX_FRAME_SIZE && f.data == fInputBuffer[..|f.data|]
      modifies this, fFrames0, fFrames1
      ensures Valid() && Model() == Deliver(old(Model()), f, fNumChannels)
      ensures Buffers() <= old(Buffers()) + {fInputBuffer} && (fInputBuffer in old(Buffers()) || fresh(fInputBuffer))
    {
      hide BinsOf, BinAt, Apart, AllUsable, DataOf, SeqNumLT, HeaderOf, TimeOf, FrameBlock, BinOf, Deliver, Switched;
      ghost var b0 := Model();
      SetIll(f.ill);
      var frameHeader, frameBlockIndex, presentationTime, binNumber := Locate(f);
      assert Model() == b0.(ill := f.ill);
      if !fHaveSeenPackets || SeqNumLT(fLastPacketSeqNumForGroup, (f.seqNum + frameBlockIndex) % U16_MODULUS) {
        SwitchBanks(f, (f.seqNum + f.ill - f.ilp) % U16_MODULUS);
      }
      ghost var b1 := Model();
      assert fInputBuffer[..|f.data|] == f.data;
      assert Buffers() == old(Buffers());
      FillBin(binNumber, |f.data|, frameHeader, presentationTime, f.synced);
      ghost var b2 := Model();
      if binNumber >= fIncomingBinMax {
        SetIncomingBinMax((binNumber + 1) % U8_MODULUS);
      }
      DeliverInSteps(b0, b1, b2, Model(), f, fNumChannels);
    }

    /** What deliverIncomingFrame works out from the frame's place in its packet. */
    method Locate(f: Frame) returns (frameHeader: bv8, frameBlockIndex: nat, presentationTime: Time, binNumber: nat)
      requires Valid() && Sane(f)
      ensures frameHeader == HeaderOf(f) && frameBlockIndex == FrameBlock(f, fNumChannels) && presentationTime == TimeOf(f, fNumChannels)
      ensures binNumber == BinOf(f, fNumChannels, fMaxInterleaveGroupSize)
      ensures Valid() && Model() == old(Model()) && Buffers() == old(Buffers()) && fInputBuffer[..] == old(fInputBuffer[..])
    {
      hide BinsOf, BinAt, Apart, AllUsable, DataOf;
      var frameIndex := f.frameIndex - 1;
      frameHeader := if frameIndex >= |f.toc| then NO_DATA_HEADER else f.toc[frameIndex];
      frameBlockIndex := frameIndex / fNumChannels;
      var frameWithinFrameBlock := frameIndex % fNumChannels;
      var usec := f.time.usec + frameBlockIndex * (f.ill + 1) * US_PER_FRAME;
      presentationTime := Time(f.time.sec + usec / MILLION, usec % MILLION);
      binNumber := ((f.ilp + frameBlockIndex * (f.ill + 1)) * fNumChannels + frameWithinFrameBlock) % fMaxInterleaveGroupSize;
    }

    method SetIll(ill: nat)
      requires Valid()
      modifies this`fILL
      ensures Valid() && Model() == old(Model()).(ill := ill) && Buffers() == old(Buffers())
    {
      hide BinsOf, BinAt, Apart, AllUsable, DataOf;
      fILL := ill;
    }

    method SetIncomingBinMax(max: nat)
      requires Valid()
      modifies this`fIncomingBinMax
      ensures Valid() && Model() == old(Model()).(incomingMax := max) && Buffers() == old(Buffers())
    {
      hide BinsOf, BinAt, Apart, AllUsable, DataOf;
      fIncomingBinMax := max;
    }

    /** Empties a bin that is being given out. */
    method EmptyBin(bin: nat)
      requires Valid() && bin < fMaxInterleaveGroupSize
      modifies Bank(1 - fIncomingBankId)
      ensures Valid() && Buffers() == old(Buffers()) && fInputBuffer == old(fInputBuffer)
      ensures Model() == old(Model()).(outgoing := old(Model()).outgoing[bin := old(Model()).outgoing[bin].(data := [])])
    {
      hide BinsOf, BinAt, Apart, AllUsable, DataOf;
      ghost var b, ins, outs := Model(), Bank(fIncomingBankId)[..], Bank(1 - fIncomingBankId)[..];
      var bank := Bank(1 - fIncomingBankId);
      var d := bank[bin].(frameSize := 0);
      Emptied(outs, bin);
      BinUpdated(outs, bin, d);
      EmptiedApart(ins, outs, fInputBuffer, bin);
      bank[bin] := d;
      assert bank[..] == outs[bin := d];
      assert Bank(fIncomingBankId)[..] == ins && Bank(1 - fIncomingBankId)[..] == outs[bin := d];
      assert BinsOf(ins) == b.incoming;
      assert BinsOf(outs[bin := d]) == b.outgoing[bin := old(BinAt(d))];
    }

    /** A buffer of the client's own. */
    ghost predicate Foreign(to: array<bv8>)
      reads this, fFrames0, fFrames1
    {
      to !in Buffers() && to as object !in {fFrames0 as object, fFrames1 as object, this as object}
    }

    /** The end of retrieveFrame: gives out (a part of) the data of a bin. */
    method CopyOut(d: FrameDescriptor, to: array<bv8>, maxSize: nat) returns (data: Bytes, truncated: nat)
      requires Valid() && Foreign(to) && maxSize <= to.Length && Usable(d) && d.frameData != to
      modifies to
      ensures Valid() && Foreign(to) && Model() == old(Model())
      ensures var all := old(BinAt(d)).data; var size := if |all| > maxSize then maxSize else |all|;
        data == all[..size] && truncated == |all| - size && to[..size] == data
    {
      hide BinsOf, Apart, AllUsable, DataOf;
      ghost var b, ins, outs := Model(), Bank(fIncomingBankId)[..], Bank(1 - fIncomingBankId)[..];
      var size := if d.frameSize > maxSize then maxSize else d.frameSize;
      truncated := d.frameSize - size;
      data := if size > 0 then d.frameData[..size] else [];
      assert to !in DataOf(ins) && to !in DataOf(outs);
      DataAllocated(ins);
      DataAllocated(outs);
      CopyInto(to, data);
      assert Bank(fIncomingBankId)[..] == ins && Bank(1 - fIncomingBankId)[..] == outs;
      assert BinsOf(ins) == b.incoming && BinsOf(outs) == b.outgoing;
    }

    /** retrieveFrame */
    method RetrieveFrame(to: array<bv8>, maxSize: nat) returns (result: Option<Output>)
      requires Valid() && maxSize <= to.Length && fOutgoingBinMax <= fMaxInterleaveGroupSize && Foreign(to)
      modifies this, Bank(1 - fIncomingBankId), to
      ensures Valid() && Buffers() == old(Buffers()) && fInputBuffer == old(fInputBuffer)
      ensures (Model(), result) == RetrieveAny(old(Model()), maxSize)
      ensures result.Some? ==> |result.value.data| <= to.Length && to[..|result.value.data|] == result.value.data
    {
      hide BinsOf, BinAt, Apart, AllUsable, DataOf, NextSynced, After, Retrieve;
      if fNextOutgoingBin >= fOutgoingBinMax { return None; }
      var outBin := Bank(1 - fIncomingBankId)[fNextOutgoingBin];
      InData(Bank(1 - fIncomingBankId)[..], fNextOutgoingBin);
      ghost var b0 := Model();
      BinAtFacts(outBin);
      ghost var bin := BinAt(outBin);
      EmptyBin(fNextOutgoingBin);
      assert BinAt(outBin) == bin;
      var o := GiveOut(outBin, to, maxSize);
      RetrieveInSteps(b0, Model(), o, maxSize);
      return Some(o);
    }

    /** The part of retrieveFrame behind the choice of the bin, which has been emptied already. */
    method GiveOut(outBin: FrameDescriptor, to: array<bv8>, maxSize: nat) returns (o: Output)
      requires Valid() && maxSize <= to.Length && Foreign(to) && Usable(outBin) && outBin.frameData != to
      modifies this`fNumSuccessiveSyncedFrames, this`fLastRetrievedPresentationTime, this`fNextOutgoingBin, to
      ensures Valid() && Buffers() == old(Buffers()) && fInputBuffer == old(fInputBuffer)
      ensures |o.data| <= to.Length && to[..|o.data|] == o.data
      ensures var bin := old(BinAt(outBin)); var size := if |bin.data| > maxSize then maxSize else |bin.data|;
        o.data == bin.data[..size] && o.numTruncatedBytes == |bin.data| - size
      ensures o.header == if outBin.frameSize == 0 then NO_DATA_HEADER else outBin.frameHeader
      ensures o.time == if outBin.frameSize == 0 then After(old(fLastRetrievedPresentationTime)) else outBin.presentationTime
      ensures (fNumSuccessiveSyncedFrames, o.synced) == NextSynced(old(fNumSuccessiveSyncedFrames), fILL, outBin.synced)
      ensures Model() == old(Model()).(syncedRun := fNumSuccessiveSyncedFrames, lastTime := o.time, nextOutgoing := old(fNextOutgoingBin) + 1)
    {
      hide BinsOf, BinAt, Apart, AllUsable, DataOf, NextSynced, After;
      ghost var bin := BinAt(outBin);
      var synced := CountSynced(outBin.synced);
      assert BinAt(outBin) == bin;
      var header, time := outBin.frameHeader, outBin.presentationTime;
      if outBin.frameSize == 0 {
        header := NO_DATA_HEADER;
        time := After(fLastRetrievedPresentationTime);
      }
      var data, truncated := CopyOut(outBin, to, maxSize);
      Advance(time);
      o := Output(data, truncated, header, time, synced);
    }

    method Advance(time: Time)
      requires Valid()
      modifies this`fLastRetrievedPresentationTime, this`fNextOutgoingBin
      ensures Valid() && Buffers() == old(Buffers()) && fInputBuffer == old(fInputBuffer)
      ensures Model() == old(Model()).(lastTime := time, nextOutgoing := old(fNextOutgoingBin) + 1)
    {
      hide BinsOf, BinAt, Apart, AllUsable, DataOf;
      fLastRetrievedPresentationTime := time;
      fNextOutgoingBin := fNextOutgoingBin + 1;
    }

    /** The part of retrieveFrame that counts synchronized frames. */
    method CountSynced(binSynced: bool) returns (synced: bool)
      requires Valid()
      modifies this`fNumSuccessiveSyncedFrames
      ensures Valid() && Buffers() == old(Buffers()) && fInputBuffer == old(fInputBuffer)
      ensures (fNumSuccessiveSyncedFrames, synced) == NextSynced(old(fNumSuccessiveSyncedFrames), fILL, binSynced)
      ensures Model() == old(Model()).(syncedRun := fNumSuccessiveSyncedFrames)
    {
      hide BinsOf, BinAt, Apart, AllUsable, DataOf;
      synced := false;
      if binSynced {
        fNumSuccessiveSyncedFrames := fNumSuccessiveSyncedFrames + 1;
        if fNumSuccessiveSyncedFrames > fILL {
          synced := true;
          fNumSuccessiveSyncedFrames := fILL + 1;
        }
      } else {
        fNumSuccessiveSyncedFrames := 0;
      }
    }
  }

  /** deliverIncomingFrame, step by step. */
  lemma {:induction false} DeliverInSteps(b0: Buffer, b1: Buffer, b2: Buffer, b3: Buffer, f: Frame, channels: nat)
    requires Sane(f) && channels > 0 && |b0.incoming| == |b0.outgoing| == |b1.incoming| > 0
    requires b1 == if StartsGroup(b0, f, channels) then Switched(b0.(ill := f.ill), f) else b0.(ill := f.ill)
    requires var bin := BinOf(f, channels, |b0.incoming|);
      && b2 == b1.(incoming := b1.incoming[bin := Bin(f.data, HeaderOf(f), TimeOf(f, channels), f.synced)])
      && b3 == if bin >= b2.incomingMax then b2.(incomingMax := (bin + 1) % U8_MODULUS) else b2
    ensures b3 == Deliver(b0, f, channels)
  {
    hide StartsGroup, BinOf, HeaderOf, TimeOf;
  }

  /** retrieveFrame, field by field. */
  lemma {:induction false} RetrieveInSteps(b: Buffer, c: Buffer, o: Output, maxSize: nat)
    requires b.nextOutgoing < b.outgoingMax <= |b.outgoing|
    requires var bin := b.outgoing[b.nextOutgoing];
      var size := if |bin.data| > maxSize then maxSize else |bin.data|;
      && o.data == bin.data[..size] && o.numTruncatedBytes == |bin.data| - size
      && o.header == (if |bin.data| == 0 then NO_DATA_HEADER else bin.header)
      && o.time == (if |bin.data| == 0 then After(b.lastTime) else bin.time)
      && (c.syncedRun, o.synced) == NextSynced(b.syncedRun, b.ill, bin.synced)
      && c == b.(outgoing := b.outgoing[b.nextOutgoing := bin.(data := [])], nextOutgoing := b.nextOutgoing + 1,
                 syncedRun := c.syncedRun, lastTime := o.time)
    ensures (c, Some(o)) == RetrieveAny(b, maxSize)
  {
    hide NextSynced, After;
  }

  /** memmove into the beginning of a buffer. */
  method CopyInto(a: array<bv8>, data: Bytes)
    requires |data| <= a.Length
    modifies a
    ensures a[..|data|] == data && a[|data|..] == old(a[|data|..])
  {
    for i := 0 to |data|
      invariant a[..i] == data[..i] && a[|data|..] == old(a[|data|..])
    {
      a[i] := data[i];
    }
  }

  lemma {:induction false} BinUpdated(ds: seq<FrameDescriptor>, k: nat, d: FrameDescriptor)
    requires AllUsable(ds) && k < |ds| && Usable(d)
    ensures AllUsable(ds[k := d]) && BinsOf(ds[k := d]) == BinsOf(ds)[k := BinAt(d)]
  {
    hide BinsOf, BinAt;
    SameBins(ds[k := d], BinsOf(ds)[k := BinAt(d)]);
  }

  lemma {:induction false} BinAtFacts(d: FrameDescriptor)
    requires Usable(d)
    ensures var bin := BinAt(d);
      (|bin.data|, bin.header, bin.time, bin.synced) == (d.frameSize, d.frameHeader, d.presentationTime, d.synced)
  {
  }

  lemma {:induction false} BinAtIs(d: FrameDescriptor, data: array<bv8>)
    requires Usable(d) && d.frameData == data
    ensures BinAt(d) == Bin(data[..d.frameSize], d.frameHeader, d.presentationTime, d.synced)
  {
  }

  lemma {:induction false} Emptied(ds: seq<FrameDescriptor>, k: nat)
    requires AllUsable(ds) && k < |ds|
    ensures Usable(ds[k].(frameSize := 0)) && DataOf(ds[k := ds[k].(frameSize := 0)]) == DataOf(ds)
    ensures BinAt(ds[k].(frameSize := 0)) == BinAt(ds[k]).(data := [])
  {
    var after := ds[k := ds[k].(frameSize := 0)];
    forall o | o in DataOf(ds)
      ensures o in DataOf(after)
    {
      var i :| 0 <= i < |ds| && ds[i].frameData == o;
      assert after[i] in after;
    }
    forall o | o in DataOf(after)
      ensures o in DataOf(ds)
    {
      var i :| 0 <= i < |ds| && after[i].frameData == o;
      assert ds[i] in ds;
    }
  }

  lemma {:induction false} EmptiedApart(a: seq<FrameDescriptor>, b: seq<FrameDescriptor>, input: array<bv8>, k: nat)
    requires Apart(a, b, input) && k < |b|
    ensures Apart(a, b[k := b[k].(frameSize := 0)], input)
  {
  }

  lemma {:induction false} DataAllocated(ds: seq<FrameDescriptor>)
    ensures forall o :: o in DataOf(ds) && o != null ==> allocated(o)
  {
  }

  lemma {:induction false} InData(ds: seq<FrameDescriptor>, k: nat)
    requires k < |ds| && AllUsable(ds)
    ensures ds[k].frameData in DataOf(ds) && Usable(ds[k])
    ensures ds[k].frameData == null || ds[k].frameData.Length == AMR_MAX_FRAME_SIZE
  {
  }

  /** A bank that has never been used. */
  lemma {:induction false} EmptyBank(ds: seq<FrameDescriptor>, empty: FrameDescriptor)
    requires empty.frameSize == 0 && empty.frameData == null && forall i :: 0 <= i < |ds| ==> ds[i] == empty
    ensures AllUsable(ds) && DataOf(ds) <= {null} && (forall i :: 0 <= i < |ds| ==> BinsOf(ds)[i].data == [])
    ensures forall i :: 0 <= i < |ds| ==> ds[i].frameData == null
  {
    hide BinsOf;
  }

  lemma {:induction false} SameBins(ds: seq<FrameDescriptor>, bins: seq<Bin>)
    requires AllUsable(ds) && |bins| == |ds| && forall i :: 0 <= i < |ds| ==> bins[i] == BinAt(ds[i])
    ensures BinsOf(ds) == bins
  {
    hide BinsOf, BinAt;
  }
}
