/** The de-interleaver with a client that keeps asking: frames are read only when no bin is left to give out. */
module AmrSessions {
  import opened Options
  import opened AmrBins
  import opened AmrTheorems
  import opened AmrDeinterleavers

  lemma {:induction false} DrainStep(b: Buffer, maxSize: nat)
    requires b.outgoingMax <= |b.outgoing|
    ensures Drained(b) ==> RetrieveAny(b, maxSize) == (b, None) && Drain(b, maxSize) == (b, [])
    ensures !Drained(b) ==>
              var (c, o) := RetrieveAny(b, maxSize);
              o.Some? && c.outgoingMax == b.outgoingMax && c.nextOutgoing == b.nextOutgoing + 1 && |c.outgoing| == |b.outgoing|
              && Drain(b, maxSize) == (Drain(c, maxSize).0, [o.value] + Drain(c, maxSize).1)
  {
    hide NextSynced, After;
  }

  lemma {:induction false} AppendOne(all: seq<Output>, done: seq<Output>, o: Output, rest: seq<Output>)
    requires all == done + ([o] + rest)
    ensures all == (done + [o]) + rest
  {
  }

  /** The client takes frames until doGetNextFrame has to ask the source for another one. */
  method TakeAll(buffer: AMRDeinterleavingBuffer, to: array<bv8>) returns (outputs: seq<Output>)
    requires buffer.Valid() && buffer.Foreign(to) && to.Length == AMR_MAX_FRAME_SIZE
    requires buffer.fOutgoingBinMax <= buffer.fMaxInterleaveGroupSize
    modifies buffer, buffer.fFrames0, buffer.fFrames1, to
    ensures buffer.Valid() && buffer.Foreign(to)
    ensures buffer.Buffers() == old(buffer.Buffers()) && buffer.fInputBuffer == old(buffer.fInputBuffer)
    ensures (buffer.Model(), outputs) == Drain(old(buffer.Model()), AMR_MAX_FRAME_SIZE)
  {
    hide BinsOf, BinAt, Apart, AllUsable, DataOf, Drain, Retrieve, RetrieveAny;
    outputs := [];
    ghost var b := buffer.Model();
    while true
      invariant buffer.Valid() && buffer.Foreign(to) && buffer.fOutgoingBinMax <= buffer.fMaxInterleaveGroupSize
      invariant buffer.Buffers() == old(buffer.Buffers()) && buffer.fInputBuffer == old(buffer.fInputBuffer)
      invariant Drain(b, AMR_MAX_FRAME_SIZE).0 == Drain(buffer.Model(), AMR_MAX_FRAME_SIZE).0
      invariant Drain(b, AMR_MAX_FRAME_SIZE).1 == outputs + Drain(buffer.Model(), AMR_MAX_FRAME_SIZE).1
      decreases buffer.fOutgoingBinMax - buffer.fNextOutgoingBin
    {
      DrainStep(buffer.Model(), AMR_MAX_FRAME_SIZE);
      var result := buffer.RetrieveFrame(to, AMR_MAX_FRAME_SIZE);
      if result == None {
        assert outputs + [] == outputs;
        break;
      }
      AppendOne(Drain(b, AMR_MAX_FRAME_SIZE).1, outputs, result.value, Drain(buffer.Model(), AMR_MAX_FRAME_SIZE).1);
      outputs := outputs + [result.value];
    }
  }

  ghost predicate Playing(buffer: AMRDeinterleavingBuffer, p: Layout)
    reads buffer, buffer.fFrames0, buffer.fFrames1, buffer.Buffers()
  {
    && buffer.Valid() && Ready(buffer.Model(), p)
    && buffer.fNumChannels == p.channels && buffer.fMaxInterleaveGroupSize == p.groupSize
  }

  lemma {:induction false} ServeFacts(b: Buffer, f: Frame, p: Layout)
    requires Ready(b, p) && Sound([f])
    ensures Sane(f) && |f.data| <= AMR_MAX_FRAME_SIZE && p.channels > 0 && |b.incoming| == |b.outgoing| == p.groupSize > 0
    ensures Deliver(b, f, p.channels).outgoingMax <= p.groupSize == |Deliver(b, f, p.channels).outgoing|
    ensures DeliverAndDrain(b, f, p) == Drain(Deliver(b, f, p.channels), AMR_MAX_FRAME_SIZE)
  {
    hide Deliver, Drain, Fits;
    assert Sane([f][0]);
    DeliverShaped(b, f, p.channels, p.groupSize);
  }

  /** A frame is read into the input buffer and delivered, and the client takes what it can. */
  method Serve(buffer: AMRDeinterleavingBuffer, f: Frame, to: array<bv8>, ghost p: Layout) returns (outputs: seq<Output>)
    requires Playing(buffer, p) && Sound([f]) && buffer.Foreign(to) && to.Length == AMR_MAX_FRAME_SIZE
    modifies buffer, buffer.fFrames0, buffer.fFrames1, buffer.fInputBuffer, to
    ensures Playing(buffer, p) && buffer.Foreign(to)
    ensures buffer.Buffers() <= old(buffer.Buffers()) + {buffer.fInputBuffer}
    ensures buffer.fInputBuffer in old(buffer.Buffers()) || fresh(buffer.fInputBuffer)
    ensures (buffer.Model(), outputs) == DeliverAndDrain(old(buffer.Model()), f, p)
  {
    hide BinsOf, BinAt, Apart, AllUsable, DataOf, Drain, Deliver, Ready;
    ghost var b := buffer.Model();
    ServeFacts(b, f, p);
    buffer.ReadFrame(f.data);
    buffer.DeliverIncomingFrame(f);
    outputs := TakeAll(buffer, to);
  }

  lemma {:induction false} RunNext(b: Buffer, frames: seq<Frame>, k: nat, p: Layout)
    requires Ready(b, p) && Sound(frames) && k < |frames|
    ensures Sound(frames[..k]) && Sound([frames[k]]) && Sound(frames[..k + 1]) && Ready(Run(b, frames[..k], p).0, p)
    ensures var (c, os) := Run(b, frames[..k], p);
      var (d, more) := DeliverAndDrain(c, frames[k], p);
      Run(b, frames[..k + 1], p) == (d, os + more)
  {
    hide DeliverAndDrain, Ready, Run;
    assert frames[..k + 1] == frames[..k] + [frames[k]];
    RunAppend(b, frames[..k], [frames[k]], p);
    RunOne(Run(b, frames[..k], p).0, frames[k], p);
  }

  /** A whole session. */
  method ServeAll(buffer: AMRDeinterleavingBuffer, frames: seq<Frame>, to: array<bv8>, ghost p: Layout) returns (outputs: seq<Output>)
    requires Playing(buffer, p) && Sound(frames) && buffer.Foreign(to) && to.Length == AMR_MAX_FRAME_SIZE
    modifies buffer, buffer.fFrames0, buffer.fFrames1, buffer.fInputBuffer, buffer.Buffers(), to
    ensures Playing(buffer, p)
    ensures (buffer.Model(), outputs) == Run(old(buffer.Model()), frames, p)
  {
    hide DeliverAndDrain, Ready, Run, Sound, BinsOf, BinAt, Apart, AllUsable, DataOf;
    outputs := [];
    ghost var b := buffer.Model();
    RunEmpty(b, p);
    for k := 0 to |frames|
      invariant Playing(buffer, p) && buffer.Foreign(to)
      invariant Sound(frames[..k]) && (buffer.Model(), outputs) == Run(b, frames[..k], p)
      invariant forall o :: o in buffer.Buffers() ==> o in old(buffer.Buffers()) || fresh(o)
    {
      RunNext(b, frames, k, p);
      var more := Serve(buffer, frames[k], to, p);
      outputs := outputs + more;
    }
    assert frames[..|frames|] == frames;
  }

  /** A new buffer that plays a stream gives out its groups in order. */
  method PlayStream(groups: seq<Group>, p: Layout) returns (outputs: seq<Output>)
    requires Proper(p) && groups != [] && Stream(groups, p) && AllSmall(groups, p)
    ensures Shown(outputs) == Expected(groups, 0, 0, p)
  {
    hide DeliverAndDrain, Run, Sound, BinsOf, BinAt, Apart, AllUsable, DataOf, Expected, Stream, Shown, Flat;
    Times(1, p.ill + 1, p.channels);
    var to := new bv8[AMR_MAX_FRAME_SIZE];
    var buffer := new AMRDeinterleavingBuffer(p.channels, p.groupSize);
    GroupsComeOutInOrder(buffer.Model(), groups, p);
    outputs := ServeAll(buffer, Flat(groups), to, p);
  }
}
