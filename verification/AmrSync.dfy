/** Which of the frames given out count as synchronized. */
module AmrSync {
  import opened AmrBins
  import opened AmrTheorems

  /** The last `n` of the bins given out were all synchronized, and there have been as many. */
  predicate LastAll(flags: seq<bool>, n: nat) {
    n <= |flags| && forall i :: |flags| - n <= i < |flags| ==> flags[i]
  }

  /** How many of the last bins were synchronized without a break, counted up to `cap`. */
  function Trail(flags: seq<bool>, cap: nat): (n: nat)
    ensures n <= cap
  {
    if flags == [] || !flags[|flags| - 1] then 0
    else
      var n := Trail(flags[..|flags| - 1], cap);
      if n + 1 > cap then cap else n + 1
  }

  lemma {:induction false} TrailIff(flags: seq<bool>, cap: nat, n: nat)
    requires n <= cap
    ensures Trail(flags, cap) >= n <==> LastAll(flags, n)
    decreases |flags|
  {
    if flags != [] && n > 0 {
      var front := flags[..|flags| - 1];
      TrailIff(front, cap, n - 1);
      if flags[|flags| - 1] && LastAll(front, n - 1) {
        assert forall i :: |flags| - n <= i < |flags| - 1 ==> flags[i] == front[i];
      }
      if LastAll(flags, n) {
        assert forall i :: |front| - (n - 1) <= i < |front| ==> front[i] == flags[i];
      }
    }
  }

  /** One more bin is given out. */
  lemma {:induction false} SyncedStep(flags: seq<bool>, ill: nat, synced: bool)
    ensures NextSynced(Trail(flags, ill + 1), ill, synced) == (Trail(flags + [synced], ill + 1), LastAll(flags + [synced], ill + 1))
  {
    hide LastAll;
    assert (flags + [synced])[..|flags|] == flags;
    TrailIff(flags + [synced], ill + 1, ill + 1);
  }

  /** The marks of the bins that are left in the outgoing bank. */
  function BinFlags(bins: seq<Bin>, next: nat, max: nat): seq<bool>
    requires max <= |bins|
    decreases max - next
  {
    if next >= max then [] else [bins[next].synced] + BinFlags(bins, next + 1, max)
  }

  lemma {:induction false} SameFlags(a: seq<Bin>, b: seq<Bin>, next: nat, max: nat)
    requires max <= |a| == |b| && forall i :: next <= i < max ==> a[i].synced == b[i].synced
    ensures BinFlags(a, next, max) == BinFlags(b, next, max)
    decreases max - next
  {
    if next < max { SameFlags(a, b, next + 1, max); }
  }

  /** Each output counts as synchronized just when it and the bins before it, as many as the source asks for, were. */
  predicate Marked(os: seq<Output>, before: seq<bool>, flags: seq<bool>, ill: nat) {
    |os| == |flags| && forall i :: 0 <= i < |os| ==> (os[i].synced <==> LastAll(before + flags[..i + 1], ill + 1))
  }

  lemma {:induction false} MarkedConcat(a: seq<Output>, b: seq<Output>, before: seq<bool>, x: seq<bool>, y: seq<bool>, ill: nat)
    requires Marked(a, before, x, ill) && Marked(b, before + x, y, ill)
    ensures Marked(a + b, before, x + y, ill)
  {
    hide LastAll;
    forall i | 0 <= i < |a + b|
      ensures (a + b)[i].synced <==> LastAll(before + (x + y)[..i + 1], ill + 1)
    {
      if i < |a| {
        assert (x + y)[..i + 1] == x[..i + 1];
      } else {
        assert before + (x + y)[..i + 1] == (before + x) + y[..i - |a| + 1];
      }
    }
  }

  lemma {:induction false} MarkedOne(o: Output, before: seq<bool>, synced: bool, ill: nat)
    requires o.synced <==> LastAll(before + [synced], ill + 1)
    ensures Marked([o], before, [synced], ill)
  {
    hide LastAll;
    assert [synced][..1] == [synced];
  }

  lemma {:induction false} DrainMarks(b: Buffer, maxSize: nat, before: seq<bool>)
    requires b.outgoingMax <= |b.outgoing| && b.syncedRun == Trail(before, b.ill + 1)
    ensures var (c, os) := Drain(b, maxSize);
      var flags := BinFlags(b.outgoing, b.nextOutgoing, b.outgoingMax);
      && Marked(os, before, flags, b.ill)
      && c.ill == b.ill && c.syncedRun == Trail(before + flags, b.ill + 1)
    decreases b.outgoingMax - b.nextOutgoing
  {
    hide Trail, LastAll, NextSynced, Marked;
    if !Drained(b) {
      var (c, o) := Retrieve(b, maxSize);
      var synced := b.outgoing[b.nextOutgoing].synced;
      SyncedStep(before, b.ill, synced);
      MarkedOne(o, before, synced, b.ill);
      DrainMarks(c, maxSize, before + [synced]);
      SameFlags(c.outgoing, b.outgoing, c.nextOutgoing, b.outgoingMax);
      var rest := BinFlags(b.outgoing, c.nextOutgoing, b.outgoingMax);
      MarkedConcat([o], Drain(c, maxSize).1, before, [synced], rest, b.ill);
      assert before + ([synced] + rest) == (before + [synced]) + rest;
    } else {
      NoneMarked(before, b.ill);
      assert before + [] == before;
    }
  }

  lemma {:induction false} NoneMarked(before: seq<bool>, ill: nat)
    ensures Marked([], before, [], ill)
  {
  }

  /** The marks of all bins given out in a run. */
  function RunFlags(b: Buffer, frames: seq<Frame>, p: Layout): seq<bool>
    requires Ready(b, p) && Sound(frames)
    decreases |frames|
  {
    if frames == [] then []
    else
      assert Sound([frames[0]]);
      assert Sane([frames[0]][0]);
      var c := Deliver(b, frames[0], p.channels);
      assert c.outgoingMax <= |c.outgoing| by { DeliverShaped(b, frames[0], p.channels, p.groupSize); }
      BinFlags(c.outgoing, c.nextOutgoing, c.outgoingMax) + RunFlags(DeliverAndDrain(b, frames[0], p).0, frames[1..], p)
  }

  lemma {:induction false} DeliveredMarks(b: Buffer, f: Frame, p: Layout, before: seq<bool>)
    requires Ready(b, p) && Sound([f]) && b.syncedRun == Trail(before, f.ill + 1)
    ensures Sane(f) && p.channels > 0 && |b.incoming| == |b.outgoing| > 0
    ensures var c := Deliver(b, f, p.channels);
      && c.outgoingMax <= |c.outgoing|
      && var (d, os) := DeliverAndDrain(b, f, p);
         var flags := BinFlags(c.outgoing, c.nextOutgoing, c.outgoingMax);
         Marked(os, before, flags, f.ill) && d.syncedRun == Trail(before + flags, f.ill + 1)
  {
    hide Trail, Marked, BinOf, HeaderOf, TimeOf, StartsGroup, FrameBlock, Drain, Fits;
    assert Sane([f][0]);
    DeliverShaped(b, f, p.channels, p.groupSize);
    DrainMarks(Deliver(b, f, p.channels), AMR_MAX_FRAME_SIZE, before);
  }

  /** Over every run with a constant interleaving length, a frame given out counts as synchronized exactly when the last
      ILL + 1 bins given out, its own included, were all synchronized. */
  lemma {:induction false} SyncedIff(b: Buffer, frames: seq<Frame>, p: Layout, before: seq<bool>)
    requires Ready(b, p) && Sound(frames) && b.syncedRun == Trail(before, p.ill + 1)
    requires forall i :: 0 <= i < |frames| ==> frames[i].ill == p.ill
    ensures Marked(Run(b, frames, p).1, before, RunFlags(b, frames, p), p.ill)
    decreases |frames|
  {
    hide Trail, Marked, DeliverAndDrain, Ready, Sound, BinFlags, Deliver;
    if frames == [] {
      NoneMarked(before, p.ill);
    } else {
      var f := frames[0];
      FirstSound(frames);
      DeliveredMarks(b, f, p, before);
      var (d, os) := DeliverAndDrain(b, f, p);
      var c := Deliver(b, f, p.channels);
      var flags := BinFlags(c.outgoing, c.nextOutgoing, c.outgoingMax);
      SyncedIff(d, frames[1..], p, before + flags);
      MarkedConcat(os, Run(d, frames[1..], p).1, before, flags, RunFlags(d, frames[1..], p), p.ill);
    }
  }

  lemma {:induction false} FirstSound(frames: seq<Frame>)
    requires Sound(frames) && frames != []
    ensures Sound([frames[0]]) && Sound(frames[1..]) && Sane(frames[0])
  {
  }

  /** The same for a new buffer, place by place. */
  lemma {:induction false} SyncedFromStart(b: Buffer, frames: seq<Frame>, p: Layout)
    requires Ready(b, p) && Sound(frames) && b.syncedRun == 0
    requires forall i :: 0 <= i < |frames| ==> frames[i].ill == p.ill
    ensures var os, flags := Run(b, frames, p).1, RunFlags(b, frames, p);
      && |os| == |flags|
      && forall i :: 0 <= i < |os| ==> (os[i].synced <==> i >= p.ill && forall j :: i - p.ill <= j <= i ==> flags[j])
  {
    hide Ready, Sound, Run, RunFlags;
    SyncedIff(b, frames, p, []);
    var os, flags := Run(b, frames, p).1, RunFlags(b, frames, p);
    forall i | 0 <= i < |os|
      ensures os[i].synced <==> i >= p.ill && forall j :: i - p.ill <= j <= i ==> flags[j]
    {
      assert [] + flags[..i + 1] == flags[..i + 1];
    }
  }
}
