/** How the RTP source collects the packets of a frame, and what it does when some are missing. */
module Collecting {
  import opened Codecs
  import opened Options
  import opened NalFragments

  type Bytes = seq<bv8>

  /** The bytes of the frame collected so far, and whether a packet of it was lost. */
  datatype Collector = Collector(frame: Bytes, broken: bool)

  function Min(a: int, b: int): int {
    if a <= b then a else b
  }

  /** How many bytes fit behind what has been collected. */
  function Used(frame: Bytes, data: Bytes, limit: nat): (n: nat)
    ensures n <= |data|
  {
    Min(|data|, if limit > |frame| then limit - |frame| else 0)
  }

  /** One packet in doGetNextFrame1, for a client with room for `limit` bytes: the frame that it completes, if any. */
  function Feed(c: Codec, k: Collector, packet: Bytes, lossPrecededThis: bool, limit: nat): (Collector, Option<Bytes>) {
    match Receive(c, packet)
    case None => (k, None)
    case Some(r) =>
      var frame := if r.begins && (lossPrecededThis || k.broken) then [] else k.frame;
      var broken := !r.begins && (lossPrecededThis || k.broken);
      if broken then (Collector(frame, true), None)
      else
        var f := frame + r.data[..Used(frame, r.data, limit)];
        if r.completes && f != [] then (Collector([], false), Some(f)) else (Collector(f, false), None)
  }

  /** A packet that is rejected for its header hides a loss before it: here the packet with byte 2 is lost, an empty one
      arrives, and a frame without that byte is given out. */
  lemma {:induction false} RejectedPacketHidesLoss(limit: nat)
    requires limit >= 3
    ensures var (k1, f1) := Feed(H264, Collector([], false), [0x7C, 0x85, 1], true, limit);
      var (k2, f2) := Feed(H264, k1, [], true, limit);
      var (k3, f3) := Feed(H264, k2, [0x7C, 0x45, 3], false, limit);
      f1 == None && f2 == None && f3 == Some([0x65, 1, 3])
  {
    hide Receive, Used;
    SmallFragments();
    var d1: Bytes, d3: Bytes := [0x65, 1], [3];
    UsedAll([], d1, limit);
    UsedAll(d1, d3, limit);
    assert [] + d1[..2] == d1 && d1 + d3[..1] == [0x65, 1, 3];
    var k0, k1 := Collector([], false), Collector(d1, false);
    assert Feed(H264, k0, [0x7C, 0x85, 1], true, limit) == (k1, None);
    assert Feed(H264, k1, [], true, limit) == (k1, None);
  }

  lemma {:induction false} SmallFragments()
    ensures Receive(H264, [0x7C, 0x85, 1]) == Some(Received([0x65, 1], true, false))
    ensures Receive(H264, [0x7C, 0x45, 3]) == Some(Received([3], false, true))
    ensures Receive(H264, []) == None
  {
    var first: Bytes := [0x7C, 0x85, 1];
    assert [0x65] + first[2..] == [0x65, 1];
    var last: Bytes := [0x7C, 0x45, 3];
    assert last[2..] == [3];
  }

  lemma {:induction false} UsedAll(frame: Bytes, data: Bytes, limit: nat)
    requires |frame| + |data| <= limit
    ensures Used(frame, data, limit) == |data|
  {
  }

  /** Feeding the packets of `sent` that are in the mask; a packet behind one that is not is preceded by loss. */
  function Collect(c: Codec, k: Collector, lost: bool, sent: seq<Bytes>, mask: seq<bool>, limit: nat): (r: (Collector, bool, seq<Bytes>))
    requires |sent| == |mask|
    decreases |sent|
  {
    if sent == [] then (k, lost, [])
    else if !mask[0] then Collect(c, k, true, sent[1..], mask[1..], limit)
    else
      var (k', f) := Feed(c, k, sent[0], lost, limit);
      var (k'', lost'', fs) := Collect(c, k', false, sent[1..], mask[1..], limit);
      (k'', lost'', (if f.Some? then [f.value] else []) + fs)
  }

  /** Between units: whatever is left over from earlier packets will be forgotten. */
  predicate Between(k: Collector, lost: bool) {
    lost || k.broken || k.frame == []
  }

  /** Within a unit, of which the bytes before `off - 1` have been sent: nothing is missing so far. */
  predicate Whole(k: Collector, lost: bool, nal: Bytes, off: nat)
    requires 1 <= off <= |nal| + 1
  {
    if off == 1 then Between(k, lost) else !lost && !k.broken && k.frame == nal[..off - 1]
  }

  predicate All(mask: seq<bool>) {
    forall i :: 0 <= i < |mask| ==> mask[i]
  }

  /** A packet of a unit: with everything before it, it extends or completes the frame; otherwise it is rejected. */
  lemma {:induction false} FeedPacket(c: Codec, k: Collector, lost: bool, nal: Bytes, off: nat, m: nat, limit: nat)
    requires m >= MinLimit(c) && Sendable(c, nal, m) && 1 <= off <= |nal| && (off > 1 ==> |nal| > m) && limit >= |nal|
    ensures var next := NextOffset(c, nal, off, m);
      var (k', f) := Feed(c, k, Packet(c, nal, off, m), lost, limit);
      if Whole(k, lost, nal, off) then
        if next == |nal| + 1 then k' == Collector([], false) && f == Some(nal) else f == None && Whole(k', false, nal, next)
      else off > 1 && (lost || k.broken) ==> f == None && k'.broken
  {
    hide Packet, NextOffset, Receive, Sendable;
    PacketReceived(c, nal, off, m);
    var next := NextOffset(c, nal, off, m);
    if off == 1 {
      assert nal[0..next - 1] == nal[..next - 1];
    } else {
      assert nal[..off - 1] + nal[off - 1..next - 1] == nal[..next - 1];
    }
    if next == |nal| + 1 { assert nal[..next - 1] == nal; }
    var data := nal[off - 1..next - 1];
    assert data[..|data|] == data && [] + data == data;
    assert off == 1 && Between(k, lost) && !lost && !k.broken ==> k.frame + data == data;
  }

  lemma {:induction false} Regroup(a: seq<Bytes>, b: seq<Bytes>, c: seq<Bytes>)
    ensures a + (b + c) == (a + b) + c
  {
  }

  lemma {:induction false} CollectAppend(c: Codec, k: Collector, lost: bool, xs: seq<Bytes>, xmask: seq<bool>, ys: seq<Bytes>,
                                         ymask: seq<bool>, limit: nat)
    requires |xs| == |xmask| && |ys| == |ymask|
    ensures var (k', lost', fs) := Collect(c, k, lost, xs, xmask, limit);
      var (k'', lost'', gs) := Collect(c, k', lost', ys, ymask, limit);
      Collect(c, k, lost, xs + ys, xmask + ymask, limit) == (k'', lost'', fs + gs)
    decreases |xs|
  {
    hide Feed;
    if xs == [] {
      assert xs + ys == ys && xmask + ymask == ymask;
      var gs := Collect(c, k, lost, ys, ymask, limit).2;
      assert [] + gs == gs;
    } else {
      assert (xs + ys)[1..] == xs[1..] + ys && (xmask + ymask)[1..] == xmask[1..] + ymask;
      if xmask[0] {
        var (k', f) := Feed(c, k, xs[0], lost, limit);
        CollectAppend(c, k', false, xs[1..], xmask[1..], ys, ymask, limit);
        var (_, l, fs) := Collect(c, k', false, xs[1..], xmask[1..], limit);
        Regroup(if f.Some? then [f.value] else [], fs, Collect(c, Collect(c, k', false, xs[1..], xmask[1..], limit).0, l, ys, ymask, limit).2);
      } else {
        CollectAppend(c, k, true, xs[1..], xmask[1..], ys, ymask, limit);
      }
    }
  }

  lemma {:induction false} PacketsFirst(c: Codec, nal: Bytes, off: nat, m: nat)
    requires m >= MinLimit(c) && Sendable(c, nal, m) && 1 <= off <= |nal| && (off > 1 ==> |nal| > m)
    ensures var next := NextOffset(c, nal, off, m);
      && Packets(c, nal, off, m) == [Packet(c, nal, off, m)] + Packets(c, nal, next, m)
      && (next == |nal| + 1 ==> Packets(c, nal, next, m) == [])
      && (next <= |nal| ==> |nal| > m)
  {
    hide Packet;
    var next := NextOffset(c, nal, off, m);
    if next <= |nal| { NextStaysInside(c, nal, off, m); }
  }

  lemma {:induction false} CollectStep(c: Codec, k: Collector, lost: bool, packet: Bytes, rest: seq<Bytes>, mask: seq<bool>, limit: nat)
    requires |mask| == |rest| + 1
    ensures Collect(c, k, lost, [packet] + rest, mask, limit) ==
            if !mask[0] then Collect(c, k, true, rest, mask[1..], limit)
            else
              var (k', f) := Feed(c, k, packet, lost, limit);
              var (k'', lost'', fs) := Collect(c, k', false, rest, mask[1..], limit);
              (k'', lost'', (if f.Some? then [f.value] else []) + fs)
  {
    hide Feed;
    assert ([packet] + rest)[1..] == rest;
  }

  /** The packets of a unit from `off` on: the unit is given out if nothing of it is missing, and otherwise nothing is; and
      what follows does not suffer. */
  lemma {:induction false} CollectUnit(c: Codec, k: Collector, lost: bool, nal: Bytes, off: nat, m: nat, mask: seq<bool>, limit: nat)
    requires m >= MinLimit(c) && Sendable(c, nal, m) && 1 <= off <= |nal| && (off > 1 ==> |nal| > m) && limit >= |nal|
    requires |mask| == |Packets(c, nal, off, m)|
    requires Whole(k, lost, nal, off) || (off > 1 && (lost || k.broken))
    ensures var (k', lost', fs) := Collect(c, k, lost, Packets(c, nal, off, m), mask, limit);
      Between(k', lost') && fs == if Whole(k, lost, nal, off) && All(mask) then [nal] else []
    decreases |nal| - off
  {
    hide Packets, Packet, NextOffset, Receive, Sendable, Feed, Collect, All;
    var p, next := Packet(c, nal, off, m), NextOffset(c, nal, off, m);
    var rest := Packets(c, nal, next, m);
    PacketsFirst(c, nal, off, m);
    FeedPacket(c, k, lost, nal, off, m, limit);
    CollectStep(c, k, lost, p, rest, mask, limit);
    AllFirst(mask);
    var (k', f) := if mask[0] then Feed(c, k, p, lost, limit) else (k, None);
    if next == |nal| + 1 {
      assert mask[1..] == [];
      AllNone();
      CollectEmpty(c, k', !mask[0], limit);
    } else {
      CollectUnit(c, k', !mask[0], nal, next, m, mask[1..], limit);
    }
  }

  lemma {:induction false} AllFirst(mask: seq<bool>)
    requires mask != []
    ensures All(mask) <==> mask[0] && All(mask[1..])
  {
  }

  lemma {:induction false} AllNone()
    ensures All([])
  {
  }

  // ---------- Units that do not fit ----------

  /** Within a unit, of which the client's buffer has as much as it can hold of the bytes sent. */
  predicate Filled(k: Collector, lost: bool, nal: Bytes, off: nat, limit: nat)
    requires 1 <= off <= |nal| + 1
  {
    if off == 1 then Between(k, lost) else !lost && !k.broken && k.frame == nal[..Min(off - 1, limit)]
  }

  lemma {:induction false} FillMore(nal: Bytes, i: nat, j: nat, limit: nat)
    requires i <= j <= |nal|
    ensures var frame, data := nal[..Min(i, limit)], nal[i..j];
      frame + data[..Used(frame, data, limit)] == nal[..Min(j, limit)]
  {
    var frame, data := nal[..Min(i, limit)], nal[i..j];
    var n := Used(frame, data, limit);
    if i <= limit {
      assert data[..n] == nal[i..i + n];
      assert nal[..i] + nal[i..i + n] == nal[..i + n];
    } else {
      assert data[..n] == [] && frame + [] == frame;
    }
  }

  lemma {:induction false} FeedFills(c: Codec, k: Collector, lost: bool, nal: Bytes, off: nat, m: nat, limit: nat)
    requires m >= MinLimit(c) && Sendable(c, nal, m) && 1 <= off <= |nal| && (off > 1 ==> |nal| > m) && limit > 0
    requires Filled(k, lost, nal, off, limit)
    ensures var next := NextOffset(c, nal, off, m);
      var (k', f) := Feed(c, k, Packet(c, nal, off, m), lost, limit);
      if next == |nal| + 1 then k' == Collector([], false) && f == Some(nal[..Min(|nal|, limit)])
      else f == None && Filled(k', false, nal, next, limit)
  {
    hide Packet, NextOffset, Receive, Sendable, Used;
    PacketReceived(c, nal, off, m);
    var next := NextOffset(c, nal, off, m);
    FillMore(nal, off - 1, next - 1, limit);
    assert nal[..Min(0, limit)] == [];
  }

  /** When all packets of a unit arrive, a client with less room than it needs gets the beginning of it. */
  lemma {:induction false} LongUnitIsCut(c: Codec, k: Collector, lost: bool, nal: Bytes, off: nat, m: nat, mask: seq<bool>, limit: nat)
    requires m >= MinLimit(c) && Sendable(c, nal, m) && 1 <= off <= |nal| && (off > 1 ==> |nal| > m) && limit > 0
    requires |mask| == |Packets(c, nal, off, m)| && All(mask) && Filled(k, lost, nal, off, limit)
    ensures Collect(c, k, lost, Packets(c, nal, off, m), mask, limit) ==
            (Collector([], false), false, [if limit < |nal| then nal[..limit] else nal])
    decreases |nal| - off
  {
    hide Packets, Packet, NextOffset, Receive, Sendable, Feed, Collect, All;
    var p, next := Packet(c, nal, off, m), NextOffset(c, nal, off, m);
    var rest := Packets(c, nal, next, m);
    PacketsFirst(c, nal, off, m);
    FeedFills(c, k, lost, nal, off, m, limit);
    CollectStep(c, k, lost, p, rest, mask, limit);
    AllFirst(mask);
    var (k', f) := Feed(c, k, p, lost, limit);
    var cut := if limit < |nal| then nal[..limit] else nal;
    if next == |nal| + 1 {
      assert mask[1..] == [];
      CollectEmpty(c, k', false, limit);
      assert nal[..|nal|] == nal && f.value == cut;
      assert [cut] + [] == [cut];
    } else {
      LongUnitIsCut(c, k', false, nal, next, m, mask[1..], limit);
      assert [] + [cut] == [cut];
    }
  }

  // ---------- Streams ----------

  /** The units of which every packet is in the mask. */
  function Intact(c: Codec, nals: seq<Bytes>, m: nat, mask: seq<bool>): seq<Bytes>
    requires m >= MinLimit(c)
  {
    if nals == [] then []
    else
      var n := |Packets(c, nals[0], 1, m)|;
      if n > |mask| then [] else (if All(mask[..n]) then [nals[0]] else []) + Intact(c, nals[1..], m, mask[n..])
  }

  predicate AllSendable(c: Codec, nals: seq<Bytes>, m: nat, limit: nat) {
    forall i :: 0 <= i < |nals| ==> Sendable(c, nals[i], m) && |nals[i]| <= limit
  }

  /** Whatever packets of a stream are missing, exactly the units of which all packets are there are given out, each intact,
      in order. */
  lemma {:induction false} CollectsIntactUnits(c: Codec, k: Collector, lost: bool, nals: seq<Bytes>, m: nat, mask: seq<bool>, limit: nat)
    requires m >= MinLimit(c) && AllSendable(c, nals, m, limit) && |mask| == |Stream(c, nals, m)| && Between(k, lost)
    ensures Collect(c, k, lost, Stream(c, nals, m), mask, limit).2 == Intact(c, nals, m, mask)
    decreases |nals|
  {
    hide Packets, Sendable, Feed, Collect, All;
    if nals == [] {
      assert mask == [];
      CollectEmpty(c, k, lost, limit);
    } else {
      var ps, rest := Packets(c, nals[0], 1, m), Stream(c, nals[1..], m);
      var n := |ps|;
      SendableNonEmpty(c, nals[0], m);
      CollectUnit(c, k, lost, nals[0], 1, m, mask[..n], limit);
      var (k', lost', fs) := Collect(c, k, lost, ps, mask[..n], limit);
      CollectsIntactUnits(c, k', lost', nals[1..], m, mask[n..], limit);
      CollectAppend(c, k, lost, ps, mask[..n], rest, mask[n..], limit);
      assert mask == mask[..n] + mask[n..];
    }
  }

  lemma {:induction false} CollectEmpty(c: Codec, k: Collector, lost: bool, limit: nat)
    ensures Collect(c, k, lost, [], [], limit) == (k, lost, [])
  {
  }

  // ---------- Packets as they are taken ----------

  predicate Increasing(taken: seq<nat>) {
    forall i, j :: 0 <= i < j < |taken| ==> taken[i] < taken[j]
  }

  /** A packet is preceded by loss if it is the first one, or not the one behind the last one taken. */
  predicate Lost(taken: seq<nat>, n: nat) {
    taken == [] || n != taken[|taken| - 1] + 1
  }

  /** Feeding packets of `sent`, by number, as they are taken. */
  function CollectTaken(c: Codec, sent: seq<Bytes>, taken: seq<nat>, limit: nat): (Collector, seq<Bytes>)
    requires forall i :: 0 <= i < |taken| ==> taken[i] < |sent|
  {
    if taken == [] then (Collector([], false), [])
    else
      var front, n := taken[..|taken| - 1], taken[|taken| - 1];
      var (k, fs) := CollectTaken(c, sent, front, limit);
      var (k', f) := Feed(c, k, sent[n], Lost(front, n), limit);
      (k', fs + if f.Some? then [f.value] else [])
  }

  function Mask(p: nat, taken: seq<nat>): (mask: seq<bool>)
    ensures |mask| == p
  {
    seq(p, i requires 0 <= i < p => i in taken)
  }

  lemma {:induction false} TakenIsMasked(c: Codec, sent: seq<Bytes>, taken: seq<nat>, p: nat, limit: nat)
    requires Increasing(taken) && p <= |sent| && forall i :: 0 <= i < |taken| ==> taken[i] < p
    ensures var (k, fs) := CollectTaken(c, sent, taken, limit);
      Collect(c, Collector([], false), true, sent[..p], Mask(p, taken), limit) == (k, Lost(taken, p), fs)
    decreases p
  {
    hide Feed, Collect, Mask, CollectTaken;
    var k0 := Collector([], false);
    if p == 0 {
      assert sent[..p] == [] && Mask(p, taken) == [];
      CollectEmpty(c, k0, true, limit);
      NothingTaken(c, sent, limit);
    } else {
      var sent', q := sent[..p - 1], p - 1;
      assert sent[..p] == sent' + [sent[q]];
      if taken != [] && taken[|taken| - 1] == q {
        var front := taken[..|taken| - 1];
        TakenIsMasked(c, sent, front, q, limit);
        MaskTaken(q, taken);
        CollectAppend(c, k0, true, sent', Mask(q, front), [sent[q]], [true], limit);
        var (k, fs) := CollectTaken(c, sent, front, limit);
        CollectOne(c, k, Lost(front, q), sent[q], true, limit);
        TakenStep(c, sent, taken, limit);
      } else {
        TakenIsMasked(c, sent, taken, q, limit);
        MaskMissing(q, taken);
        CollectAppend(c, k0, true, sent', Mask(q, taken), [sent[q]], [false], limit);
        var (k, fs) := CollectTaken(c, sent, taken, limit);
        CollectOne(c, k, Lost(taken, q), sent[q], false, limit);
        assert fs + [] == fs;
      }
    }
  }

  lemma {:induction false} NothingTaken(c: Codec, sent: seq<Bytes>, limit: nat)
    ensures CollectTaken(c, sent, [], limit) == (Collector([], false), [])
  {
  }

  lemma {:induction false} TakenStep(c: Codec, sent: seq<Bytes>, taken: seq<nat>, limit: nat)
    requires taken != [] && forall i :: 0 <= i < |taken| ==> taken[i] < |sent|
    ensures var front, n := taken[..|taken| - 1], taken[|taken| - 1];
      var (k, fs) := CollectTaken(c, sent, front, limit);
      var (k', f) := Feed(c, k, sent[n], Lost(front, n), limit);
      CollectTaken(c, sent, taken, limit) == (k', fs + if f.Some? then [f.value] else [])
  {
    hide Feed;
  }

  lemma {:induction false} CollectOne(c: Codec, k: Collector, lost: bool, packet: Bytes, there: bool, limit: nat)
    ensures Collect(c, k, lost, [packet], [there], limit) ==
            if there then
              var (k', f) := Feed(c, k, packet, lost, limit); (k', false, if f.Some? then [f.value] else [])
            else (k, true, [])
  {
    hide Feed, Collect;
    CollectStep(c, k, lost, packet, [], [there], limit);
    assert [packet] + [] == [packet] && [there][1..] == [];
    var (k', f) := Feed(c, k, packet, lost, limit);
    CollectEmpty(c, k', false, limit);
    CollectEmpty(c, k, true, limit);
    assert (if f.Some? then [f.value] else []) + [] == if f.Some? then [f.value] else [];
  }

  lemma {:induction false} MaskTaken(q: nat, taken: seq<nat>)
    requires Increasing(taken) && taken != [] && taken[|taken| - 1] == q
    ensures var front := taken[..|taken| - 1]; Mask(q + 1, taken) == Mask(q, front) + [true]
    ensures var front := taken[..|taken| - 1]; Increasing(front) && forall i :: 0 <= i < |front| ==> front[i] < q
  {
    var front := taken[..|taken| - 1];
    forall i | 0 <= i < q
      ensures i in taken <==> i in front
    {
      if i in taken {
        var j :| 0 <= j < |taken| && taken[j] == i;
        assert front[j] == i;
      }
    }
  }

  lemma {:induction false} MaskMissing(q: nat, taken: seq<nat>)
    requires Increasing(taken) && forall i :: 0 <= i < |taken| ==> taken[i] < q
    ensures Mask(q + 1, taken) == Mask(q, taken) + [false]
  {
  }

  /** However packets of a stream are taken, with numbers that grow, what is given out are exactly the units of which all
      packets were taken. */
  lemma {:induction false} TakenUnitsIntact(c: Codec, nals: seq<Bytes>, m: nat, taken: seq<nat>, limit: nat)
    requires m >= MinLimit(c) && AllSendable(c, nals, m, limit) && Increasing(taken)
    requires forall i :: 0 <= i < |taken| ==> taken[i] < |Stream(c, nals, m)|
    ensures var sent := Stream(c, nals, m);
      CollectTaken(c, sent, taken, limit).1 == Intact(c, nals, m, Mask(|sent|, taken))
  {
    hide Feed, Collect, Mask, CollectTaken, Stream, Intact;
    var sent := Stream(c, nals, m);
    TakenIsMasked(c, sent, taken, |sent|, limit);
    assert sent[..|sent|] == sent;
    CollectsIntactUnits(c, Collector([], false), true, nals, m, Mask(|sent|, taken), limit);
  }
}
