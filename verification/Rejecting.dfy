/** Packets that are rejected for their headers. Such a packet uses up the loss that was noticed before it, so that loss within a
    unit can go unnoticed; and when one is itself lost, loss is noticed where nothing of a unit is missing. */
module Rejecting {
  import opened Codecs
  import opened Options
  import opened NalFragments
  import opened Collecting

  /** processSpecialHeader refuses the packet: it is too short for its header. */
  predicate Rejected(c: Codec, packet: Bytes) {
    match c
    case H264 => |packet| < 1 || (Fragmented(c, packet) && |packet| < 2)
    case H265 => |packet| < 2 || (Fragmented(c, packet) && |packet| < 3)
  }

  lemma {:induction false} RejectedIsNotReceived(c: Codec, packet: Bytes)
    ensures Rejected(c, packet) ==> Receive(c, packet) == None
  {
  }

  // ---------- A stream with rejected packets in it ----------

  function Accepted(c: Codec, items: seq<Bytes>): seq<Bytes> {
    if items == [] then [] else (if Rejected(c, items[0]) then [] else [items[0]]) + Accepted(c, items[1..])
  }

  /** Which of the accepted packets are there. */
  function AcceptedMask(c: Codec, items: seq<Bytes>, mask: seq<bool>): (r: seq<bool>)
    requires |items| == |mask|
    ensures |r| == |Accepted(c, items)|
  {
    if items == [] then [] else (if Rejected(c, items[0]) then [] else [mask[0]]) + AcceptedMask(c, items[1..], mask[1..])
  }

  /** Before which of the accepted packets loss is noticed: those directly behind a packet, rejected or not, that is not there. */
  function AcceptedFlags(c: Codec, lost: bool, items: seq<Bytes>, mask: seq<bool>): (r: seq<bool>)
    requires |items| == |mask|
    ensures |r| == |Accepted(c, items)|
    decreases |items|
  {
    if items == [] then []
    else (if Rejected(c, items[0]) then [] else [lost]) + AcceptedFlags(c, !mask[0], items[1..], mask[1..])
  }

  /** Feeding the packets that are there, with the loss noticed before each of them. */
  function CollectFlagged(c: Codec, k: Collector, sent: seq<Bytes>, mask: seq<bool>, flags: seq<bool>, limit: nat): (r: (Collector, seq<Bytes>))
    requires |sent| == |mask| == |flags|
    decreases |sent|
  {
    if sent == [] then (k, [])
    else if !mask[0] then CollectFlagged(c, k, sent[1..], mask[1..], flags[1..], limit)
    else
      var (k', f) := Feed(c, k, sent[0], flags[0], limit);
      var (k'', fs) := CollectFlagged(c, k', sent[1..], mask[1..], flags[1..], limit);
      (k'', (if f.Some? then [f.value] else []) + fs)
  }

  /** What the rejected packets leave behind is the loss that is noticed, and the loss that is not. */
  lemma {:induction false} RejectedOnlyFlag(c: Codec, k: Collector, lost: bool, items: seq<Bytes>, mask: seq<bool>, limit: nat)
    requires |items| == |mask|
    ensures var (k', _, fs) := Collect(c, k, lost, items, mask, limit);
      (k', fs) == CollectFlagged(c, k, Accepted(c, items), AcceptedMask(c, items, mask), AcceptedFlags(c, lost, items, mask), limit)
    decreases |items|
  {
    hide Rejected;
    if items != [] {
      var rest, more := items[1..], mask[1..];
      if Rejected(c, items[0]) {
        RejectedIsNotReceived(c, items[0]);
        RejectedOnlyFlag(c, k, !mask[0], rest, more, limit);
        SkipsRejected(c, lost, items, mask);
        NoneBefore(Collect(c, k, !mask[0], rest, more, limit).2);
      } else {
        var (k', f) := if mask[0] then Feed(c, k, items[0], lost, limit) else (k, None);
        RejectedOnlyFlag(c, k', !mask[0], rest, more, limit);
        FlaggedStep(c, k, items[0], mask[0], lost, Accepted(c, rest), AcceptedMask(c, rest, more), AcceptedFlags(c, !mask[0], rest, more), limit);
      }
      CollectStep(c, k, lost, items[0], rest, mask, limit);
      assert [items[0]] + rest == items;
    }
  }

  lemma {:induction false} SkipsRejected(c: Codec, lost: bool, items: seq<Bytes>, mask: seq<bool>)
    requires |items| == |mask| > 0 && Rejected(c, items[0])
    ensures Accepted(c, items) == Accepted(c, items[1..])
    ensures AcceptedMask(c, items, mask) == AcceptedMask(c, items[1..], mask[1..])
    ensures AcceptedFlags(c, lost, items, mask) == AcceptedFlags(c, !mask[0], items[1..], mask[1..])
  {
  }

  lemma {:induction false} KeepsAccepted(c: Codec, lost: bool, items: seq<Bytes>, mask: seq<bool>)
    requires |items| == |mask| > 0 && !Rejected(c, items[0])
    ensures Accepted(c, items) == [items[0]] + Accepted(c, items[1..])
    ensures AcceptedMask(c, items, mask) == [mask[0]] + AcceptedMask(c, items[1..], mask[1..])
    ensures AcceptedFlags(c, lost, items, mask) == [lost] + AcceptedFlags(c, !mask[0], items[1..], mask[1..])
  {
  }

  lemma {:induction false} FlaggedStep(c: Codec, k: Collector, packet: Bytes, there: bool, flag: bool,
                                       sent: seq<Bytes>, mask: seq<bool>, flags: seq<bool>, limit: nat)
    requires |sent| == |mask| == |flags|
    ensures CollectFlagged(c, k, [packet] + sent, [there] + mask, [flag] + flags, limit) ==
            if !there then CollectFlagged(c, k, sent, mask, flags, limit)
            else
              var (k', f) := Feed(c, k, packet, flag, limit);
              var (k'', fs) := CollectFlagged(c, k', sent, mask, flags, limit);
              (k'', (if f.Some? then [f.value] else []) + fs)
  {
    hide Feed;
    assert ([packet] + sent)[1..] == sent && ([there] + mask)[1..] == mask && ([flag] + flags)[1..] == flags;
  }

  lemma {:induction false} FlaggedAppend(c: Codec, k: Collector, xs: seq<Bytes>, xmask: seq<bool>, xflags: seq<bool>,
                                         ys: seq<Bytes>, ymask: seq<bool>, yflags: seq<bool>, limit: nat)
    requires |xs| == |xmask| == |xflags| && |ys| == |ymask| == |yflags|
    ensures var (k', fs) := CollectFlagged(c, k, xs, xmask, xflags, limit);
      var (k'', gs) := CollectFlagged(c, k', ys, ymask, yflags, limit);
      CollectFlagged(c, k, xs + ys, xmask + ymask, xflags + yflags, limit) == (k'', fs + gs)
    decreases |xs|
  {
    hide Feed, CollectFlagged;
    if xs == [] {
      NoneFlagged(c, k, limit);
      assert xs + ys == ys && xmask + ymask == ymask && xflags + yflags == yflags;
      var gs := CollectFlagged(c, k, ys, ymask, yflags, limit).1;
      assert [] + gs == gs;
    } else {
      var r, rm, rf := xs[1..], xmask[1..], xflags[1..];
      assert xs == [xs[0]] + r && xmask == [xmask[0]] + rm && xflags == [xflags[0]] + rf;
      assert xs + ys == [xs[0]] + (r + ys) && xmask + ymask == [xmask[0]] + (rm + ymask) && xflags + yflags == [xflags[0]] + (rf + yflags);
      FlaggedStep(c, k, xs[0], xmask[0], xflags[0], r, rm, rf, limit);
      FlaggedStep(c, k, xs[0], xmask[0], xflags[0], r + ys, rm + ymask, rf + yflags, limit);
      var (k', f) := if xmask[0] then Feed(c, k, xs[0], xflags[0], limit) else (k, None);
      FlaggedAppend(c, k', r, rm, rf, ys, ymask, yflags, limit);
      var (k'', fs) := CollectFlagged(c, k', r, rm, rf, limit);
      Regroup(if f.Some? then [f.value] else [], fs, CollectFlagged(c, k'', ys, ymask, yflags, limit).1);
    }
  }

  lemma {:induction false} NoneFlagged(c: Codec, k: Collector, limit: nat)
    ensures CollectFlagged(c, k, [], [], [], limit) == (k, [])
  {
  }

  // ---------- One unit ----------

  /** Loss is noticed before a packet that is there. */
  predicate Noticed(mask: seq<bool>, flags: seq<bool>)
    requires |mask| == |flags|
  {
    exists i :: 0 <= i < |mask| && mask[i] && flags[i]
  }

  predicate Any(mask: seq<bool>) {
    exists i :: 0 <= i < |mask| && mask[i]
  }

  lemma {:induction false} NoticedStep(mask: seq<bool>, flags: seq<bool>)
    requires |mask| == |flags| > 0
    ensures Noticed(mask, flags) <==> (mask[0] && flags[0]) || Noticed(mask[1..], flags[1..])
    ensures Any(mask) <==> mask[0] || Any(mask[1..])
  {
    assert forall i :: 1 <= i < |mask| ==> mask[i] == mask[1..][i - 1] && flags[i] == flags[1..][i - 1];
  }

  lemma {:induction false} NothingNoticed()
    ensures !Noticed([], []) && !Any([])
  {
  }

  /** The packets of a unit behind the first one. */
  lemma {:induction false} RestFlagged(c: Codec, k: Collector, nal: Bytes, off: nat, m: nat, mask: seq<bool>, flags: seq<bool>, limit: nat)
    requires m >= MinLimit(c) && Sendable(c, nal, m) && 1 < off <= |nal| && |nal| > m && limit > |nal|
    requires |mask| == |flags| == |Packets(c, nal, off, m)|
    ensures mask != []
    ensures var (k', fs) := CollectFlagged(c, k, Packets(c, nal, off, m), mask, flags, limit);
      if k.broken || Noticed(mask, flags) then k'.broken && fs == []
      else if mask[|mask| - 1] then
        && k' == Collector([], false) && |fs| == 1
        && (All(mask) && k.frame == nal[..off - 1] ==> fs[0] == nal)
        && (All(mask) && |k.frame| >= off ==> |fs[0]| > |nal|)
      else !k'.broken && fs == [] && (k'.frame != [] <==> k.frame != [] || Any(mask))
    decreases |nal| - off
  {
    hide Packets, Packet, NextOffset, Receive, Sendable, CollectFlagged, All, Noticed, Any, Feed;
    var p, next := Packet(c, nal, off, m), NextOffset(c, nal, off, m);
    var rest := Packets(c, nal, next, m);
    PacketsFirst(c, nal, off, m);
    assert mask == [mask[0]] + mask[1..] && flags == [flags[0]] + flags[1..];
    FlaggedStep(c, k, p, mask[0], flags[0], rest, mask[1..], flags[1..], limit);
    NoticedStep(mask, flags);
    AllFirst(mask);
    FeedRest(c, k, nal, off, m, flags[0], limit);
    var (k', f) := if mask[0] then Feed(c, k, p, flags[0], limit) else (k, None);
    if next == |nal| + 1 {
      assert mask[1..] == [] && flags[1..] == [];
      AllNone();
      NothingNoticed();
      NoneFlagged(c, k', limit);
    } else {
      RestFlagged(c, k', nal, next, m, mask[1..], flags[1..], limit);
      assert mask[1..][|mask| - 2] == mask[|mask| - 1];
      NoneBefore(CollectFlagged(c, k', rest, mask[1..], flags[1..], limit).1);
    }
  }

  lemma {:induction false} NoneBefore(fs: seq<Bytes>)
    ensures [] + fs == fs
  {
  }

  /** One packet of a unit, not its first. */
  lemma {:induction false} FeedRest(c: Codec, k: Collector, nal: Bytes, off: nat, m: nat, flag: bool, limit: nat)
    requires m >= MinLimit(c) && Sendable(c, nal, m) && 1 < off <= |nal| && |nal| > m && limit > |nal|
    ensures var next := NextOffset(c, nal, off, m);
      var (k', f) := Feed(c, k, Packet(c, nal, off, m), flag, limit);
      if k.broken || flag then k'.broken && f == None
      else if next == |nal| + 1 then
        && k' == Collector([], false) && f.Some?
        && (k.frame == nal[..off - 1] ==> f.value == nal) && (|k.frame| >= off ==> |f.value| > |nal|)
      else
        && !k'.broken && f == None && k'.frame != []
        && (k.frame == nal[..off - 1] ==> k'.frame == nal[..next - 1]) && (|k.frame| >= off ==> |k'.frame| >= next)
  {
    hide Packet, NextOffset, Receive, Sendable;
    PacketReceived(c, nal, off, m);
    var next := NextOffset(c, nal, off, m);
    var data := nal[off - 1..next - 1];
    assert data[..|data|] == data;
    assert nal[..off - 1] + data == nal[..next - 1] && nal[..|nal|] == nal;
    if k.frame == [] { assert |data| > 0 && Used([], data, limit) == |data|; }
  }

  /** The first packet of a unit. */
  lemma {:induction false} FeedFirst(c: Codec, k: Collector, nal: Bytes, m: nat, flag: bool, limit: nat)
    requires m >= MinLimit(c) && Sendable(c, nal, m) && nal != [] && limit > |nal|
    ensures var next := NextOffset(c, nal, 1, m);
      var (k', f) := Feed(c, k, Packet(c, nal, 1, m), flag, limit);
      var clean := flag || k.broken || k.frame == [];
      if next == |nal| + 1 then
        && k' == Collector([], false) && f.Some?
        && (clean ==> f.value == nal) && (!clean ==> |f.value| > |nal|)
      else
        && !k'.broken && f == None && k'.frame != []
        && (clean ==> k'.frame == nal[..next - 1]) && (!clean ==> |k'.frame| >= next)
  {
    hide Packet, NextOffset, Receive, Sendable;
    PacketReceived(c, nal, 1, m);
    var next := NextOffset(c, nal, 1, m);
    var data := nal[0..next - 1];
    assert data == nal[..next - 1] && data[..|data|] == data && [] + data == data && nal[..|nal|] == nal;
  }

  /** What earlier units have left: nothing, bytes that will be taken for the beginning of the next unit, or a noticed loss. */
  datatype Leftover = Clean | Dirty | Broken

  function LeftIn(k: Collector): Leftover {
    if k.broken then Broken else if k.frame == [] then Clean else Dirty
  }

  /** The arrival pattern of a unit, packet by packet, does no harm. All packets are there: then no loss may be noticed behind the
      first one, and what is left over must be forgotten. Or some packet is missing: then this must be noticed, unless the last
      packet is missing too. */
  predicate Right(mask: seq<bool>, flags: seq<bool>, left: Leftover)
    requires |mask| == |flags| > 0
  {
    if All(mask) then !Noticed(mask[1..], flags[1..]) && (flags[0] || left != Dirty)
    else !mask[|mask| - 1] || Noticed(mask[1..], flags[1..]) || (!mask[0] && left == Broken)
  }

  function LeftAfter(mask: seq<bool>, flags: seq<bool>, left: Leftover): Leftover
    requires |mask| == |flags| > 0
  {
    if Noticed(mask[1..], flags[1..]) || (!mask[0] && left == Broken) then Broken
    else if mask[|mask| - 1] then Clean
    else if Any(mask) then Dirty
    else left
  }

  /** A unit is given out just if it is intact, and nothing else is, exactly when its arrival pattern does no harm. */
  lemma {:induction false} UnitRightIff(c: Codec, k: Collector, nal: Bytes, m: nat, mask: seq<bool>, flags: seq<bool>, limit: nat)
    requires m >= MinLimit(c) && Sendable(c, nal, m) && limit > |nal|
    requires |mask| == |flags| == |Packets(c, nal, 1, m)|
    ensures mask != []
    ensures var (k', fs) := CollectFlagged(c, k, Packets(c, nal, 1, m), mask, flags, limit);
      && (fs == (if All(mask) then [nal] else []) <==> Right(mask, flags, LeftIn(k)))
      && LeftIn(k') == LeftAfter(mask, flags, LeftIn(k))
  {
    hide Packets, Packet, NextOffset, Receive, Sendable, CollectFlagged, All, Noticed, Any, Feed;
    SendableNonEmpty(c, nal, m);
    var p, next := Packet(c, nal, 1, m), NextOffset(c, nal, 1, m);
    var rest := Packets(c, nal, next, m);
    PacketsFirst(c, nal, 1, m);
    assert mask == [mask[0]] + mask[1..] && flags == [flags[0]] + flags[1..];
    FlaggedStep(c, k, p, mask[0], flags[0], rest, mask[1..], flags[1..], limit);
    NoticedStep(mask, flags);
    AllFirst(mask);
    FeedFirst(c, k, nal, m, flags[0], limit);
    var (k1, f) := if mask[0] then Feed(c, k, p, flags[0], limit) else (k, None);
    if next == |nal| + 1 {
      assert mask[1..] == [] && flags[1..] == [];
      AllNone();
      NothingNoticed();
      NoneFlagged(c, k1, limit);
      if mask[0] { OneFrame([f.value], nal); }
    } else {
      RestFlagged(c, k1, nal, next, m, mask[1..], flags[1..], limit);
      assert mask[1..][|mask| - 2] == mask[|mask| - 1];
      AllEnds(mask);
      OneFrame(CollectFlagged(c, k1, rest, mask[1..], flags[1..], limit).1, nal);
      NoneBefore(CollectFlagged(c, k1, rest, mask[1..], flags[1..], limit).1);
    }
  }

  lemma {:induction false} OneFrame(fs: seq<Bytes>, nal: Bytes)
    ensures fs == [nal] <==> |fs| == 1 && fs[0] == nal
    ensures fs + [] == fs
  {
  }

  lemma {:induction false} AllEnds(mask: seq<bool>)
    requires mask != []
    ensures All(mask) ==> mask[|mask| - 1]
  {
  }

  // ---------- Streams ----------

  /** What is given out for each unit. */
  function UnitOutputs(c: Codec, k: Collector, nals: seq<Bytes>, m: nat, mask: seq<bool>, flags: seq<bool>, limit: nat): (r: seq<seq<Bytes>>)
    requires m >= MinLimit(c) && |mask| == |flags| == |Stream(c, nals, m)|
    ensures |r| == |nals|
    decreases |nals|
  {
    if nals == [] then []
    else
      var ps := Packets(c, nals[0], 1, m);
      var n := |ps|;
      var (k', fs) := CollectFlagged(c, k, ps, mask[..n], flags[..n], limit);
      [fs] + UnitOutputs(c, k', nals[1..], m, mask[n..], flags[n..], limit)
  }

  function Concat(fss: seq<seq<Bytes>>): seq<Bytes> {
    if fss == [] then [] else fss[0] + Concat(fss[1..])
  }

  /** Each unit that is intact, and nothing for the others. */
  function IntactEach(c: Codec, nals: seq<Bytes>, m: nat, mask: seq<bool>): (r: seq<seq<Bytes>>)
    requires m >= MinLimit(c) && |mask| == |Stream(c, nals, m)|
    ensures |r| == |nals|
    decreases |nals|
  {
    if nals == [] then []
    else
      var n := |Packets(c, nals[0], 1, m)|;
      [if All(mask[..n]) then [nals[0]] else []] + IntactEach(c, nals[1..], m, mask[n..])
  }

  predicate RightAll(c: Codec, nals: seq<Bytes>, m: nat, mask: seq<bool>, flags: seq<bool>, left: Leftover)
    requires m >= MinLimit(c) && |mask| == |flags| == |Stream(c, nals, m)|
    requires forall i :: 0 <= i < |nals| ==> Sendable(c, nals[i], m)
    decreases |nals|
  {
    nals == [] ||
    (var n := |Packets(c, nals[0], 1, m)|;
     assert n > 0 by { SomePacket(c, nals[0], m); }
     && Right(mask[..n], flags[..n], left)
     && RightAll(c, nals[1..], m, mask[n..], flags[n..], LeftAfter(mask[..n], flags[..n], left)))
  }

  lemma {:induction false} SomePacket(c: Codec, nal: Bytes, m: nat)
    requires m >= MinLimit(c) && Sendable(c, nal, m)
    ensures |Packets(c, nal, 1, m)| > 0
  {
    hide Packet, NextOffset;
    SendableNonEmpty(c, nal, m);
  }

  predicate AllFit(nals: seq<Bytes>, limit: nat) {
    forall i :: 0 <= i < |nals| ==> |nals[i]| < limit
  }

  lemma {:induction false} UnitsRightIff(c: Codec, k: Collector, nals: seq<Bytes>, m: nat, mask: seq<bool>, flags: seq<bool>, limit: nat)
    requires m >= MinLimit(c) && |mask| == |flags| == |Stream(c, nals, m)| && AllFit(nals, limit)
    requires forall i :: 0 <= i < |nals| ==> Sendable(c, nals[i], m)
    ensures UnitOutputs(c, k, nals, m, mask, flags, limit) == IntactEach(c, nals, m, mask) <==> RightAll(c, nals, m, mask, flags, LeftIn(k))
    ensures Concat(UnitOutputs(c, k, nals, m, mask, flags, limit)) == CollectFlagged(c, k, Stream(c, nals, m), mask, flags, limit).1
    decreases |nals|
  {
    hide Packets, Sendable, CollectFlagged, Right, LeftAfter, All;
    if nals == [] {
      assert mask == [] && flags == [];
      NoneFlagged(c, k, limit);
    } else {
      var ps := Packets(c, nals[0], 1, m);
      var n := |ps|;
      UnitRightIff(c, k, nals[0], m, mask[..n], flags[..n], limit);
      var (k', fs) := CollectFlagged(c, k, ps, mask[..n], flags[..n], limit);
      UnitsRightIff(c, k', nals[1..], m, mask[n..], flags[n..], limit);
      FlaggedAppend(c, k, ps, mask[..n], flags[..n], Stream(c, nals[1..], m), mask[n..], flags[n..], limit);
      assert mask == mask[..n] + mask[n..] && flags == flags[..n] + flags[n..];
      FirstEqual(fs, if All(mask[..n]) then [nals[0]] else [], UnitOutputs(c, k', nals[1..], m, mask[n..], flags[n..], limit), IntactEach(c, nals[1..], m, mask[n..]));
      ConcatFirst(fs, UnitOutputs(c, k', nals[1..], m, mask[n..], flags[n..], limit));
    }
  }

  lemma {:induction false} FirstEqual(x: seq<Bytes>, y: seq<Bytes>, xs: seq<seq<Bytes>>, ys: seq<seq<Bytes>>)
    ensures [x] + xs == [y] + ys <==> x == y && xs == ys
  {
    if [x] + xs == [y] + ys {
      assert ([x] + xs)[0] == x && ([y] + ys)[0] == y;
      assert ([x] + xs)[1..] == xs && ([y] + ys)[1..] == ys;
    }
  }

  lemma {:induction false} ConcatFirst(x: seq<Bytes>, xs: seq<seq<Bytes>>)
    ensures Concat([x] + xs) == x + Concat(xs)
  {
    assert ([x] + xs)[1..] == xs;
  }

  lemma {:induction false} IntactEachIsIntact(c: Codec, nals: seq<Bytes>, m: nat, mask: seq<bool>)
    requires m >= MinLimit(c) && |mask| == |Stream(c, nals, m)|
    ensures Concat(IntactEach(c, nals, m, mask)) == Intact(c, nals, m, mask)
    decreases |nals|
  {
    hide Packets, All;
    if nals != [] {
      var n := |Packets(c, nals[0], 1, m)|;
      IntactEachIsIntact(c, nals[1..], m, mask[n..]);
      ConcatFirst(if All(mask[..n]) then [nals[0]] else [], IntactEach(c, nals[1..], m, mask[n..]));
    }
  }

  // ---------- The main result ----------

  /** The items are the packets of the units, and rejected packets anywhere among them. */
  predicate Mixed(c: Codec, items: seq<Bytes>, nals: seq<Bytes>, m: nat)
    requires m >= MinLimit(c)
  {
    Accepted(c, items) == Stream(c, nals, m)
  }

  /** What the source gives out for each unit of such a stream, when the items in the mask arrive. */
  function Given(c: Codec, items: seq<Bytes>, nals: seq<Bytes>, m: nat, mask: seq<bool>, limit: nat): seq<seq<Bytes>>
    requires m >= MinLimit(c) && Mixed(c, items, nals, m) && |mask| == |items|
  {
    UnitOutputs(c, Collector([], false), nals, m, AcceptedMask(c, items, mask), AcceptedFlags(c, true, items, mask), limit)
  }

  /** With rejected packets anywhere in the stream and any packets missing, each unit is given out just if all of its own packets
      are there, and nothing else is, exactly when no unit's arrival pattern does harm. */
  lemma {:induction false} IntactDespiteRejectedIff(c: Codec, items: seq<Bytes>, nals: seq<Bytes>, m: nat, mask: seq<bool>, limit: nat)
    requires m >= MinLimit(c) && Mixed(c, items, nals, m) && |mask| == |items| && AllFit(nals, limit)
    requires forall i :: 0 <= i < |nals| ==> Sendable(c, nals[i], m)
    ensures Given(c, items, nals, m, mask, limit) == IntactEach(c, nals, m, AcceptedMask(c, items, mask)) <==>
            RightAll(c, nals, m, AcceptedMask(c, items, mask), AcceptedFlags(c, true, items, mask), Clean)
    ensures Concat(Given(c, items, nals, m, mask, limit)) == Collect(c, Collector([], false), true, items, mask, limit).2
    ensures RightAll(c, nals, m, AcceptedMask(c, items, mask), AcceptedFlags(c, true, items, mask), Clean) ==>
              Collect(c, Collector([], false), true, items, mask, limit).2 == Intact(c, nals, m, AcceptedMask(c, items, mask))
  {
    hide UnitOutputs, IntactEach, RightAll, CollectFlagged, Collect, Sendable, Stream, AcceptedMask, AcceptedFlags, Accepted;
    var k := Collector([], false);
    var am, af := AcceptedMask(c, items, mask), AcceptedFlags(c, true, items, mask);
    RejectedOnlyFlag(c, k, true, items, mask, limit);
    UnitsRightIff(c, k, nals, m, am, af, limit);
    IntactEachIsIntact(c, nals, m, am);
  }

  // ---------- When no harm is done ----------

  /** Loss is noticed before a packet exactly when the accepted one before it is missing. */
  predicate Honest(before: bool, mask: seq<bool>, flags: seq<bool>)
    requires |mask| == |flags|
  {
    forall i :: 0 <= i < |mask| ==> flags[i] == !(if i == 0 then before else mask[i - 1])
  }

  lemma {:induction false} HonestParts(before: bool, mask: seq<bool>, flags: seq<bool>, n: nat)
    requires |mask| == |flags| && 0 < n <= |mask| && Honest(before, mask, flags)
    ensures Honest(before, mask[..n], flags[..n]) && Honest(mask[n - 1], mask[n..], flags[n..])
  {
    assert forall i :: 0 <= i < |mask| - n ==> mask[n..][i] == mask[n + i] && flags[n..][i] == flags[n + i];
  }

  /** A missing packet is noticed at the next one, if there is one. */
  lemma {:induction false} HonestNotices(mask: seq<bool>, flags: seq<bool>, i: nat)
    requires |mask| == |flags| && i < |mask| && !mask[i] && mask[|mask| - 1]
    requires forall j :: 0 < j < |mask| ==> flags[j] == !mask[j - 1]
    ensures Noticed(mask[1..], flags[1..])
    decreases |mask| - i
  {
    if mask[i + 1] {
      assert mask[1..][i] && flags[1..][i];
    } else {
      HonestNotices(mask, flags, i + 1);
    }
  }

  lemma {:induction false} HonestRight(before: bool, mask: seq<bool>, flags: seq<bool>, left: Leftover)
    requires |mask| == |flags| > 0 && Honest(before, mask, flags) && (left == Dirty ==> !before)
    ensures Right(mask, flags, left)
    ensures LeftAfter(mask, flags, left) == Dirty ==> !mask[|mask| - 1]
  {
    if !All(mask) && mask[|mask| - 1] {
      var i :| 0 <= i < |mask| && !mask[i];
      HonestNotices(mask, flags, i);
    }
    if All(mask) {
      forall i | 0 <= i < |mask| - 1 ensures !flags[1..][i] { assert flags[i + 1] == !mask[i]; }
    }
  }

  lemma {:induction false} HonestRightAll(c: Codec, nals: seq<Bytes>, m: nat, before: bool, mask: seq<bool>, flags: seq<bool>, left: Leftover)
    requires m >= MinLimit(c) && |mask| == |flags| == |Stream(c, nals, m)|
    requires forall i :: 0 <= i < |nals| ==> Sendable(c, nals[i], m)
    requires Honest(before, mask, flags) && (left == Dirty ==> !before)
    ensures RightAll(c, nals, m, mask, flags, left)
    decreases |nals|
  {
    hide Packets, Sendable, Right, LeftAfter, Honest;
    if nals != [] {
      var n := |Packets(c, nals[0], 1, m)|;
      SomePacket(c, nals[0], m);
      HonestParts(before, mask, flags, n);
      HonestRight(before, mask[..n], flags[..n], left);
      assert mask[..n][n - 1] == mask[n - 1];
      HonestRightAll(c, nals[1..], m, mask[n - 1], mask[n..], flags[n..], LeftAfter(mask[..n], flags[..n], left));
    }
  }

  /** The packet before packet `i` is there. */
  predicate Preceded(before: bool, mask: seq<bool>, i: nat)
    requires i < |mask|
  {
    if i == 0 then before else mask[i - 1]
  }

  /** Every rejected packet arrives, and so does the packet before it. */
  predicate NothingHidden(c: Codec, before: bool, items: seq<Bytes>, mask: seq<bool>)
    requires |items| == |mask|
  {
    forall i :: 0 <= i < |items| && Rejected(c, items[i]) ==> mask[i] && Preceded(before, mask, i)
  }

  lemma {:induction false} NothingHiddenHonest(c: Codec, before: bool, items: seq<Bytes>, mask: seq<bool>)
    requires |items| == |mask| && NothingHidden(c, before, items, mask)
    ensures Honest(before, AcceptedMask(c, items, mask), AcceptedFlags(c, !before, items, mask))
    decreases |items|
  {
    hide Rejected;
    if items != [] {
      var rest, more := items[1..], mask[1..];
      forall i | 0 <= i < |rest| && Rejected(c, rest[i]) ensures more[i] && Preceded(mask[0], more, i) {
        assert rest[i] == items[i + 1] && Preceded(before, mask, i + 1);
      }
      NothingHiddenHonest(c, mask[0], rest, more);
      if Rejected(c, items[0]) {
        SkipsRejected(c, !before, items, mask);
        assert Preceded(before, mask, 0);
      } else {
        KeepsAccepted(c, !before, items, mask);
        HonestFirst(before, mask[0], AcceptedMask(c, rest, more), AcceptedFlags(c, !mask[0], rest, more));
      }
    }
  }

  lemma {:induction false} HonestFirst(before: bool, there: bool, mask: seq<bool>, flags: seq<bool>)
    requires |mask| == |flags| && Honest(there, mask, flags)
    ensures Honest(before, [there] + mask, [!before] + flags)
  {
  }

  /** Every rejected packet arrives, and so does the one before it, if there is one. */
  predicate NoneHides(c: Codec, items: seq<Bytes>, mask: seq<bool>)
    requires |items| == |mask|
  {
    forall i :: 0 <= i < |items| && Rejected(c, items[i]) ==> mask[i] && (i > 0 ==> mask[i - 1])
  }

  lemma {:induction false} NoneHidesHonest(c: Codec, items: seq<Bytes>, mask: seq<bool>) returns (before: bool)
    requires |items| == |mask| && NoneHides(c, items, mask)
    ensures Honest(before, AcceptedMask(c, items, mask), AcceptedFlags(c, true, items, mask))
  {
    hide Rejected, Honest;
    if items != [] && Rejected(c, items[0]) {
      before := true;
      var rest, more := items[1..], mask[1..];
      forall i | 0 <= i < |rest| && Rejected(c, rest[i]) ensures more[i] && Preceded(mask[0], more, i) {
        assert rest[i] == items[i + 1];
      }
      NothingHiddenHonest(c, true, rest, more);
      SkipsRejected(c, true, items, mask);
    } else {
      before := false;
      NothingHiddenHonest(c, false, items, mask);
    }
  }

  /** When every rejected packet, and the packet before it, arrives, what is given out are exactly the intact units. */
  lemma {:induction false} NoneHidesIsRight(c: Codec, items: seq<Bytes>, nals: seq<Bytes>, m: nat, mask: seq<bool>, limit: nat)
    requires m >= MinLimit(c) && Mixed(c, items, nals, m) && |mask| == |items| && AllFit(nals, limit)
    requires forall i :: 0 <= i < |nals| ==> Sendable(c, nals[i], m)
    requires NoneHides(c, items, mask)
    ensures Collect(c, Collector([], false), true, items, mask, limit).2 == Intact(c, nals, m, AcceptedMask(c, items, mask))
  {
    hide Mixed, NoneHides, RightAll, Honest, Collect, Sendable, AcceptedMask, AcceptedFlags;
    MixedSize(c, items, nals, m);
    var before := NoneHidesHonest(c, items, mask);
    HonestRightAll(c, nals, m, before, AcceptedMask(c, items, mask), AcceptedFlags(c, true, items, mask), Clean);
    IntactDespiteRejectedIff(c, items, nals, m, mask, limit);
  }

  lemma {:induction false} MixedSize(c: Codec, items: seq<Bytes>, nals: seq<Bytes>, m: nat)
    requires m >= MinLimit(c) && Mixed(c, items, nals, m)
    ensures |Accepted(c, items)| == |Stream(c, nals, m)|
  {
  }
}
