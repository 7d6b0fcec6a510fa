/** The RTP packets of one NAL unit (section 5.8 of RFC 6184, section 4.4.3 of RFC 7798) and how a receiver reads them. */
module NalFragments {
  import opened Codecs
  import opened Options

  /** The bytes in front of a fragment: FU indicator or payload header, then the FU header. */
  function FuLength(c: Codec): nat {
    if c.H264? then 2 else 3
  }

  /** The smallest packet limit for which continuation headers do not overwrite the saved ones. */
  function MinLimit(c: Codec): nat {
    if c.H264? then 4 else 6
  }

  function FuHeader(startBit: bool, endBit: bool, nalType: bv8): bv8 {
    (if startBit then 0x80 else 0) | (if endBit then 0x40 else 0) | nalType
  }

  function NalType(c: Codec, nal: seq<bv8>): bv8
    requires nal != []
  {
    if c.H264? then nal[0] & 0x1F else (nal[0] & 0x7E) >> 1
  }

  function FuPrefix(c: Codec, nal: seq<bv8>, startBit: bool, endBit: bool): (p: seq<bv8>)
    requires |nal| >= FuLength(c) - 1
    ensures |p| == FuLength(c)
  {
    match c
    case H264 => [(nal[0] & 0xE0) | 28, FuHeader(startBit, endBit, NalType(c, nal))]
    case H265 => [(nal[0] & 0x81) | 98, nal[1], FuHeader(startBit, endBit, NalType(c, nal))]
  }

  /** The next packet of a NAL unit of which the bytes before `off - 1` have been sent, within the limit `m`. */
  function Packet(c: Codec, nal: seq<bv8>, off: nat, m: nat): seq<bv8>
    requires m >= MinLimit(c) && 1 <= off <= |nal|
  {
    var h := FuLength(c);
    var rest := |nal| + 1 - off;
    if off == 1 then
      if |nal| <= m then nal else FuPrefix(c, nal, true, false) + nal[h - 1..m - 1]
    else if |nal| < h - 1 then [] // not reached: a fragmented unit is longer than the limit
    else if h + rest > m then FuPrefix(c, nal, false, false) + nal[off - 1..off - 1 + (m - h)]
    else FuPrefix(c, nal, false, true) + nal[off - 1..]
  }

  function NextOffset(c: Codec, nal: seq<bv8>, off: nat, m: nat): (next: nat)
    requires m >= MinLimit(c) && 1 <= off <= |nal|
    ensures off < next <= |nal| + 1
  {
    var h := FuLength(c);
    if off == 1 then (if |nal| <= m then |nal| + 1 else m)
    else if h + (|nal| + 1 - off) > m then off + (m - h)
    else |nal| + 1
  }

  /** All packets of a unit. */
  function Packets(c: Codec, nal: seq<bv8>, off: nat, m: nat): seq<seq<bv8>>
    requires m >= MinLimit(c) && 1 <= off <= |nal| + 1
    decreases |nal| + 1 - off
  {
    if off == |nal| + 1 then []
    else [Packet(c, nal, off, m)] + Packets(c, nal, NextOffset(c, nal, off, m), m)
  }

  // ---------- The receiver ----------

  /** What processSpecialHeader makes of a packet that is not an aggregation packet. */
  datatype Received = Received(data: seq<bv8>, begins: bool, completes: bool)

  predicate Aggregation(c: Codec, packet: seq<bv8>)
    requires packet != []
  {
    match c
    case H264 => 24 <= packet[0] & 0x1F <= 27
    case H265 => (packet[0] & 0x7E) >> 1 == 48
  }

  predicate Fragmented(c: Codec, packet: seq<bv8>)
    requires packet != []
  {
    match c
    case H264 => packet[0] & 0x1F == 28 || packet[0] & 0x1F == 29
    case H265 => (packet[0] & 0x7E) >> 1 == 49
  }

  function Receive(c: Codec, packet: seq<bv8>): Option<Received> {
    match c
    case H264 =>
      if |packet| < 1 || Aggregation(c, packet) then None
      else if Fragmented(c, packet) then
        if |packet| < 2 then None
        else
          var start, end := packet[1] & 0x80 != 0, packet[1] & 0x40 != 0;
          Some(if start then Received([(packet[0] & 0xE0) | (packet[1] & 0x1F)] + packet[2..], true, end)
               else Received(packet[2..], false, end))
      else Some(Received(packet, true, true))
    case H265 =>
      if |packet| < 2 || Aggregation(c, packet) then None
      else if Fragmented(c, packet) then
        if |packet| < 3 then None
        else
          var start, end := packet[2] & 0x80 != 0, packet[2] & 0x40 != 0;
          Some(if start then Received([(packet[0] & 0x81) | ((packet[2] & 0x3F) << 1), packet[1]] + packet[3..], true, end)
               else Received(packet[3..], false, end))
      else Some(Received(packet, true, true))
  }

  /** In-order reassembly: frames run from a packet that begins one to a packet that completes it. */
  function Reassemble(c: Codec, packets: seq<seq<bv8>>, partial: Option<seq<bv8>>): (frames: seq<seq<bv8>>)
    decreases |packets|
  {
    if packets == [] then [] else
      match Receive(c, packets[0])
      case None => Reassemble(c, packets[1..], partial)
      case Some(r) =>
        var collected := if r.begins then Some(r.data)
                         else if partial.Some? then Some(partial.value + r.data) else None;
        if r.completes && collected.Some? then [collected.value] + Reassemble(c, packets[1..], None)
        else Reassemble(c, packets[1..], collected)
  }

  /** A unit that can be sent: it has its header and, if it fits one packet, is not itself an aggregation or fragmentation packet. */
  predicate Sendable(c: Codec, nal: seq<bv8>, m: nat) {
    && |nal| >= FuLength(c) - 1
    && (|nal| <= m ==> !Aggregation(c, nal) && !Fragmented(c, nal))
  }

  // ---------- Header bits ----------

  lemma {:induction false} H264Headers(n: bv8, s: bool, e: bool)
    ensures var ind, fu := (n & 0xE0) | 28, FuHeader(s, e, n & 0x1F);
      && ind & 0x1F == 28
      && (fu & 0x80 != 0) == s && (fu & 0x40 != 0) == e
      && (ind & 0xE0) | (fu & 0x1F) == n
  {
  }

  lemma {:induction false} H265Headers(n: bv8, s: bool, e: bool)
    ensures var ind, fu := (n & 0x81) | 98, FuHeader(s, e, (n & 0x7E) >> 1);
      && (ind & 0x7E) >> 1 == 49
      && (fu & 0x80 != 0) == s && (fu & 0x40 != 0) == e
      && (ind & 0x81) | ((fu & 0x3F) << 1) == n
  {
  }

  /** The receiver undoes the fragment headers. */
  lemma {:induction false} ReceiveFragment(c: Codec, nal: seq<bv8>, s: bool, e: bool, data: seq<bv8>)
    requires |nal| >= FuLength(c) - 1
    ensures Receive(c, FuPrefix(c, nal, s, e) + data)
            == Some(Received(if s then nal[..FuLength(c) - 1] + data else data, s, e))
  {
    hide FuHeader, Receive;
    var p := FuPrefix(c, nal, s, e) + data;
    assert p[FuLength(c)..] == data;
    match c {
      case H264 => ReceiveFragment264(p, nal[0], s, e);
        assert nal[..1] == [nal[0]];
      case H265 => ReceiveFragment265(p, nal[0], s, e);
        assert nal[..2] == [nal[0], nal[1]];
    }
  }

  lemma {:induction false} ReceiveFragment264(p: seq<bv8>, n: bv8, s: bool, e: bool)
    requires |p| >= 2 && p[0] == (n & 0xE0) | 28 && p[1] == FuHeader(s, e, n & 0x1F)
    ensures Receive(H264, p) == Some(Received(if s then [n] + p[2..] else p[2..], s, e))
  {
    hide FuHeader;
    H264Headers(n, s, e);
  }

  lemma {:induction false} ReceiveFragment265(p: seq<bv8>, n: bv8, s: bool, e: bool)
    requires |p| >= 3 && p[0] == (n & 0x81) | 98 && p[2] == FuHeader(s, e, (n & 0x7E) >> 1)
    ensures Receive(H265, p) == Some(Received(if s then [n, p[1]] + p[3..] else p[3..], s, e))
  {
    hide FuHeader;
    H265Headers(n, s, e);
  }

  // ---------- Fragmentation and reassembly ----------

  /** Only the first packet of a fragmented unit has the start bit, only the last one the end bit; every packet is
      within the limit and carries the next bytes of the unit. */
  lemma {:induction false} PacketReceived(c: Codec, nal: seq<bv8>, off: nat, m: nat)
    requires m >= MinLimit(c) && Sendable(c, nal, m) && 1 <= off <= |nal| && (off > 1 ==> |nal| > m)
    ensures var p, next := Packet(c, nal, off, m), NextOffset(c, nal, off, m);
      && 0 < |p| <= m
      && Receive(c, p) == Some(Received(nal[off - 1..next - 1], off == 1, next == |nal| + 1))
  {
    hide FuPrefix, Receive;
    var h := FuLength(c);
    if off == 1 && |nal| <= m {
      ReceiveWhole(c, nal);
      assert nal[0..|nal|] == nal;
    } else if off == 1 {
      ReceiveFragment(c, nal, true, false, nal[h - 1..m - 1]);
      assert nal[..h - 1] + nal[h - 1..m - 1] == nal[0..m - 1];
    } else if h + (|nal| + 1 - off) > m {
      ReceiveFragment(c, nal, false, false, nal[off - 1..off - 1 + (m - h)]);
    } else {
      ReceiveFragment(c, nal, false, true, nal[off - 1..]);
      assert nal[off - 1..|nal|] == nal[off - 1..];
    }
  }

  lemma {:induction false} ReceiveWhole(c: Codec, nal: seq<bv8>)
    requires |nal| >= FuLength(c) - 1 && !Aggregation(c, nal) && !Fragmented(c, nal)
    ensures Receive(c, nal) == Some(Received(nal, true, true))
  {
  }

  /** One accepted packet. */
  lemma {:induction false} ReassembleStep(c: Codec, packet: seq<bv8>, more: seq<seq<bv8>>, partial: Option<seq<bv8>>, r: Received)
    requires Receive(c, packet) == Some(r) && (r.begins || partial.Some?)
    ensures var collected := if r.begins then r.data else partial.value + r.data;
      Reassemble(c, [packet] + more, partial)
      == if r.completes then [collected] + Reassemble(c, more, None) else Reassemble(c, more, Some(collected))
  {
    hide Receive;
    assert ([packet] + more)[1..] == more;
  }

  /** From any point of a unit on, the remaining packets complete it and leave the receiver ready for the next. */
  lemma {:induction false} RestReassembles(c: Codec, nal: seq<bv8>, off: nat, m: nat, more: seq<seq<bv8>>)
    requires m >= MinLimit(c) && Sendable(c, nal, m) && 1 <= off <= |nal| && (off > 1 ==> |nal| > m)
    ensures Reassemble(c, Packets(c, nal, off, m) + more, if off == 1 then None else Some(nal[..off - 1]))
            == [nal] + Reassemble(c, more, None)
    decreases |nal| - off
  {
    hide Packet, NextOffset, Receive, Sendable, Reassemble;
    var partial := if off == 1 then None else Some(nal[..off - 1]);
    var next := NextOffset(c, nal, off, m);
    var p, rest := Packet(c, nal, off, m), Packets(c, nal, next, m) + more;
    var data := nal[off - 1..next - 1];
    PacketReceived(c, nal, off, m);
    ReassembleStep(c, p, rest, partial, Received(data, off == 1, next == |nal| + 1));
    assert Packets(c, nal, off, m) + more == [p] + rest;
    assert (if off == 1 then data else nal[..off - 1] + data) == nal[..next - 1];
    if next == |nal| + 1 {
      assert nal[..next - 1] == nal;
      assert rest == more;
    } else {
      NextStaysInside(c, nal, off, m);
      RestReassembles(c, nal, next, m, more);
    }
  }

  lemma {:induction false} NextStaysInside(c: Codec, nal: seq<bv8>, off: nat, m: nat)
    requires m >= MinLimit(c) && 1 <= off <= |nal| && (off > 1 ==> |nal| > m)
    requires NextOffset(c, nal, off, m) <= |nal|
    ensures |nal| > m
    ensures off > 1 ==> NextOffset(c, nal, off, m) > off
  {
  }

  function Stream(c: Codec, nals: seq<seq<bv8>>, m: nat): seq<seq<bv8>>
    requires m >= MinLimit(c)
  {
    if nals == [] then [] else Packets(c, nals[0], 1, m) + Stream(c, nals[1..], m)
  }

  /** Depacketising the packets of any sequence of units gives back exactly those units. */
  lemma {:induction false} StreamReassembles(c: Codec, nals: seq<seq<bv8>>, m: nat)
    requires m >= MinLimit(c) && forall i :: 0 <= i < |nals| ==> Sendable(c, nals[i], m)
    ensures Reassemble(c, Stream(c, nals, m), None) == nals
    decreases |nals|
  {
    hide Sendable, Packets;
    if nals != [] {
      assert |nals[0]| >= 1 by { SendableNonEmpty(c, nals[0], m); }
      RestReassembles(c, nals[0], 1, m, Stream(c, nals[1..], m));
      StreamReassembles(c, nals[1..], m);
    }
  }

  lemma {:induction false} SendableNonEmpty(c: Codec, nal: seq<bv8>, m: nat)
    requires Sendable(c, nal, m)
    ensures nal != []
  {
  }

  /** Every packet is non-empty and within the limit. */
  lemma {:induction false} PacketsWithinLimit(c: Codec, nal: seq<bv8>, off: nat, m: nat)
    requires m >= MinLimit(c) && Sendable(c, nal, m) && 1 <= off <= |nal| + 1 && (off > 1 ==> |nal| > m || off == |nal| + 1)
    ensures forall i :: 0 <= i < |Packets(c, nal, off, m)| ==> 0 < |Packets(c, nal, off, m)[i]| <= m
    decreases |nal| + 1 - off
  {
    hide Packet, NextOffset, Receive, Sendable;
    if off <= |nal| {
      PacketReceived(c, nal, off, m);
      var next := NextOffset(c, nal, off, m);
      if next <= |nal| { NextStaysInside(c, nal, off, m); }
      PacketsWithinLimit(c, nal, next, m);
    }
  }

  /** A fragment as the formats lay it out: FU-A (type 28), with the high bits of the unit's header; or type 49, with the unit's layer
      and temporal ids; and then the start bit, the end bit and the unit's type. */
  predicate IsFragment(c: Codec, p: seq<bv8>, nal: seq<bv8>, start: bool, end: bool)
    requires |nal| >= FuLength(c) - 1
  {
    match c
    case H264 =>
      && |p| >= 2 && p[0] & 0x1F == 28 && p[0] & 0xE0 == nal[0] & 0xE0
      && p[1] & 0x1F == nal[0] & 0x1F && p[1] & 0x20 == 0 && (p[1] & 0x80 == 0x80) == start && (p[1] & 0x40 == 0x40) == end
    case H265 =>
      && |p| >= 3 && (p[0] >> 1) & 0x3F == 49 && p[0] & 0x81 == nal[0] & 0x81 && p[1] == nal[1]
      && p[2] & 0x3F == (nal[0] >> 1) & 0x3F && (p[2] & 0x80 == 0x80) == start && (p[2] & 0x40 == 0x40) == end
  }

  lemma {:induction false} PrefixIsFragment(c: Codec, nal: seq<bv8>, s: bool, e: bool, data: seq<bv8>)
    requires |nal| >= FuLength(c) - 1
    ensures IsFragment(c, FuPrefix(c, nal, s, e) + data, nal, s, e)
  {
    match c {
      case H264 => FuBits264(nal[0], s, e);
      case H265 => FuBits265(nal[0], s, e);
    }
  }

  lemma {:induction false} FuBits264(n: bv8, s: bool, e: bool)
    ensures var i, fu := (n & 0xE0) | 28, FuHeader(s, e, n & 0x1F);
      && i & 0x1F == 28 && i & 0xE0 == n & 0xE0
      && fu & 0x1F == n & 0x1F && fu & 0x20 == 0 && (fu & 0x80 == 0x80) == s && (fu & 0x40 == 0x40) == e
  {
  }

  lemma {:induction false} FuBits265(n: bv8, s: bool, e: bool)
    ensures var i, fu := (n & 0x81) | 98, FuHeader(s, e, (n & 0x7E) >> 1);
      && (i >> 1) & 0x3F == 49 && i & 0x81 == n & 0x81
      && fu & 0x3F == (n >> 1) & 0x3F && (fu & 0x80 == 0x80) == s && (fu & 0x40 == 0x40) == e
  {
  }

  lemma {:induction false} PacketIsFragment(c: Codec, nal: seq<bv8>, off: nat, m: nat)
    requires m >= MinLimit(c) && |nal| > m && 1 <= off <= |nal|
    ensures var p, next := Packet(c, nal, off, m), NextOffset(c, nal, off, m);
      IsFragment(c, p, nal, off == 1, next > |nal|) && (next <= |nal| ==> |p| == m)
  {
    hide FuPrefix, IsFragment;
    var h := FuLength(c);
    PrefixIsFragment(c, nal, true, false, nal[h - 1..m - 1]);
    if off > 1 && h + (|nal| + 1 - off) > m {
      PrefixIsFragment(c, nal, false, false, nal[off - 1..off - 1 + (m - h)]);
    } else if off > 1 {
      PrefixIsFragment(c, nal, false, true, nal[off - 1..]);
    }
  }

  /** The packets of a unit over the limit are fragments, of which only the first has the start bit and only the last the end bit,
      and all but the last are as long as the limit allows. */
  lemma {:induction false} PacketsAreFull(c: Codec, nal: seq<bv8>, off: nat, m: nat)
    requires m >= MinLimit(c) && |nal| > m && 1 <= off <= |nal|
    ensures var ps := Packets(c, nal, off, m);
      && ps != [] && forall i :: 0 <= i < |ps| ==>
        IsFragment(c, ps[i], nal, off == 1 && i == 0, i == |ps| - 1) && (i < |ps| - 1 ==> |ps[i]| == m)
    decreases |nal| - off
  {
    hide Packet, NextOffset, IsFragment;
    PacketIsFragment(c, nal, off, m);
    var next := NextOffset(c, nal, off, m);
    if next <= |nal| {
      PacketsAreFull(c, nal, next, m);
      var ps, rest := Packets(c, nal, off, m), Packets(c, nal, next, m);
      assert forall i :: 0 < i < |ps| ==> ps[i] == rest[i - 1];
    }
  }

  /** A unit that fits one packet but whose type is an aggregation or fragmentation type is not received as itself. */
  lemma {:induction false} SpecialTypesAreMisread(c: Codec, nal: seq<bv8>, m: nat)
    requires m >= MinLimit(c) && FuLength(c) - 1 <= |nal| <= m
    ensures Reassemble(c, Packets(c, nal, 1, m), None) == [nal] <==> Sendable(c, nal, m)
  {
  }
}
