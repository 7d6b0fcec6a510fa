/** Aggregation packets from end to end: built as section 5.7 of RFC 6184 and section 4.4.2 of RFC 7798 lay them out, and taken
    apart by the receivers. */
module Aggregations {
  import opened Codecs
  import opened Options
  import opened Bits
  import opened NalReceivers

  // ---------- The layout ----------

  /** A NAL unit to be put into a packet, with the bytes that stand between its size and itself. */
  datatype Piece = Piece(extra: seq<bv8>, nal: seq<bv8>)

  predicate PiecesOk(pieces: seq<Piece>, extra: nat) {
    forall i :: 0 <= i < |pieces| ==> |pieces[i].extra| == extra && 0 < |pieces[i].nal| < 0x1_0000
  }

  /** Sixteen bits, the high octet first. */
  function SizeField(n: nat): seq<bv8> {
    [OctetOf(n / 256), OctetOf(n % 256)]
  }

  function PieceBytes(pieces: seq<Piece>): seq<bv8> {
    if pieces == [] then [] else SizeField(|pieces[0].nal|) + pieces[0].extra + pieces[0].nal + PieceBytes(pieces[1..])
  }

  function UnitsOf(pieces: seq<Piece>): seq<seq<bv8>> {
    seq(|pieces|, i requires 0 <= i < |pieces| => pieces[i].nal)
  }

  /** The H.264 packets: STAP-A; STAP-B with a decoding order number; MTAP16 and MTAP24 with a number, and with its difference
      and a timestamp offset of 16 or 24 bits for each unit. */
  predicate Packet264(head: bv8, don: seq<bv8>, pieces: seq<Piece>) {
    var t := head & 0x1F;
    || (t == 24 && don == [] && PiecesOk(pieces, 0))
    || (t == 25 && |don| == 2 && PiecesOk(pieces, 0))
    || (t == 26 && |don| == 2 && PiecesOk(pieces, 3))
    || (t == 27 && |don| == 2 && PiecesOk(pieces, 4))
  }

  // ---------- Taken apart ----------

  /** What is left of a packet once `n` bytes have been skipped. */
  function Skipped(packet: seq<bv8>, n: nat): seq<bv8> {
    packet[Min(n, |packet|)..]
  }

  /** An aggregation packet after processSpecialHeader, taken apart by repeated nextEnclosedFrameSize. */
  function Parts264(packet: seq<bv8>): Option<Parted> {
    var s :- Special264(packet);
    var l :- Layout264(packet[0] & 0x1F);
    Some(Split(l, l, Skipped(s.packet, s.skip)))
  }

  function Parts265(packet: seq<bv8>, expectDONFields: bool): Option<Parted> {
    var s :- Special265(packet, expectDONFields);
    var first :- Layout265((packet[0] & 0x7E) >> 1, true, expectDONFields);
    var rest :- Layout265((packet[0] & 0x7E) >> 1, false, expectDONFields);
    Some(Split(first, rest, Skipped(s.packet, s.skip)))
  }

  // ---------- H.264 ----------

  function Items(pieces: seq<Piece>): (items: seq<Item>)
    ensures |items| == |pieces| && forall i :: 0 <= i < |items| ==> items[i] == Item([], pieces[i].extra, pieces[i].nal)
  {
    seq(|pieces|, i requires 0 <= i < |pieces| => Item([], pieces[i].extra, pieces[i].nal))
  }

  lemma {:induction false} PiecesJoin(pieces: seq<Piece>, extra: nat)
    requires PiecesOk(pieces, extra)
    ensures Joined(Layout(0, extra), Layout(0, extra), Items(pieces), [], PieceBytes(pieces))
    ensures Nals(Items(pieces)) == UnitsOf(pieces)
    decreases |pieces|
  {
    hide OctetOf;
    var l := Layout(0, extra);
    if pieces == [] {
    } else {
      PiecesJoin(pieces[1..], extra);
      var item := Item([], pieces[0].extra, pieces[0].nal);
      assert Items(pieces) == [item] + Items(pieces[1..]);
      JoinedMore(l, l, item, Items(pieces[1..]), [], PieceBytes(pieces[1..]));
      assert ItemBytes(item) == SizeField(|item.nal|) + item.behind + item.nal;
      assert UnitsOf(pieces) == [pieces[0].nal] + UnitsOf(pieces[1..]);
      assert Items(pieces)[1..] == Items(pieces[1..]);
    }
  }

  /** Every such packet is accepted, and comes apart into exactly the units it was built from. */
  lemma {:induction false} Packet264ComesApart(head: bv8, don: seq<bv8>, pieces: seq<Piece>)
    requires Packet264(head, don, pieces)
    ensures Parts264([head] + don + PieceBytes(pieces)) == Some(Parted(UnitsOf(pieces), Done))
  {
    hide Joined, Split, PieceBytes, UnitsOf, PiecesOk;
    var packet, data := [head] + don + PieceBytes(pieces), PieceBytes(pieces);
    var t := head & 0x1F;
    var extra := if t == 26 then 3 else if t == 27 then 4 else 0;
    PiecesJoin(pieces, extra);
    var l := Layout(0, extra);
    SplitInvertsAggregation(l, l, Items(pieces), [], data);
    assert packet[0] == head && packet[1 + |don|..] == data;
  }

  // ---------- H.265 ----------

  predicate NalsOk(nals: seq<seq<bv8>>) {
    forall i :: 0 <= i < |nals| ==> 0 < |nals[i]| < 0x1_0000
  }

  /** The units behind the first one, each behind its DOND if there are such fields. */
  function LaterBytes(nals: seq<seq<bv8>>, donds: seq<bv8>, expectDONFields: bool): seq<bv8>
    requires expectDONFields ==> |donds| == |nals|
  {
    if nals == [] then []
    else (if expectDONFields then [donds[0]] else []) + SizeField(|nals[0]|) + nals[0]
         + LaterBytes(nals[1..], if expectDONFields then donds[1..] else [], expectDONFields)
  }

  function LaterItems(nals: seq<seq<bv8>>, donds: seq<bv8>, expectDONFields: bool): (items: seq<Item>)
    requires expectDONFields ==> |donds| == |nals|
    ensures |items| == |nals|
    ensures forall i :: 0 <= i < |items| ==> items[i] == Item(if expectDONFields then [donds[i]] else [], [], nals[i])
  {
    seq(|nals|, i requires 0 <= i < |nals| => Item(if expectDONFields then [donds[i]] else [], [], nals[i]))
  }

  lemma {:induction false} LaterJoin(nals: seq<seq<bv8>>, donds: seq<bv8>, expectDONFields: bool)
    requires NalsOk(nals) && (expectDONFields ==> |donds| == |nals|)
    ensures var l := Layout(if expectDONFields then 1 else 0, 0);
      Joined(l, l, LaterItems(nals, donds, expectDONFields), [], LaterBytes(nals, donds, expectDONFields))
    ensures Nals(LaterItems(nals, donds, expectDONFields)) == nals
    decreases |nals|
  {
    hide SizeField, ItemBytes, Joined;
    var l := Layout(if expectDONFields then 1 else 0, 0);
    if nals != [] {
      var ds := if expectDONFields then donds[1..] else [];
      LaterJoin(nals[1..], ds, expectDONFields);
      var items, item := LaterItems(nals[1..], ds, expectDONFields), Item(if expectDONFields then [donds[0]] else [], [], nals[0]);
      LaterFirst(nals, donds, expectDONFields);
      JoinedMore(l, l, item, items, [], LaterBytes(nals[1..], ds, expectDONFields));
      PlainItem(item);
      NalsFirst(item, items);
      assert nals == [nals[0]] + nals[1..];
    } else {
      NothingJoined(l);
    }
  }

  lemma {:induction false} LaterFirst(nals: seq<seq<bv8>>, donds: seq<bv8>, expectDONFields: bool)
    requires nals != [] && (expectDONFields ==> |donds| == |nals|)
    ensures var ds := if expectDONFields then donds[1..] else [];
      LaterItems(nals, donds, expectDONFields)
      == [Item(if expectDONFields then [donds[0]] else [], [], nals[0])] + LaterItems(nals[1..], ds, expectDONFields)
  {
  }

  lemma {:induction false} PlainItem(item: Item)
    requires item.behind == [] && |item.nal| < 0x1_0000
    ensures ItemBytes(item) == item.front + SizeField(|item.nal|) + item.nal
  {
    hide OctetOf;
  }

  lemma {:induction false} NalsFirst(item: Item, items: seq<Item>)
    ensures Nals([item] + items) == Nonempty(item.nal) + Nals(items)
  {
    assert ([item] + items)[1..] == items;
  }

  lemma {:induction false} NothingJoined(l: Layout)
    ensures Joined(l, l, [], [], []) && Nals([]) == []
  {
  }

  /** The whole packet: the two octets of its header, its DONL if there is one, the first unit and the others. */
  function Packet265(h0: bv8, h1: bv8, donl: seq<bv8>, nal: seq<bv8>, nals: seq<seq<bv8>>, donds: seq<bv8>, expectDONFields: bool): seq<bv8>
    requires expectDONFields ==> |donds| == |nals|
  {
    [h0, h1] + donl + (SizeField(|nal|) + nal + LaterBytes(nals, donds, expectDONFields))
  }

  lemma {:induction false} Packet265ComesApart(h0: bv8, h1: bv8, donl: seq<bv8>, nal: seq<bv8>, nals: seq<seq<bv8>>, donds: seq<bv8>,
                                               expectDONFields: bool)
    requires (h0 & 0x7E) >> 1 == 48 && |donl| == (if expectDONFields then 2 else 0) && (expectDONFields ==> |donds| == |nals|)
    requires 0 < |nal| < 0x1_0000 && NalsOk(nals)
    ensures Parts265(Packet265(h0, h1, donl, nal, nals, donds, expectDONFields), expectDONFields) == Some(Parted([nal] + nals, Done))
  {
    hide Joined, Split, LaterBytes, NalsOk, OctetOf;
    var packet := Packet265(h0, h1, donl, nal, nals, donds, expectDONFields);
    var later, items := LaterBytes(nals, donds, expectDONFields), LaterItems(nals, donds, expectDONFields);
    var first, rest, item := Layout(0, 0), Layout(if expectDONFields then 1 else 0, 0), Item([], [], nal);
    LaterJoin(nals, donds, expectDONFields);
    JoinedMore(first, rest, item, items, [], later);
    assert ItemBytes(item) == SizeField(|nal|) + nal;
    SplitInvertsAggregation(first, rest, [item] + items, [], ItemBytes(item) + later);
    assert ([item] + items)[1..] == items;
    assert packet[0] == h0 && packet[2 + |donl|..] == SizeField(|nal|) + nal + later;
  }

  // ---------- Decoding order numbers inside a packet ----------

  /** The counter when the unit at the beginning of `data` is looked at. */
  function DonAt(d: Don, first: bool, expectDONFields: bool, data: seq<bv8>): Don {
    if first || (expectDONFields && data == []) then d
    else if expectDONFields then NextDon(d, true, DonFromField(d, Dond(ByteNumber(data[0]))))
    else NextDon(d, false, 0)
  }

  /** The absolute decoding order number of each unit of a packet, as it is taken. */
  function Numbers265(d: Don, first: bool, expectDONFields: bool, data: seq<bv8>): seq<nat>
    decreases |data|
  {
    if data == [] then [] else
      var e, d' := NextEnclosed(Layout265(48, first, expectDONFields), data), DonAt(d, first, expectDONFields, data);
      if e.advance + e.size == 0 || e.advance + e.size > |data| then []
      else
        (if e.size > 0 then [d'.absDon] else []) + Numbers265(d', false, expectDONFields, data[e.advance + e.size..])
  }

  /** The true numbers of the units: the first, and one more than DOND above it for each of the others. */
  function Counted(n: nat, donds: seq<bv8>): seq<nat>
    decreases |donds|
  {
    [n] + if donds == [] then [] else Counted(n + ByteNumber(donds[0]) + 1, donds[1..])
  }

  lemma {:induction false} DondCounts(d: Don, t: nat, dond: bv8)
    requires Tracks(d, t) && t + 256 < NO_UNIT_YET
    ensures Tracks(NextDon(d, true, DonFromField(d, Dond(ByteNumber(dond)))), t + ByteNumber(dond) + 1)
  {
    hide ByteNumber, NextDon;
    var u := t + ByteNumber(dond) + 1;
    DondIsDon(t, ByteNumber(dond));
    NextDonRightIff(d, t, u);
  }

  lemma {:induction false} LaterStep(nals: seq<seq<bv8>>, donds: seq<bv8>)
    requires nals != [] && |donds| == |nals| && NalsOk(nals)
    ensures var data, more := LaterBytes(nals, donds, true), LaterBytes(nals[1..], donds[1..], true);
      var e := NextEnclosed(Layout265(48, false, true), data);
      data != [] && data[0] == donds[0] && e.size == |nals[0]| > 0 && e.advance + e.size <= |data| && data[e.advance + e.size..] == more
  {
    hide OctetOf, NextEnclosed, ItemBytes;
    var item := Item([donds[0]], [], nals[0]);
    PlainItem(item);
    var more := LaterBytes(nals[1..], donds[1..], true);
    EnclosedUnit(Layout(1, 0), item, more);
    assert LaterBytes(nals, donds, true) == ItemBytes(item) + more;
  }

  lemma {:induction false} LaterNumbers(d: Don, t: nat, nals: seq<seq<bv8>>, donds: seq<bv8>)
    requires |donds| == |nals| && NalsOk(nals) && Tracks(d, t) && t + 256 * |nals| < NO_UNIT_YET
    ensures [t] + Numbers265(d, false, true, LaterBytes(nals, donds, true)) == Counted(t, donds)
    decreases |nals|
  {
    hide NextEnclosed, NextDon, ByteNumber, SizeField, DonFromField, Layout265;
    if nals != [] {
      var data := LaterBytes(nals, donds, true);
      LaterStep(nals, donds);
      DondCounts(d, t, donds[0]);
      var d' := DonAt(d, false, true, data);
      LaterNumbers(d', t + ByteNumber(donds[0]) + 1, nals[1..], donds[1..]);
    }
  }

  /** The DONL field of an aggregation packet, and of a fragment, is read from its place. */
  lemma {:induction false} DonlCarried(h0: bv8, h1: bv8, fu: seq<bv8>, hi: bv8, lo: bv8, data: seq<bv8>)
    requires ((h0 & 0x7E) >> 1 == 48 && fu == []) || ((h0 & 0x7E) >> 1 == 49 && |fu| == 1)
    ensures CarriedDon([h0, h1] + fu + [hi, lo] + data, true) == ByteNumber(hi) * 256 + ByteNumber(lo)
  {
    hide ByteNumber;
    var packet := [h0, h1] + fu + [hi, lo] + data;
    assert packet[0] == h0;
    if fu == [] { assert packet[2] == hi && packet[3] == lo; } else { assert packet[3] == hi && packet[4] == lo; }
  }

  /** Through a whole aggregation packet that carries the low 16 bits of its first unit's number, less than 2^15 away from the last one,
      and the differences of the others, the counter gives the true number of every unit. */
  lemma {:induction false} Packet265Numbers(d: Don, t: nat, n: nat, h0: bv8, h1: bv8, nal: seq<bv8>, nals: seq<seq<bv8>>, donds: seq<bv8>)
    requires (h0 & 0x7E) >> 1 == 48 && |donds| == |nals| && 0 < |nal| < 0x1_0000 && NalsOk(nals)
    requires Tracks(d, t) && -0x8000 <= n - t < 0x8000 && n + 256 * |nals| < NO_UNIT_YET
    ensures var packet := Packet265(h0, h1, SizeField(n % 0x1_0000), nal, nals, donds, true);
      && Special265(packet, true).Some?
      && Numbers265(NextDon(d, true, CarriedDon(packet, true)), true, true, Skipped(packet, Special265(packet, true).value.skip)) == Counted(n, donds)
  {
    hide NextEnclosed, NextDon, CarriedDon, LaterBytes, SizeField, ByteNumber, Special265, Packet265, Skipped, NalsOk;
    var data := SizeField(|nal|) + nal + LaterBytes(nals, donds, true);
    var packet := Packet265(h0, h1, SizeField(n % 0x1_0000), nal, nals, donds, true);
    Packet265Header(h0, h1, n % 0x1_0000, nal, nals, donds);
    NextDonRightIff(d, t, n);
    DataNumbers(NextDon(d, true, n % 0x1_0000), n, nal, nals, donds);
  }

  lemma {:induction false} Packet265Header(h0: bv8, h1: bv8, don: nat, nal: seq<bv8>, nals: seq<seq<bv8>>, donds: seq<bv8>)
    requires (h0 & 0x7E) >> 1 == 48 && |donds| == |nals| && don < 0x1_0000
    ensures var packet := Packet265(h0, h1, SizeField(don), nal, nals, donds, true);
      && Special265(packet, true).Some? && CarriedDon(packet, true) == don
      && Skipped(packet, Special265(packet, true).value.skip) == SizeField(|nal|) + nal + LaterBytes(nals, donds, true)
  {
    hide CarriedDon, LaterBytes, OctetOf, ByteNumber;
    var donl, data := SizeField(don), SizeField(|nal|) + nal + LaterBytes(nals, donds, true);
    var packet := Packet265(h0, h1, donl, nal, nals, donds, true);
    assert packet == [h0, h1] + [] + [donl[0], donl[1]] + data;
    DonlCarried(h0, h1, [], donl[0], donl[1], data);
    SizeBytes(don);
    assert packet[0] == h0 && packet[4..] == data;
  }

  lemma {:induction false} DataNumbers(d: Don, n: nat, nal: seq<bv8>, nals: seq<seq<bv8>>, donds: seq<bv8>)
    requires |donds| == |nals| && 0 < |nal| < 0x1_0000 && NalsOk(nals) && Tracks(d, n) && n + 256 * |nals| < NO_UNIT_YET
    ensures Numbers265(d, true, true, SizeField(|nal|) + nal + LaterBytes(nals, donds, true)) == Counted(n, donds)
  {
    hide NextEnclosed, LaterBytes, SizeField, NalsOk, Numbers265, Counted, ItemBytes;
    var item, later := Item([], [], nal), LaterBytes(nals, donds, true);
    var data := SizeField(|nal|) + nal + later;
    PlainItem(item);
    EnclosedUnit(Layout(0, 0), item, later);
    assert data == ItemBytes(item) + later;
    LaterNumbers(d, n, nals, donds);
    FirstNumber(d, data, later, |nal|);
  }

  lemma {:induction false} FirstNumber(d: Don, data: seq<bv8>, later: seq<bv8>, size: nat)
    requires data != [] && size > 0
    requires var e := NextEnclosed(Some(Layout(0, 0)), data);
      e.size == size && e.advance + size <= |data| && data[e.advance + size..] == later
    ensures Numbers265(d, true, true, data) == [d.absDon] + Numbers265(d, false, true, later)
  {
    hide NextEnclosed, NextDon, ByteNumber;
  }

  // ---------- The receivers at work ----------

  /** The units of an H.264 aggregation packet, as the packet is used up. */
  method TakeApart264(source: H264VideoRTPSource, packet: array<bv8>) returns (ok: bool, units: seq<seq<bv8>>, end: End)
    requires packet.Length > 0 ==> 24 <= packet[0] & 0x1F <= 27
    modifies source, packet
    ensures ok == Parts264(old(packet[..])).Some?
    ensures ok ==> Parts264(old(packet[..])) == Some(Parted(units, end))
  {
    hide Special264, Split, NextEnclosed, Layout264;
    units, end := [], Done;
    ghost var was := packet[..];
    SpecialKeepsType(was);
    var skip;
    ok, skip := source.ProcessSpecialHeader(packet);
    if !ok { return; }
    HasLayout(source.fCurPacketNALUnitType);
    var head := Min(skip, packet.Length);
    ghost var l, bytes := Layout264(source.fCurPacketNALUnitType).value, packet[..];
    ghost var all := Split(l, l, bytes[head..]);
    NothingYet(all);
    while head < packet.Length
      invariant head <= packet.Length && packet[..] == bytes && Layout264(source.fCurPacketNALUnitType) == Some(l)
      invariant all == Followed(units, Split(l, l, bytes[head..]))
      decreases packet.Length - head
    {
      PartsTaken(l, l, bytes, head, units);
      assert packet[head..] == bytes[head..];
      var advance, size := source.NextEnclosedFrameSize(packet[head..]);
      if advance + size == 0 { end := Stuck; return; }
      if head + advance + size > packet.Length { end := Beyond; return; }
      units := units + Nonempty(packet[head + advance..head + advance + size]);
      head := head + advance + size;
    }
    AllPartsTaken(l, l, bytes, units);
  }

  function Followed(units: seq<seq<bv8>>, more: Parted): Parted {
    Parted(units + more.units, more.end)
  }

  lemma {:induction false} NothingYet(all: Parted)
    ensures Followed([], all) == all
  {
  }

  lemma {:induction false} HasLayout(nalType: bv8)
    ensures 24 <= nalType <= 27 <==> Layout264(nalType).Some?
  {
  }

  /** The units of an H.265 aggregation packet, with their numbers. */
  method TakeApart265(source: H265VideoRTPSource, packet: array<bv8>) returns (ok: bool, units: seq<seq<bv8>>, numbers: seq<nat>, end: End)
    requires packet.Length >= 2 ==> (packet[0] & 0x7E) >> 1 == 48
    modifies source, packet
    ensures ok == Parts265(old(packet[..]), source.fExpectDONFields).Some?
    ensures ok ==> Parts265(old(packet[..]), source.fExpectDONFields) == Some(Parted(units, end))
    ensures ok ==>
              var bytes, dons := old(packet[..]), source.fExpectDONFields;
              numbers == Numbers265(NextDon(old(source.DonState()), dons, CarriedDon(bytes, dons)), true, dons,
                                    Skipped(bytes, Special265(bytes, dons).value.skip))
  {
    hide Special265, Split, NextEnclosed, Layout265, NextDon, CarriedDon, Numbers265, DonAt;
    units, numbers, end := [], [], Done;
    Special265Keeps(packet[..], source.fExpectDONFields);
    var skip;
    ok, skip := source.ProcessSpecialHeader(packet);
    if !ok { return; }
    HasLayouts(source.fExpectDONFields);
    units, numbers, end := TakeUnits265(source, packet, Min(skip, packet.Length));
  }

  /** The bytes of the packet from `start` on. */
  method TakeUnits265(source: H265VideoRTPSource, packet: array<bv8>, start: nat) returns (units: seq<seq<bv8>>, numbers: seq<nat>, end: End)
    requires start <= packet.Length && source.fCurPacketNALUnitType == 48
    requires Layout265(48, true, source.fExpectDONFields).Some? && Layout265(48, false, source.fExpectDONFields).Some?
    modifies source`fPreviousNALUnitDON, source`fCurrentNALUnitAbsDon
    ensures Parted(units, end) == Split(Layout265(48, true, source.fExpectDONFields).value, Layout265(48, false, source.fExpectDONFields).value, packet[start..])
    ensures numbers == Numbers265(old(source.DonState()), true, source.fExpectDONFields, packet[start..])
  {
    hide Split, NextEnclosed, Layout265, NextDon, Numbers265, DonAt, DonFromField, Followed;
    units, numbers, end := [], [], Done;
    var head, useCount := start, 0;
    ghost var bytes, dons := packet[..], source.fExpectDONFields;
    ghost var first, later := Layout265(48, true, dons).value, Layout265(48, false, dons).value;
    ghost var all, allNumbers := Split(first, later, bytes[head..]), Numbers265(source.DonState(), true, dons, bytes[head..]);
    assert packet[start..] == bytes[start..];
    NothingYet(all);
    assert [] + allNumbers == allNumbers;
    while head < packet.Length
      invariant head <= packet.Length && packet[..] == bytes && source.fCurPacketNALUnitType == 48
      invariant all == Followed(units, Split(if useCount == 0 then first else later, later, bytes[head..]))
      invariant allNumbers == numbers + Numbers265(source.DonState(), useCount == 0, dons, bytes[head..])
      decreases packet.Length - head
    {
      PartsTaken(if useCount == 0 then first else later, later, bytes, head, units);
      NumberTaken(source.DonState(), useCount == 0, dons, bytes, head, numbers);
      DonAtIs(source.DonState(), useCount == 0, dons, bytes[head..]);
      assert packet[head..] == bytes[head..];
      var advance, size := source.NextEnclosedFrameSize(packet[head..], useCount);
      if advance + size == 0 { end := Stuck; return; }
      if head + advance + size > packet.Length { end := Beyond; return; }
      units := units + Nonempty(packet[head + advance..head + advance + size]);
      numbers := numbers + if size > 0 then [source.fCurrentNALUnitAbsDon] else [];
      head, useCount := head + advance + size, useCount + 1;
    }
    AllPartsTaken(if useCount == 0 then first else later, later, bytes, units);
    NoNumbersLeft(source.DonState(), useCount == 0, dons, bytes, numbers);
  }

  lemma {:induction false} Special265Keeps(packet: seq<bv8>, expectDONFields: bool)
    ensures Special265(packet, expectDONFields).Some? && (packet[0] & 0x7E) >> 1 == 48 ==>
              Special265(packet, expectDONFields).value.packet == packet
    ensures Special265(packet, expectDONFields).Some? ==> |packet| >= 2
  {
  }

  lemma {:induction false} HasLayouts(expectDONFields: bool)
    ensures Layout265(48, true, expectDONFields).Some? && Layout265(48, false, expectDONFields).Some?
  {
  }

  /** One more unit is taken from the packet, or its end is reached. */
  lemma {:induction false} PartsTaken(first: Layout, rest: Layout, bytes: seq<bv8>, head: nat, units: seq<seq<bv8>>)
    requires head < |bytes|
    ensures var e := NextEnclosed(Some(first), bytes[head..]);
      var next := head + e.advance + e.size;
      Followed(units, Split(first, rest, bytes[head..])) ==
      if e.advance + e.size == 0 then Parted(units, Stuck)
      else if next > |bytes| then Parted(units, Beyond)
      else Followed(units + Nonempty(bytes[head + e.advance..next]), Split(rest, rest, bytes[next..]))
  {
    hide Split, NextEnclosed, Nonempty;
    SplitStep(first, rest, bytes[head..]);
    var e := NextEnclosed(Some(first), bytes[head..]);
    var next := head + e.advance + e.size;
    if next <= |bytes| {
      var unit, more := bytes[head + e.advance..next], Split(rest, rest, bytes[next..]).units;
      assert bytes[head..][e.advance..e.advance + e.size] == unit && bytes[head..][e.advance + e.size..] == bytes[next..];
      assert units + (Nonempty(unit) + more) == (units + Nonempty(unit)) + more;
    }
    assert units + [] == units;
  }

  lemma {:induction false} AllPartsTaken(first: Layout, rest: Layout, bytes: seq<bv8>, units: seq<seq<bv8>>)
    ensures Followed(units, Split(first, rest, bytes[|bytes|..])) == Parted(units, Done)
  {
    assert bytes[|bytes|..] == [];
    assert units + [] == units;
  }

  lemma {:induction false} NumberTaken(d: Don, first: bool, dons: bool, bytes: seq<bv8>, head: nat, numbers: seq<nat>)
    requires head < |bytes|
    ensures var e, d' := NextEnclosed(Layout265(48, first, dons), bytes[head..]), DonAt(d, first, dons, bytes[head..]);
      var next := head + e.advance + e.size;
      numbers + Numbers265(d, first, dons, bytes[head..]) ==
      if e.advance + e.size == 0 || next > |bytes| then numbers
      else numbers + (if e.size > 0 then [d'.absDon] else []) + Numbers265(d', false, dons, bytes[next..])
  {
    hide NextEnclosed, DonAt, Layout265, Numbers265;
    var e, d' := NextEnclosed(Layout265(48, first, dons), bytes[head..]), DonAt(d, first, dons, bytes[head..]);
    var next := head + e.advance + e.size;
    NumberStep(d, first, dons, bytes[head..]);
    if next <= |bytes| {
      assert bytes[head..][e.advance + e.size..] == bytes[next..];
      JoinThree(numbers, if e.size > 0 then [d'.absDon] else [], Numbers265(d', false, dons, bytes[next..]));
    }
    JoinThree(numbers, [], []);
  }

  lemma {:induction false} JoinThree(a: seq<nat>, b: seq<nat>, c: seq<nat>)
    ensures a + (b + c) == (a + b) + c && a + [] == a
  {
  }

  lemma {:induction false} NumberStep(d: Don, first: bool, dons: bool, data: seq<bv8>)
    requires data != []
    ensures var e, d' := NextEnclosed(Layout265(48, first, dons), data), DonAt(d, first, dons, data);
      Numbers265(d, first, dons, data) ==
      if e.advance + e.size == 0 || e.advance + e.size > |data| then []
      else (if e.size > 0 then [d'.absDon] else []) + Numbers265(d', false, dons, data[e.advance + e.size..])
  {
    hide NextEnclosed, DonAt, Layout265;
  }

  lemma {:induction false} NoNumbersLeft(d: Don, first: bool, expectDONFields: bool, bytes: seq<bv8>, numbers: seq<nat>)
    ensures numbers + Numbers265(d, first, expectDONFields, bytes[|bytes|..]) == numbers
  {
  }

  lemma {:induction false} DonAtIs(d: Don, first: bool, expectDONFields: bool, data: seq<bv8>)
    ensures DonAt(d, first, expectDONFields, data) ==
            if first || (expectDONFields && data == []) then d
            else if expectDONFields then NextDon(d, true, DonFromField(d, Dond(ByteNumber(data[0]))))
            else NextDon(d, false, 0)
  {
    hide NextDon, ByteNumber, DonFromField;
  }

  lemma {:induction false} SplitStep(first: Layout, rest: Layout, data: seq<bv8>)
    requires data != []
    ensures var e := NextEnclosed(Some(first), data);
      Split(first, rest, data) ==
      if e.advance + e.size == 0 then Parted([], Stuck)
      else if e.advance + e.size > |data| then Parted([], Beyond)
      else
        var more := Split(rest, rest, data[e.advance + e.size..]);
        Parted(Nonempty(data[e.advance..e.advance + e.size]) + more.units, more.end)
  {
  }

  /** processSpecialHeader leaves the type of an aggregation packet as it is. */
  lemma {:induction false} SpecialKeepsType(packet: seq<bv8>)
    ensures Special264(packet).Some? ==> packet != [] && Special264(packet).value.packet[0] == packet[0]
  {
  }

  /** A STAP-A packet with the beginnings of a sequence parameter set and of a picture parameter set. */
  lemma {:induction false} TwoParameterSets()
    ensures Parts264([0x18, 0, 2, 0x67, 0x42, 0, 1, 0x68]) == Some(Parted([[0x67, 0x42], [0x68]], Done))
  {
    hide Split, SizeField, Parts264;
    var pieces := [Piece([], [0x67, 0x42]), Piece([], [0x68])];
    SmallSizes();
    assert PieceBytes(pieces[1..]) == [0, 1, 0x68] by { assert pieces[1..][1..] == []; }
    assert PieceBytes(pieces) == [0, 2, 0x67, 0x42, 0, 1, 0x68];
    assert 0x18 & 0x1F == 24 as bv8;
    Packet264ComesApart(0x18, [], pieces);
    assert [0x18] + [] + PieceBytes(pieces) == [0x18, 0, 2, 0x67, 0x42, 0, 1, 0x68];
    assert UnitsOf(pieces) == [[0x67, 0x42], [0x68]];
  }

  lemma {:induction false} SmallSizes()
    ensures SizeField(1) == [0, 1] && SizeField(2) == [0, 2]
  {
    hide OctetOf, ByteNumber;
    SmallNumbers();
    ByteRoundTrip(0);
    ByteRoundTrip(1);
    ByteRoundTrip(2);
  }

  lemma {:induction false} SmallNumbers()
    ensures ByteNumber(0) == 0 && ByteNumber(1) == 1 && ByteNumber(2) == 2
  {
    hide BitOf;
    LowBits(0);
    LowBits(1);
    LowBits(2);
    SmallBitsValue(0);
    SmallBitsValue(1);
    SmallBitsValue(2);
  }

  lemma {:induction false} LowBits(b: bv8)
    requires b < 4
    ensures !BitOf(b, 0) && !BitOf(b, 1) && !BitOf(b, 2) && !BitOf(b, 3) && !BitOf(b, 4) && !BitOf(b, 5)
    ensures (BitOf(b, 6) <==> b == 2 || b == 3) && (BitOf(b, 7) <==> b == 1 || b == 3)
  {
  }

  lemma {:induction false} SmallBitsValue(b: bv8)
    requires !BitOf(b, 0) && !BitOf(b, 1) && !BitOf(b, 2) && !BitOf(b, 3) && !BitOf(b, 4) && !BitOf(b, 5)
    ensures ByteNumber(b) == 2 * Digit(BitOf(b, 6)) + Digit(BitOf(b, 7))
  {
    hide BitOf, Pow2;
    var bits := ByteBits(b);
    assert FirstValue(bits, 0) == 0;
    assert FirstValue(bits, 1) == 0;
    assert FirstValue(bits, 2) == 0;
    assert FirstValue(bits, 3) == 0;
    assert FirstValue(bits, 4) == 0;
    assert FirstValue(bits, 5) == 0;
    assert FirstValue(bits, 6) == 0;
    assert FirstValue(bits, 7) == Digit(bits[6]);
  }
}
