/** The receiving side: the header bytes rebuilt inside the packet, aggregation packets taken apart, and absolute
    decoding order numbers recovered from 16-bit ones. */
module NalReceivers {
  import opened Codecs
  import opened Options
  import opened NalFragments
  import opened Bits

  const U16 := 0x1_0000
  const U64 := 0x1_0000_0000_0000_0000
  /** The value of the counter before the first unit. */
  const NO_UNIT_YET := U64 - 1

  // ---------- Decoding order numbers ----------

  datatype Don = Don(absDon: nat, previous: nat)

  const FIRST_DON := Don(NO_UNIT_YET, 0)

  /** The cast of a 16-bit difference to short. */
  function Short(x: int): int {
    var u := x % U16;
    if u < 0x8000 then u else u - U16
  }

  /** computeAbsDonFromDON, in 64-bit unsigned arithmetic. */
  function NextDon(d: Don, expectDONFields: bool, don: nat): Don {
    if !expectDONFields then Don((d.absDon + 1) % U64, d.previous)
    else if d.absDon == NO_UNIT_YET then Don(don, don)
    else Don((d.absDon + Short(don - d.previous)) % U64, don)
  }

  /** The counter stands at the true number `t` of the last unit. */
  predicate Tracks(d: Don, t: nat) {
    t < NO_UNIT_YET && d == Don(t, t % U16)
  }

  lemma {:induction false} ShortOfDifference(t: nat, u: nat)
    ensures -0x8000 <= u - t < 0x8000 <==> Short(u % U16 - t % U16) == u - t
    ensures Short(u % U16 - t % U16) % U16 == (u - t) % U16
  {
  }

  /** The difference of two true numbers is one a short can hold, on a counter of 64 bits. */
  predicate FitsShort(x: int) {
    -0x8000 <= x < 0x8000 || x >= U64 - 0x8000 || x < 0x8000 - U64
  }

  /** One step is right exactly when the true numbers differ by what a short can hold. */
  lemma {:induction false} NextDonRightIff(d: Don, t: nat, u: nat)
    requires Tracks(d, t) && u < NO_UNIT_YET
    ensures Tracks(NextDon(d, true, u % U16), u) <==> FitsShort(u - t)
  {
    hide Short;
    var s := Short(u % U16 - t % U16);
    ShortOfDifference(t, u);
    ShortRange(u % U16 - t % U16);
    ShortWraps(u % U16 - t % U16);
    SmallStep(t, s, u);
  }

  /** A short is congruent to the number it was cast from. */
  lemma {:induction false} ShortWraps(x: int)
    ensures Short(x) % U16 == x % U16
  {
  }

  lemma {:induction false} ShortRange(x: int)
    ensures -0x8000 <= Short(x) < 0x8000
  {
  }

  lemma {:induction false} SmallStep(t: nat, s: int, u: nat)
    requires -0x8000 <= s < 0x8000 && t < NO_UNIT_YET && u < NO_UNIT_YET && s % U16 == (u - t) % U16
    ensures (t + s) % U64 == u <==> FitsShort(u - t)
  {
    var x := u - t;
    CloseNumbersAgree(s, x);
    CloseNumbersAgree(s, x - U64);
    CloseNumbersAgree(s, x + U64);
    WrapMod(x);
    assert t + s < 0 ==> (t + s) % U64 == t + s + U64;
    assert t + s >= U64 ==> (t + s) % U64 == t + s - U64;
    assert 0 <= t + s < U64 ==> (t + s) % U64 == t + s;
  }

  lemma {:induction false} WrapMod(x: int)
    ensures (x - U64) % U16 == x % U16 == (x + U64) % U16
  {
  }

  lemma {:induction false} CloseNumbersAgree(s: int, x: int)
    requires -0x8000 <= s < 0x8000
    ensures -0x8000 <= x < 0x8000 && s % U16 == x % U16 ==> s == x
  {
  }

  /** How the number of the next unit travels: in full at the start of a packet, or as a difference minus one inside
      an aggregation packet. */
  datatype DonField = Donl(value: nat) | Dond(value: nat)

  function DonFromField(d: Don, f: DonField): nat {
    match f
    case Donl(v) => v
    case Dond(v) => (d.previous + (v + 1)) % U16
  }

  predicate Announces(f: DonField, t: nat, u: nat) {
    match f
    case Donl(v) => v == u % U16
    case Dond(v) => v <= 255 && u == t + v + 1
  }

  function TrackAll(d: Don, fields: seq<DonField>): Don
    decreases |fields|
  {
    if fields == [] then d else TrackAll(NextDon(d, true, DonFromField(d, fields[0])), fields[1..])
  }

  lemma {:induction false} DondIsDon(t: nat, v: nat)
    ensures (t % U16 + (v + 1)) % U16 == (t + v + 1) % U16
  {
  }

  /** Unit `i` follows its predecessor at less than 2^15, and its field says so; `t` precedes unit 0. */
  predicate Follows(t: nat, fields: seq<DonField>, numbers: seq<nat>, i: nat)
    requires i < |numbers| == |fields|
  {
    var before := if i == 0 then t else numbers[i - 1];
    && numbers[i] < NO_UNIT_YET && -0x8000 <= numbers[i] - before < 0x8000
    && Announces(fields[i], before, numbers[i])
  }

  /** Along any stream whose successive true numbers differ by less than 2^15, the counter equals the true number. */
  lemma {:induction false} TracksStream(d: Don, t: nat, fields: seq<DonField>, numbers: seq<nat>)
    requires Tracks(d, t) && |fields| == |numbers|
    requires forall i :: 0 <= i < |numbers| ==> Follows(t, fields, numbers, i)
    ensures TrackAll(d, fields).absDon == if numbers == [] then t else numbers[|numbers| - 1]
    decreases |fields|
  {
    hide NextDon;
    if fields != [] {
      var u := numbers[0];
      assert Follows(t, fields, numbers, 0);
      if fields[0].Dond? { DondIsDon(t, fields[0].value); }
      assert DonFromField(d, fields[0]) == u % U16;
      NextDonRightIff(d, t, u);
      forall i | 0 <= i < |numbers| - 1
        ensures Follows(u, fields[1..], numbers[1..], i)
      {
        assert Follows(t, fields, numbers, i + 1);
      }
      TracksStream(NextDon(d, true, u % U16), u, fields[1..], numbers[1..]);
    }
  }

  /** The same from the very first unit, whose true number must fit 16 bits. */
  lemma {:induction false} TracksFromStart(fields: seq<DonField>, numbers: seq<nat>)
    requires |fields| == |numbers| > 0 && numbers[0] < U16 && fields[0] == Donl(numbers[0])
    requires forall i :: 0 < i < |numbers| ==> Follows(numbers[0], fields, numbers, i)
    ensures TrackAll(FIRST_DON, fields).absDon == numbers[|numbers| - 1]
  {
    forall i | 0 <= i < |numbers| - 1
      ensures Follows(numbers[0], fields[1..], numbers[1..], i)
    {
      assert Follows(numbers[0], fields, numbers, i + 1);
    }
    TracksStream(Don(numbers[0], numbers[0]), numbers[0], fields[1..], numbers[1..]);
  }

  // ---------- Packets in arrays ----------

  function Min(a: int, b: int): int {
    if a < b then a else b
  }

  function Join(hi: bv8, lo: bv8): (v: nat)
    ensures v < U16
  {
    ByteNumber(hi) * 256 + ByteNumber(lo)
  }

  /** A packet after processSpecialHeader: its bytes, how many of them to skip, and whether it begins and completes a
      frame (not decided here for an aggregation packet). */
  datatype Special = Special(packet: seq<bv8>, skip: nat, flags: Option<(bool, bool)>)

  function Special264(packet: seq<bv8>): (r: Option<Special>)
    ensures r.Some? ==> r.value.skip <= 3 && r.value.packet != []
  {
    if |packet| < 1 then None
    else
      var nalType := packet[0] & 0x1F;
      if nalType == 24 then Some(Special(packet, 1, None))
      else if 25 <= nalType <= 27 then Some(Special(packet, 3, None))
      else if nalType == 28 || nalType == 29 then
        if |packet| < 2 then None
        else if packet[1] & 0x80 != 0 then
          Some(Special(packet[1 := (packet[0] & 0xE0) | (packet[1] & 0x1F)], 1, Some((true, packet[1] & 0x40 != 0))))
        else Some(Special(packet, 2, Some((false, packet[1] & 0x40 != 0))))
      else Some(Special(packet, 0, Some((true, true))))
  }

  /** The bytes left after the skip are what the packet carries. */
  lemma {:induction false} SpecialReceives264(packet: seq<bv8>)
    ensures Receive(H264, packet).Some? <==> Special264(packet).Some? && Special264(packet).value.flags.Some?
    ensures Receive(H264, packet).Some? ==>
              var r, s := Receive(H264, packet).value, Special264(packet).value;
              s.skip <= |s.packet| && s.packet[s.skip..] == r.data && s.flags == Some((r.begins, r.completes))
  {
  }

  // ---------- Aggregation packets ----------

  /** What surrounds the two-byte size of an enclosed unit: bytes in front of it, and between it and the unit. */
  datatype Layout = Layout(front: nat, behind: nat)

  function Layout264(nalType: bv8): Option<Layout> {
    if nalType == 24 || nalType == 25 then Some(Layout(0, 0))
    else if nalType == 26 then Some(Layout(0, 3)) // DOND and a 16-bit timestamp offset
    else if nalType == 27 then Some(Layout(0, 4)) // DOND and a 24-bit timestamp offset
    else None
  }

  function Layout265(nalType: bv8, first: bool, expectDONFields: bool): Option<Layout> {
    if nalType != 48 then None else if first || !expectDONFields then Some(Layout(0, 0)) else Some(Layout(1, 0))
  }

  /** How far nextEnclosedFrameSize moves the frame pointer, and the size it returns. */
  datatype Enclosed = Enclosed(advance: nat, size: nat)

  function NextEnclosed(layout: Option<Layout>, data: seq<bv8>): Enclosed {
    match layout
    case None => Enclosed(0, |data|)
    case Some(l) =>
      var rest := |data| - l.front;
      if |data| < l.front then Enclosed(0, 0)
      else if rest < 2 + l.behind then Enclosed(l.front, 0)
      else Enclosed(l.front + 2 + l.behind, Min(Join(data[l.front], data[l.front + 1]), rest))
  }

  /** A unit with its size, and arbitrary bytes where the layout has other fields. */
  datatype Item = Item(front: seq<bv8>, behind: seq<bv8>, nal: seq<bv8>)

  predicate ItemOk(l: Layout, item: Item) {
    |item.front| == l.front && |item.behind| == l.behind && |item.nal| < U16
  }

  function ItemBytes(item: Item): seq<bv8>
    requires |item.nal| < U16
  {
    item.front + [SizeHigh(|item.nal|), SizeLow(|item.nal|)] + item.behind + item.nal
  }

  /** Whatever follows it, an enclosed unit is found behind its size. */
  lemma {:induction false} EnclosedUnit(l: Layout, item: Item, more: seq<bv8>)
    requires ItemOk(l, item)
    ensures var data := ItemBytes(item) + more;
      var e := NextEnclosed(Some(l), data);
      && e.size == |item.nal| && e.advance + e.size <= |data|
      && data[e.advance..e.advance + e.size] == item.nal
      && data[e.advance + e.size..] == more
  {
    hide Join;
    var n := |item.nal|;
    SizeBytes(n);
    FiveParts(item.front, [SizeHigh(n), SizeLow(n)], item.behind, item.nal, more);
  }

  function SizeHigh(n: nat): bv8 {
    OctetOf(n / 256)
  }

  function SizeLow(n: nat): bv8 {
    OctetOf(n % 256)
  }

  lemma {:induction false} SizeBytes(n: nat)
    requires n < U16
    ensures Join(SizeHigh(n), SizeLow(n)) == n
  {
    hide OctetOf, ByteNumber;
    OctetRoundTrip(n / 256);
    OctetRoundTrip(n % 256);
  }

  lemma {:induction false} FiveParts(a: seq<bv8>, b: seq<bv8>, c: seq<bv8>, d: seq<bv8>, e: seq<bv8>)
    requires |b| == 2
    ensures var s, n := a + b + c + d + e, |a| + 2 + |c|;
      && s[|a|] == b[0] && s[|a| + 1] == b[1]
      && s[n..n + |d|] == d && s[n + |d|..] == e
  {
  }

  /** How taking a packet apart ends: with no bytes left, with a unit that reaches beyond the packet, or looking at the same
      few bytes again and again. */
  datatype End = Done | Beyond | Stuck

  datatype Parted = Parted(units: seq<seq<bv8>>, end: End)

  function Nonempty(nal: seq<bv8>): seq<seq<bv8>> {
    if nal == [] then [] else [nal]
  }

  /** The units of an aggregation packet, taken one after the other; an empty one is not given out. */
  function Split(first: Layout, rest: Layout, data: seq<bv8>): Parted
    decreases |data|
  {
    if data == [] then Parted([], Done) else
      var e := NextEnclosed(Some(first), data);
      if e.advance + e.size == 0 then Parted([], Stuck)
      else if e.advance + e.size > |data| then Parted([], Beyond)
      else
        var more := Split(rest, rest, data[e.advance + e.size..]);
        Parted(Nonempty(data[e.advance..e.advance + e.size]) + more.units, more.end)
  }

  /** A unit stays within the packet exactly when its size is at most what is left behind the size and the other fields: the
      source only compares it with what is left behind the fields in front of the size. */
  lemma {:induction false} EnclosedInBoundsIff(l: Layout, data: seq<bv8>)
    requires |data| >= l.front + 2 + l.behind
    ensures var e := NextEnclosed(Some(l), data);
      && (e.advance + e.size <= |data| <==> Join(data[l.front], data[l.front + 1]) <= |data| - (l.front + 2 + l.behind))
      && e.advance + e.size <= |data| + 2 + l.behind
  {
    hide Join;
  }

  /** Nine bytes are announced where two follow. */
  lemma {:induction false} TwoBytesBeyond()
    ensures var data: seq<bv8> := [0, 9, 1, 2];
      NextEnclosed(Some(Layout(0, 0)), data) == Enclosed(2, 4) && Split(Layout(0, 0), Layout(0, 0), data) == Parted([], Beyond)
  {
    SmallSize();
  }

  /** A single byte left over is looked at again and again. */
  lemma {:induction false} OneByteStuck(b: bv8)
    ensures Split(Layout(0, 0), Layout(0, 0), [b]) == Parted([], Stuck)
  {
  }

  lemma {:induction false} SmallSize()
    ensures Join(0, 9) == 9
  {
  }

  function AllBytes(items: seq<Item>): seq<bv8>
    requires forall i :: 0 <= i < |items| ==> |items[i].nal| < U16
  {
    if items == [] then [] else ItemBytes(items[0]) + AllBytes(items[1..])
  }

  function Nals(items: seq<Item>): seq<seq<bv8>> {
    if items == [] then [] else Nonempty(items[0].nal) + Nals(items[1..])
  }

  /** The bytes are units put together, and nothing else but, where units have a byte in front of their size, too few bytes for
      another one. */
  predicate Joined(first: Layout, rest: Layout, items: seq<Item>, tail: seq<bv8>, data: seq<bv8>) {
    && (forall i :: 0 <= i < |items| ==> ItemOk(if i == 0 then first else rest, items[i]))
    && data == AllBytes(items) + tail
    && var l := if items == [] then first else rest;
       tail == [] || (l.front == 1 && |tail| < 3 + l.behind)
  }

  lemma {:induction false} JoinedFirst(first: Layout, rest: Layout, items: seq<Item>, tail: seq<bv8>, data: seq<bv8>)
    requires items != [] && Joined(first, rest, items, tail, data)
    ensures ItemOk(first, items[0])
    ensures data == ItemBytes(items[0]) + (AllBytes(items[1..]) + tail)
    ensures Joined(rest, rest, items[1..], tail, AllBytes(items[1..]) + tail)
  {
    hide ItemBytes;
    assert forall i :: 0 <= i < |items[1..]| ==> items[1..][i] == items[i + 1];
  }

  lemma {:induction false} SizesFit(first: Layout, rest: Layout, items: seq<Item>, tail: seq<bv8>, data: seq<bv8>)
    requires Joined(first, rest, items, tail, data)
    ensures forall i :: 0 <= i < |items| ==> |items[i].nal| < U16
  {
  }

  lemma {:induction false} JoinedMore(first: Layout, rest: Layout, item: Item, items: seq<Item>, tail: seq<bv8>, more: seq<bv8>)
    requires ItemOk(first, item) && Joined(rest, rest, items, tail, more)
    ensures Joined(first, rest, [item] + items, tail, ItemBytes(item) + more)
  {
    hide ItemBytes;
    var all := [item] + items;
    assert all[1..] == items && all[0] == item;
    assert ItemBytes(item) + (AllBytes(items) + tail) == (ItemBytes(item) + AllBytes(items)) + tail;
  }

  /** Taking an aggregation packet apart gives back the units it was put together from, but for empty ones. */
  lemma {:induction false} SplitInvertsAggregation(first: Layout, rest: Layout, items: seq<Item>, tail: seq<bv8>, data: seq<bv8>)
    requires Joined(first, rest, items, tail, data) && (first.front == 1 ==> first == rest)
    ensures Split(first, rest, data) == Parted(Nals(items), Done)
    decreases |items|, |data|
  {
    hide NextEnclosed, ItemBytes, Nonempty, Joined;
    if items != [] {
      JoinedFirst(first, rest, items, tail, data);
      assert forall i :: 0 <= i < |items[1..]| ==> |items[1..][i].nal| < U16 by { SizesFit(first, rest, items, tail, data); }
      var more := AllBytes(items[1..]) + tail;
      EnclosedUnit(first, items[0], more);
      EnclosedAdvances(first, items[0], more);
      SplitInvertsAggregation(rest, rest, items[1..], tail, more);
    } else {
      TailBytes(first, rest, tail, data);
    }
  }

  /** Too few bytes for a unit are passed over one by one. */
  lemma {:induction false} TailBytes(first: Layout, rest: Layout, tail: seq<bv8>, data: seq<bv8>)
    requires Joined(first, rest, [], tail, data) && (first.front == 1 ==> first == rest)
    ensures Split(first, rest, data) == Parted([], Done)
    decreases |data|
  {
    hide Join;
    assert data == tail;
    if data != [] {
      assert NextEnclosed(Some(first), data) == Enclosed(1, 0);
      TailBytes(rest, rest, data[1..], data[1..]);
    }
  }

  /** A packet comes apart to its end exactly when it was put together from units. */
  lemma {:induction false} SplitEndsIff(first: Layout, rest: Layout, data: seq<bv8>)
    requires first.front <= rest.front <= 1 && first.behind == rest.behind
    ensures Split(first, rest, data).end == Done <==> exists items, tail :: Joined(first, rest, items, tail, data)
  {
    hide Split, Joined;
    if Split(first, rest, data).end == Done {
      var items, tail := PartsOf(first, rest, data);
    }
    if items, tail :| Joined(first, rest, items, tail, data) {
      SplitInvertsAggregation(first, rest, items, tail, data);
    }
  }

  lemma {:induction false} PartsOf(first: Layout, rest: Layout, data: seq<bv8>) returns (items: seq<Item>, tail: seq<bv8>)
    requires first.front <= rest.front <= 1 && first.behind == rest.behind && Split(first, rest, data).end == Done
    ensures Joined(first, rest, items, tail, data)
    decreases |data|
  {
    hide Join, ItemBytes, OctetOf, Joined, ItemOk;
    var l := first;
    if |data| < l.front + 2 + l.behind {
      items, tail := [], data;
      OnlyTail(first, rest, data);
    } else {
      var e := NextEnclosed(Some(l), data);
      EnclosedInBoundsIff(l, data);
      var more := data[e.advance + e.size..];
      var others, t := PartsOf(rest, rest, more);
      var item := Item(data[..l.front], data[l.front + 2..l.front + 2 + l.behind], data[e.advance..e.advance + e.size]);
      ItemCut(l, data, item, more);
      JoinedMore(first, rest, item, others, t, more);
      items, tail := [item] + others, t;
    }
  }

  lemma {:induction false} JoinSize(hi: bv8, lo: bv8)
    ensures SizeHigh(Join(hi, lo)) == hi && SizeLow(Join(hi, lo)) == lo
  {
    hide OctetOf, ByteNumber;
    DivUnique(Join(hi, lo), 256, ByteNumber(hi), ByteNumber(lo));
    ByteRoundTrip(hi);
    ByteRoundTrip(lo);
  }

  lemma {:induction false} OnlyTail(first: Layout, rest: Layout, data: seq<bv8>)
    requires |data| < first.front + 2 + first.behind && first.front <= 1 && Split(first, rest, data).end == Done
    ensures Joined(first, rest, [], data, data)
  {
    hide Join;
  }

  lemma {:induction false} ItemCut(l: Layout, data: seq<bv8>, item: Item, more: seq<bv8>)
    requires |data| >= l.front + 2 + l.behind
    requires var n, size := l.front + 2 + l.behind, Join(data[l.front], data[l.front + 1]);
      && n + size <= |data|
      && item == Item(data[..l.front], data[l.front + 2..n], data[n..n + size]) && more == data[n + size..]
    ensures ItemOk(l, item) && data == ItemBytes(item) + more
  {
    hide OctetOf, Join;
    JoinSize(data[l.front], data[l.front + 1]);
  }

  lemma {:induction false} EnclosedAdvances(l: Layout, item: Item, more: seq<bv8>)
    requires ItemOk(l, item)
    ensures NextEnclosed(Some(l), ItemBytes(item) + more).advance >= 2
  {
    hide Join;
  }

  class H264VideoRTPSource {
    var fCurPacketNALUnitType: bv8
    var fCurrentPacketBeginsFrame: bool
    var fCurrentPacketCompletesFrame: bool

    method ProcessSpecialHeader(headerStart: array<bv8>) returns (ok: bool, resultSpecialHeaderSize: nat)
      modifies this, headerStart
      ensures ok == Special264(old(headerStart[..])).Some?
      ensures !ok ==> headerStart[..] == old(headerStart[..])
      ensures ok ==>
        var s := Special264(old(headerStart[..])).value;
        && headerStart[..] == s.packet && resultSpecialHeaderSize == s.skip
        && fCurPacketNALUnitType == s.packet[0] & 0x1F
        && (s.flags.Some? ==> (fCurrentPacketBeginsFrame, fCurrentPacketCompletesFrame) == s.flags.value)
    {
      resultSpecialHeaderSize := 0;
      if headerStart.Length < 1 { return false, 0; }
      fCurPacketNALUnitType := headerStart[0] & 0x1F;
      if fCurPacketNALUnitType == 24 {
        resultSpecialHeaderSize := 1; // STAP-A: the type byte
      } else if fCurPacketNALUnitType == 25 || fCurPacketNALUnitType == 26 || fCurPacketNALUnitType == 27 {
        resultSpecialHeaderSize := 3; // STAP-B or MTAP: the type byte and the initial DON
      } else if fCurPacketNALUnitType == 28 || fCurPacketNALUnitType == 29 {
        if headerStart.Length < 2 { return false, 0; }
        var startBit := headerStart[1] & 0x80;
        var endBit := headerStart[1] & 0x40;
        if startBit != 0 {
          fCurrentPacketBeginsFrame := true;
          headerStart[1] := (headerStart[0] & 0xE0) | (headerStart[1] & 0x1F);
          resultSpecialHeaderSize := 1;
        } else {
          fCurrentPacketBeginsFrame := false;
          resultSpecialHeaderSize := 2;
        }
        fCurrentPacketCompletesFrame := endBit != 0;
      } else {
        fCurrentPacketBeginsFrame, fCurrentPacketCompletesFrame := true, true;
        resultSpecialHeaderSize := 0;
      }
      ok := true;
    }

    method NextEnclosedFrameSize(data: seq<bv8>) returns (advance: nat, size: nat)
      ensures Enclosed(advance, size) == NextEnclosed(Layout264(fCurPacketNALUnitType), data)
    {
      advance, size := 0, 0;
      if fCurPacketNALUnitType == 24 || fCurPacketNALUnitType == 25 {
        if |data| >= 2 {
          advance, size := 2, Join(data[0], data[1]);
        }
      } else if fCurPacketNALUnitType == 26 {
        if |data| >= 5 {
          advance, size := 5, Join(data[0], data[1]);
        }
      } else if fCurPacketNALUnitType == 27 {
        if |data| >= 6 {
          advance, size := 6, Join(data[0], data[1]);
        }
      } else {
        return 0, |data|;
      }
      size := if size <= |data| then size else |data|;
    }
  }

  /** How many header bytes precede the data of an H.265 packet, and the decoding order number it carries. */
  function DonLength(expectDONFields: bool): nat {
    if expectDONFields then 2 else 0
  }

  /** With decoding order numbers the two bytes of DONL stand behind the payload or FU header. */
  function WithoutDon(packet: seq<bv8>, expectDONFields: bool): seq<bv8>
    requires |packet| >= 2 && (Fragmented(H265, packet) ==> |packet| >= 3)
  {
    if !expectDONFields then packet
    else if Aggregation(H265, packet) && |packet| >= 4 then packet[..2] + packet[4..]
    else if Fragmented(H265, packet) && |packet| >= 5 then packet[..3] + packet[5..]
    else packet
  }

  function CarriedDon(packet: seq<bv8>, expectDONFields: bool): nat
    requires |packet| >= 2
  {
    if !expectDONFields then 0
    else if Aggregation(H265, packet) && |packet| >= 4 then Join(packet[2], packet[3])
    else if Fragmented(H265, packet) && |packet| >= 5 then Join(packet[3], packet[4])
    else 0
  }

  function Special265(packet: seq<bv8>, expectDONFields: bool): (r: Option<Special>)
    ensures r.Some? ==> |r.value.packet| == |packet| >= 2
  {
    var n := DonLength(expectDONFields);
    if |packet| < 2 then None
    else if (packet[0] & 0x7E) >> 1 == 48 then
      if |packet| < 2 + n then None else Some(Special(packet, 2 + n, None))
    else if (packet[0] & 0x7E) >> 1 == 49 then
      if |packet| < 3 + n then None
      else
        var end := packet[2] & 0x40 != 0;
        if packet[2] & 0x80 != 0 then
          Some(Special(packet[1 + n := (packet[0] & 0x81) | ((packet[2] & 0x3F) << 1)][2 + n := packet[1]], 1 + n, Some((true, end))))
        else Some(Special(packet, 3 + n, Some((false, end))))
    else Some(Special(packet, 0, Some((true, true))))
  }

  /** The bytes left after the skip are what the packet carries once its DONL field is taken out. */
  lemma {:induction false} SpecialReceives265(packet: seq<bv8>, expectDONFields: bool)
    requires Special265(packet, expectDONFields).Some?
    ensures var r, s := Receive(H265, WithoutDon(packet, expectDONFields)), Special265(packet, expectDONFields).value;
      && (r.Some? <==> s.flags.Some?)
      && (r.Some? ==> s.skip <= |packet| && s.packet[s.skip..] == r.value.data && s.flags == Some((r.value.begins, r.value.completes)))
  {
    if Fragmented(H265, packet) {
      FragmentReceives265(packet, expectDONFields);
    }
  }

  lemma {:induction false} FragmentReceives265(packet: seq<bv8>, expectDONFields: bool)
    requires |packet| >= 3 + DonLength(expectDONFields) && Fragmented(H265, packet)
    ensures var s := Special265(packet, expectDONFields).value;
      && s.skip <= |packet| && s.flags.Some?
      && Receive(H265, WithoutDon(packet, expectDONFields))
         == Some(Received(s.packet[s.skip..], s.flags.value.0, s.flags.value.1))
  {
    hide Special265, Receive;
    var n, w := DonLength(expectDONFields), WithoutDon(packet, expectDONFields);
    assert w[..3] == packet[..3] && w[3..] == packet[3 + n..];
    FragmentData(packet, w, n);
    SpecialOfFragment(packet, expectDONFields);
    ReceiveOfFragment(w);
  }

  lemma {:induction false} SpecialOfFragment(packet: seq<bv8>, expectDONFields: bool)
    requires |packet| >= 3 + DonLength(expectDONFields) && Fragmented(H265, packet)
    ensures var n, start, end := DonLength(expectDONFields), packet[2] & 0x80 != 0, packet[2] & 0x40 != 0;
      Special265(packet, expectDONFields) ==
      if start then Some(Special(packet[1 + n := (packet[0] & 0x81) | ((packet[2] & 0x3F) << 1)][2 + n := packet[1]], 1 + n, Some((true, end))))
      else Some(Special(packet, 3 + n, Some((false, end))))
  {
  }

  lemma {:induction false} ReceiveOfFragment(w: seq<bv8>)
    requires |w| >= 3 && Fragmented(H265, w)
    ensures var start, end := w[2] & 0x80 != 0, w[2] & 0x40 != 0;
      Receive(H265, w) ==
      if start then Some(Received([(w[0] & 0x81) | ((w[2] & 0x3F) << 1), w[1]] + w[3..], true, end))
      else Some(Received(w[3..], false, end))
  {
  }

  lemma {:induction false} FragmentData(packet: seq<bv8>, w: seq<bv8>, n: nat)
    requires |packet| >= 3 + n && |w| >= 3 && w[..3] == packet[..3] && w[3..] == packet[3 + n..]
    ensures var h0 := (packet[0] & 0x81) | ((packet[2] & 0x3F) << 1);
      && packet[1 + n := h0][2 + n := packet[1]][1 + n..] == [h0, packet[1]] + w[3..]
      && w[0] == packet[0] && w[1] == packet[1] && w[2] == packet[2]
  {
    assert w[0] == w[..3][0] && w[1] == w[..3][1] && w[2] == w[..3][2];
    var h0 := (packet[0] & 0x81) | ((packet[2] & 0x3F) << 1);
    RebuiltHeader(packet, n, h0);
  }

  lemma {:induction false} RebuiltHeader(packet: seq<bv8>, n: nat, h0: bv8)
    requires |packet| >= 3 + n
    ensures packet[1 + n := h0][2 + n := packet[1]][1 + n..] == [h0, packet[1]] + packet[3 + n..]
  {
  }

  class H265VideoRTPSource {
    const fExpectDONFields: bool
    var fCurPacketNALUnitType: bv8
    var fCurrentPacketBeginsFrame: bool
    var fCurrentPacketCompletesFrame: bool
    var fPreviousNALUnitDON: nat
    var fCurrentNALUnitAbsDon: nat

    function DonState(): Don
      reads `fCurrentNALUnitAbsDon, `fPreviousNALUnitDON
    {
      Don(fCurrentNALUnitAbsDon, fPreviousNALUnitDON)
    }

    constructor (expectDONFields: bool)
      ensures fExpectDONFields == expectDONFields && DonState() == FIRST_DON
    {
      fExpectDONFields := expectDONFields;
      fPreviousNALUnitDON, fCurrentNALUnitAbsDon := 0, NO_UNIT_YET;
    }

    method ComputeAbsDonFromDON(don: nat)
      requires don < U16
      modifies this`fPreviousNALUnitDON, this`fCurrentNALUnitAbsDon
      ensures DonState() == NextDon(old(DonState()), fExpectDONFields, don)
    {
      if !fExpectDONFields {
        fCurrentNALUnitAbsDon := (fCurrentNALUnitAbsDon + 1) % U64;
      } else {
        if fCurrentNALUnitAbsDon == NO_UNIT_YET {
          fCurrentNALUnitAbsDon := don;
        } else {
          var signedDiff16 := Short(don - fPreviousNALUnitDON);
          fCurrentNALUnitAbsDon := (fCurrentNALUnitAbsDon + signedDiff16) % U64;
        }
        fPreviousNALUnitDON := don;
      }
    }

    /** A fragmentation unit: the original header is rebuilt at the end of the bytes to skip if this is the first one. */
    method ProcessFragment(headerStart: array<bv8>) returns (ok: bool, resultSpecialHeaderSize: nat, donl: nat)
      requires headerStart.Length >= 2 && (headerStart[0] & 0x7E) >> 1 == 49
      modifies this`fCurrentPacketBeginsFrame, this`fCurrentPacketCompletesFrame, headerStart
      ensures var packet, r := old(headerStart[..]), Special265(old(headerStart[..]), fExpectDONFields);
        && ok == r.Some?
        && (!ok ==> headerStart[..] == packet)
        && donl < U16
        && (ok ==>
              && headerStart[..] == r.value.packet && resultSpecialHeaderSize == r.value.skip && r.value.flags.Some?
              && (fCurrentPacketBeginsFrame, fCurrentPacketCompletesFrame) == r.value.flags.value
              && donl == CarriedDon(packet, fExpectDONFields))
    {
      hide Join;
      ok, resultSpecialHeaderSize, donl := false, 0, 0;
      if headerStart.Length < 3 { return; }
      var startBit := headerStart[2] & 0x80;
      var endBit := headerStart[2] & 0x40;
      if startBit != 0 {
        fCurrentPacketBeginsFrame := true;
        var nalUnitType := headerStart[2] & 0x3F;
        var newNALHeader0 := (headerStart[0] & 0x81) | (nalUnitType << 1);
        var newNALHeader1 := headerStart[1];
        if fExpectDONFields {
          if headerStart.Length < 5 { return; }
          donl := Join(headerStart[3], headerStart[4]);
          headerStart[3] := newNALHeader0;
          headerStart[4] := newNALHeader1;
          resultSpecialHeaderSize := 3;
        } else {
          headerStart[1] := newNALHeader0;
          headerStart[2] := newNALHeader1;
          resultSpecialHeaderSize := 1;
        }
      } else {
        fCurrentPacketBeginsFrame := false;
        if fExpectDONFields {
          if headerStart.Length < 5 { return; }
          donl := Join(headerStart[3], headerStart[4]);
          resultSpecialHeaderSize := 5;
        } else {
          resultSpecialHeaderSize := 3;
        }
      }
      fCurrentPacketCompletesFrame := endBit != 0;
      ok := true;
    }

    /** An aggregation packet, or a single NAL unit. */
    method ProcessOther(headerStart: array<bv8>) returns (ok: bool, resultSpecialHeaderSize: nat, donl: nat)
      requires headerStart.Length >= 2 && (headerStart[0] & 0x7E) >> 1 == fCurPacketNALUnitType != 49
      modifies this`fCurrentPacketBeginsFrame, this`fCurrentPacketCompletesFrame
      ensures var packet, r := headerStart[..], Special265(headerStart[..], fExpectDONFields);
        && ok == r.Some?
        && donl < U16
        && (ok ==>
              && packet == r.value.packet && resultSpecialHeaderSize == r.value.skip
              && (r.value.flags.Some? ==> (fCurrentPacketBeginsFrame, fCurrentPacketCompletesFrame) == r.value.flags.value)
              && donl == CarriedDon(packet, fExpectDONFields))
    {
      hide Join;
      ok, resultSpecialHeaderSize, donl := true, 0, 0;
      if fCurPacketNALUnitType == 48 {
        if fExpectDONFields {
          if headerStart.Length < 4 { return false, 0, 0; }
          donl := Join(headerStart[2], headerStart[3]);
          resultSpecialHeaderSize := 4;
        } else {
          resultSpecialHeaderSize := 2;
        }
      } else {
        fCurrentPacketBeginsFrame, fCurrentPacketCompletesFrame := true, true;
      }
    }

    method ProcessSpecialHeader(headerStart: array<bv8>) returns (ok: bool, resultSpecialHeaderSize: nat)
      modifies this, headerStart
      ensures var r := Special265(old(headerStart[..]), fExpectDONFields);
        && ok == r.Some?
        && (!ok ==> DonState() == old(DonState()) && headerStart[..] == old(headerStart[..]))
        && (ok ==> fCurPacketNALUnitType == (old(headerStart[..])[0] & 0x7E) >> 1)
        && (ok ==>
              && headerStart[..] == r.value.packet && resultSpecialHeaderSize == r.value.skip
              && (r.value.flags.Some? ==> (fCurrentPacketBeginsFrame, fCurrentPacketCompletesFrame) == r.value.flags.value)
              && DonState() == NextDon(old(DonState()), fExpectDONFields, CarriedDon(old(headerStart[..]), fExpectDONFields)))
    {
      hide NextDon, Join, Short, DonState;
      if headerStart.Length < 2 { return false, 0; }
      var donl;
      fCurPacketNALUnitType := (headerStart[0] & 0x7E) >> 1;
      if fCurPacketNALUnitType == 49 {
        ok, resultSpecialHeaderSize, donl := ProcessFragment(headerStart);
      } else {
        ok, resultSpecialHeaderSize, donl := ProcessOther(headerStart);
      }
      if !ok { return; }
      ComputeAbsDonFromDON(donl);
    }

    /** Inside an aggregation packet every unit but the first first announces its decoding order number. */
    method NextEnclosedFrameSize(data: seq<bv8>, useCount: nat) returns (advance: nat, size: nat)
      modifies this`fPreviousNALUnitDON, this`fCurrentNALUnitAbsDon
      ensures Enclosed(advance, size) == NextEnclosed(Layout265(fCurPacketNALUnitType, useCount == 0, fExpectDONFields), data)
      ensures DonState() ==
              if fCurPacketNALUnitType != 48 || useCount == 0 || (fExpectDONFields && data == []) then old(DonState())
              else if fExpectDONFields then
                NextDon(old(DonState()), true, DonFromField(old(DonState()), Dond(ByteNumber(data[0]))))
              else NextDon(old(DonState()), false, 0)
    {
      hide NextDon, Short, ByteNumber, Join;
      var dataSize := |data|;
      advance, size := 0, 0;
      if fCurPacketNALUnitType == 48 {
        if useCount > 0 {
          var donl := 0;
          if fExpectDONFields {
            if dataSize < 1 { return 0, 0; }
            var dond := ByteNumber(data[0]);
            donl := (fPreviousNALUnitDON + (dond + 1)) % U16;
            advance := 1;
            dataSize := dataSize - 1;
          }
          ComputeAbsDonFromDON(donl);
        }
        if dataSize >= 2 {
          size := Join(data[advance], data[advance + 1]);
          advance := advance + 2;
        }
      } else {
        return 0, dataSize;
      }
      size := if size <= dataSize then size else dataSize;
    }
  }
}
