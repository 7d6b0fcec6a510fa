/** unpackBandwidthEfficientData: from the bit-packed AMR payload of RFC 4867, section 4.3, to the
    octet-aligned one of section 4.4. */
module AmrUnpack {
  import opened Bits
  import opened BitReading
  import opened BitVectors

  function FrameBitsFromFT(ft: nat, wideband: bool): nat
    requires ft < 16
  {
    if wideband then
      [132, 177, 253, 285, 317, 365, 397, 461, 477, 40, 0, 0, 0, 0, 0, 0][ft]
    else
      [95, 103, 118, 134, 148, 159, 204, 244, 39, 0, 0, 0, 0, 0, 0, 0][ft]
  }

  /** A six-bit table-of-contents entry: the F bit, four FT bits and the Q bit. */
  predicate MoreFollows(toc: nat) {
    (toc / 32) % 2 == 1
  }

  function FrameType(toc: nat): (ft: nat)
    ensures ft < 16
  {
    (toc / 2) % 16
  }

  function FrameSizeBits(toc: nat, wideband: bool): (n: nat)
    ensures n == 0 || 39 <= n <= 477
  {
    FrameBitsFromFT(FrameType(toc), wideband)
  }

  function Octets(n: nat): nat {
    (n + 7) / 8
  }

  datatype Toc = Toc(entries: seq<nat>, end: nat)

  /** The entries read up to and including the first whose F bit is clear; bits past the end read as zero. */
  function ReadToc(bits: seq<bool>, pos: nat): (t: Toc)
    requires pos <= |bits|
    ensures pos <= t.end <= |bits| && t.entries != []
    decreases |bits| - pos
  {
    var (toc, p) := ReadBits(bits, pos, 6);
    if !MoreFollows(toc) then Toc([toc], p)
    else
      NothingFollowsTheEnd(bits, pos);
      var rest := ReadToc(bits, p);
      Toc([toc] + rest.entries, rest.end)
  }

  /** Once the bits are used up an entry reads as zero, so its F bit is clear. */
  lemma {:induction false} NothingFollowsTheEnd(bits: seq<bool>, pos: nat)
    requires pos <= |bits|
    ensures pos == |bits| ==> ReadBits(bits, pos, 6).0 == 0
  {
    if pos == |bits| {
      ShiftZero(6);
    }
  }

  lemma {:induction false} ShiftZero(n: nat)
    ensures ShiftLeft(0, n) == 0
  {
    if n > 0 { ShiftZero(n - 1); }
  }

  /** Where frame `i` begins in the packed bits. */
  function FramePos(toc: Toc, wideband: bool, i: nat): nat
    requires i <= |toc.entries|
  {
    if i == 0 then toc.end else FramePos(toc, wideband, i - 1) + FrameSizeBits(toc.entries[i - 1], wideband)
  }

  /** Where frame `i` begins in the unpacked octets: after the CMR octet, the table of contents and the earlier frames. */
  function FrameOctet(entries: seq<nat>, wideband: bool, i: nat): (o: nat)
    requires i <= |entries|
    ensures o >= 1 + |entries|
  {
    if i == 0 then 1 + |entries|
    else FrameOctet(entries, wideband, i - 1) + Octets(FrameSizeBits(entries[i - 1], wideband))
  }

  /** How many frames are complete, counting from frame `i`. */
  function FramesPresent(total: nat, toc: Toc, wideband: bool, i: nat): (k: nat)
    requires i <= |toc.entries|
    ensures i <= k <= |toc.entries|
    decreases |toc.entries| - i
  {
    if i == |toc.entries| || FramePos(toc, wideband, i + 1) > total then i
    else FramesPresent(total, toc, wideband, i + 1)
  }

  ghost predicate FrameCopied(bits: seq<bool>, toc: Toc, wideband: bool, outBits: seq<bool>, i: nat)
    requires i < |toc.entries|
  {
    && FramePos(toc, wideband, i + 1) <= |bits|
    && FramePos(toc, wideband, i) <= FramePos(toc, wideband, i + 1)
    && Has(outBits, 8 * FrameOctet(toc.entries, wideband, i), bits[FramePos(toc, wideband, i)..FramePos(toc, wideband, i + 1)])
  }

  ghost predicate EntryWritten(entries: seq<nat>, outBits: seq<bool>, i: nat)
    requires i < |entries|
  {
    Has(outBits, 8 * (i + 1), Digits(4 * entries[i], 8))
  }

  /** The octet-aligned payload of a packed one; the padding bits of a frame's last octet are arbitrary. */
  ghost predicate Unpacks(bits: seq<bool>, wideband: bool, out: seq<bv8>)
    requires 4 <= |bits|
  {
    var toc := ReadToc(bits, 4);
    var k := FramesPresent(|bits|, toc, wideband, 0);
    && |out| == FrameOctet(toc.entries, wideband, k)
    && Has(BitsOf(out), 0, Digits(16 * Value(bits[..4]), 8))
    && (forall i :: 0 <= i < |toc.entries| ==> EntryWritten(toc.entries, BitsOf(out), i))
    && (forall i :: 0 <= i < k ==> FrameCopied(bits, toc, wideband, BitsOf(out), i))
  }

  // ---------- Packing, and the round trip ----------

  /** A table of contents as section 4.3.2 packs it: every entry but the last announces another. */
  predicate TocOk(entries: seq<nat>) {
    && entries != []
    && (forall i :: 0 <= i < |entries| ==> entries[i] < 64)
    && (forall i :: 0 <= i < |entries| - 1 ==> MoreFollows(entries[i]))
    && !MoreFollows(entries[|entries| - 1])
  }

  function TocBits(entries: seq<nat>): seq<bool> {
    if entries == [] then [] else Digits(entries[0], 6) + TocBits(entries[1..])
  }

  function FrameData(frames: seq<seq<bool>>): seq<bool> {
    if frames == [] then [] else FrameData(frames[..|frames| - 1]) + frames[|frames| - 1]
  }

  /** The bits of a frame, by the FT field of its entry: tables 1 of 3GPP TS 26.101 and TS 26.201. */
  function SpeechBits(entry: nat, wideband: bool): nat {
    var ft := entry / 2 % 16;
    if wideband then
      if ft == 0 then 132 else if ft == 1 then 177 else if ft == 2 then 253 else if ft == 3 then 285 else if ft == 4 then 317
      else if ft == 5 then 365 else if ft == 6 then 397 else if ft == 7 then 461 else if ft == 8 then 477 else if ft == 9 then 40 else 0
    else
      if ft == 0 then 95 else if ft == 1 then 103 else if ft == 2 then 118 else if ft == 3 then 134 else if ft == 4 then 148
      else if ft == 5 then 159 else if ft == 6 then 204 else if ft == 7 then 244 else if ft == 8 then 39 else 0
  }

  lemma {:induction false} SpeechBitsAgree(entry: nat, wideband: bool)
    ensures FrameSizeBits(entry, wideband) == SpeechBits(entry, wideband)
  {
  }

  predicate PayloadOk(cmr: nat, entries: seq<nat>, frames: seq<seq<bool>>, wideband: bool) {
    && cmr < 16 && TocOk(entries) && |frames| == |entries|
    && forall i :: 0 <= i < |frames| ==> |frames[i]| == SpeechBits(entries[i], wideband)
  }

  /** Where frame `i` stands in the octet-aligned payload: behind the mode request, the entries and the whole octets of the frames
      before it. */
  function AlignedOctet(frames: seq<seq<bool>>, i: nat): nat
    requires i <= |frames|
  {
    if i == 0 then 1 + |frames| else AlignedOctet(frames, i - 1) + (|frames[i - 1]| + 7) / 8
  }

  lemma {:induction false} AlignedIsOctet(entries: seq<nat>, frames: seq<seq<bool>>, wideband: bool, i: nat)
    requires |frames| == |entries| && i <= |frames|
    requires forall j :: 0 <= j < |frames| ==> |frames[j]| == FrameSizeBits(entries[j], wideband)
    ensures AlignedOctet(frames, i) == FrameOctet(entries, wideband, i)
    decreases i
  {
    hide FrameSizeBits;
    if i > 0 { AlignedIsOctet(entries, frames, wideband, i - 1); }
  }

  function Pack(cmr: nat, entries: seq<nat>, frames: seq<seq<bool>>): seq<bool> {
    Digits(cmr, 4) + (TocBits(entries) + FrameData(frames))
  }

  lemma {:induction false} TocDecodes(bits: seq<bool>, pos: nat, entries: seq<nat>)
    requires TocOk(entries) && Has(bits, pos, TocBits(entries))
    ensures ReadToc(bits, pos) == Toc(entries, pos + |TocBits(entries)|)
    decreases |entries|
  {
    hide ReadBits, Digits, MoreFollows, Has;
    var d := Digits(entries[0], 6);
    HasConcat(bits, pos, d, TocBits(entries[1..]));
    assert Pow2(6) == 64;
    EntryDecodes(bits, pos, entries[0]);
    if |entries| > 1 {
      TocDecodes(bits, pos + 6, entries[1..]);
      assert entries == [entries[0]] + entries[1..];
    } else {
      assert entries == [entries[0]];
      assert TocBits(entries[1..]) == [];
    }
  }

  lemma {:induction false} EntryDecodes(bits: seq<bool>, pos: nat, entry: nat)
    requires entry < 64 && Has(bits, pos, Digits(entry, 6))
    ensures pos + 6 <= |bits| && ReadBits(bits, pos, 6) == (entry, pos + 6)
  {
    assert Pow2(6) == 64;
    ReadExactly(bits, pos, Digits(entry, 6));
    ValueDigits(entry, 6);
  }

  lemma {:induction false} FramesDecode(bits: seq<bool>, toc: Toc, wideband: bool, frames: seq<seq<bool>>, k: nat)
    requires |frames| == |toc.entries| && k <= |frames|
    requires forall i :: 0 <= i < |frames| ==> |frames[i]| == FrameSizeBits(toc.entries[i], wideband)
    requires Has(bits, toc.end, FrameData(frames[..k]))
    ensures FramePos(toc, wideband, k) == toc.end + |FrameData(frames[..k])|
    ensures forall i :: 0 <= i < k ==> Has(bits, FramePos(toc, wideband, i), frames[i])
    decreases k
  {
    hide FrameSizeBits, Has;
    if k > 0 {
      assert frames[..k][..k - 1] == frames[..k - 1];
      HasConcat(bits, toc.end, FrameData(frames[..k - 1]), frames[k - 1]);
      FramesDecode(bits, toc, wideband, frames, k - 1);
    }
  }

  lemma {:induction false} FramePosMonotone(toc: Toc, wideband: bool, i: nat, k: nat)
    requires i <= k <= |toc.entries|
    ensures FramePos(toc, wideband, i) <= FramePos(toc, wideband, k)
    decreases k
  {
    if i < k { FramePosMonotone(toc, wideband, i, k - 1); }
  }

  lemma {:induction false} AllFramesPresent(total: nat, toc: Toc, wideband: bool, i: nat)
    requires i <= |toc.entries| && FramePos(toc, wideband, |toc.entries|) <= total
    ensures FramesPresent(total, toc, wideband, i) == |toc.entries|
    decreases |toc.entries| - i
  {
    hide FramePos;
    if i < |toc.entries| {
      FramePosMonotone(toc, wideband, i + 1, |toc.entries|);
      AllFramesPresent(total, toc, wideband, i + 1);
    }
  }

  /** Whatever padding follows, unpacking a packed payload gives back its mode request, its table of
      contents and every frame, each at the start of its octets. */
  lemma {:induction false} UnpackInvertsPack(bits: seq<bool>, cmr: nat, entries: seq<nat>, frames: seq<seq<bool>>,
                                             wideband: bool, out: seq<bv8>)
    requires PayloadOk(cmr, entries, frames, wideband)
    requires Has(bits, 0, Pack(cmr, entries, frames))
    requires 4 <= |bits| && Unpacks(bits, wideband, out)
    ensures |out| == AlignedOctet(frames, |frames|)
    ensures Has(BitsOf(out), 0, Digits(16 * cmr, 8))
    ensures forall i :: 0 <= i < |entries| ==> Has(BitsOf(out), 8 * (i + 1), Digits(4 * entries[i], 8))
    ensures forall i :: 0 <= i < |entries| ==> Has(BitsOf(out), 8 * AlignedOctet(frames, i), frames[i])
  {
    hide TocBits, FrameData, Digits, FrameOctet, FramePos, FrameSizeBits, ReadToc, FramesPresent, Value, SpeechBits, AlignedOctet, Has, Unpacks;
    forall i | 0 <= i < |frames| ensures |frames[i]| == FrameSizeBits(entries[i], wideband) { SpeechBitsAgree(entries[i], wideband); }
    UnpackedAsPacked(bits, cmr, entries, frames, wideband, out);
    AlignedIsOctet(entries, frames, wideband, |frames|);
    forall i | 0 <= i < |entries|
      ensures Has(BitsOf(out), 8 * (i + 1), Digits(4 * entries[i], 8)) && Has(BitsOf(out), 8 * AlignedOctet(frames, i), frames[i])
    {
      assert EntryWritten(entries, BitsOf(out), i);
      AlignedIsOctet(entries, frames, wideband, i);
    }
  }

  lemma {:induction false} UnpackedAsPacked(bits: seq<bool>, cmr: nat, entries: seq<nat>, frames: seq<seq<bool>>,
                                            wideband: bool, out: seq<bv8>)
    requires cmr < 16 && TocOk(entries) && |frames| == |entries|
    requires forall i :: 0 <= i < |frames| ==> |frames[i]| == FrameSizeBits(entries[i], wideband)
    requires Has(bits, 0, Pack(cmr, entries, frames))
    requires 4 <= |bits| && Unpacks(bits, wideband, out)
    ensures |out| == FrameOctet(entries, wideband, |entries|)
    ensures Has(BitsOf(out), 0, Digits(16 * cmr, 8))
    ensures forall i :: 0 <= i < |entries| ==> EntryWritten(entries, BitsOf(out), i)
    ensures forall i :: 0 <= i < |entries| ==> Has(BitsOf(out), 8 * FrameOctet(entries, wideband, i), frames[i])
  {
    hide TocBits, FrameData, Digits, FrameOctet, FramePos, FrameSizeBits, ReadToc, FramesPresent, Value;
    HasConcat(bits, 0, Digits(cmr, 4), TocBits(entries) + FrameData(frames));
    HasConcat(bits, 4, TocBits(entries), FrameData(frames));
    CmrDecodes(bits, cmr);
    TocDecodes(bits, 4, entries);
    var toc := ReadToc(bits, 4);
    assert frames[..|frames|] == frames;
    FramesDecode(bits, toc, wideband, frames, |frames|);
    AllFramesPresent(|bits|, toc, wideband, 0);
    forall i | 0 <= i < |entries|
      ensures Has(BitsOf(out), 8 * FrameOctet(entries, wideband, i), frames[i])
    {
      assert FrameCopied(bits, toc, wideband, BitsOf(out), i);
      FramePosStep(toc, wideband, i);
    }
  }

  lemma {:induction false} FramePosStep(toc: Toc, wideband: bool, i: nat)
    requires i < |toc.entries|
    ensures FramePos(toc, wideband, i + 1) == FramePos(toc, wideband, i) + FrameSizeBits(toc.entries[i], wideband)
  {
  }

  lemma {:induction false} CmrDecodes(bits: seq<bool>, cmr: nat)
    requires cmr < 16 && Has(bits, 0, Digits(cmr, 4))
    ensures Value(bits[..4]) == cmr
  {
    assert bits[..4] == bits[0..0 + 4];
    assert Pow2(4) == 16;
    ValueDigits(cmr, 4);
  }

  // ---------- The unpacker ----------

  lemma {:induction false} StoreByte(before: seq<bv8>, after: seq<bv8>, n: nat, v: nat)
    requires n < |before| && after == before[n := OctetOf(v)]
    ensures Spliced(before, after, 8 * n, Digits(v, 8))
  {
    hide ByteFrom, ByteBits, Digits;
    BitsOfSplit(before, n);
    BitsOfSplit(after, n);
    assert after[..n] == before[..n] && after[n + 1..] == before[n + 1..];
    ByteFromBits(Digits(v, 8));
    ReplaceMiddle(BitsOf(before[..n]), ByteBits(before[n]), BitsOf(before[n + 1..]), Digits(v, 8));
  }

  lemma {:induction false} ReplaceMiddle(a: seq<bool>, b: seq<bool>, c: seq<bool>, x: seq<bool>)
    requires |x| == |b|
    ensures Splice(a + b + c, |a|, x) == a + x + c
  {
  }

  lemma {:induction false} SpliceHas(a: seq<bool>, t: nat, x: seq<bool>, p: nat, code: seq<bool>)
    requires t + |x| <= |a|
    ensures Has(Splice(a, t, x), t, x)
    ensures p + |code| <= t && Has(a, p, code) ==> Has(Splice(a, t, x), p, code)
  {
    var r := Splice(a, t, x);
    assert r[t..t + |x|] == x;
    if p + |code| <= t {
      assert r[p..p + |code|] == a[p..p + |code|];
    }
  }

  /** Writing behind them leaves the mode request, the entries and the frames already written in place. */
  lemma {:induction false} WrittenKept(before: seq<bool>, after: seq<bool>, t: nat, x: seq<bool>, header: seq<bool>,
                                       entries: seq<nat>, e: nat)
    requires t + |x| <= |before| && after == Splice(before, t, x)
    requires e <= |entries| && 8 * (1 + e) <= t && |header| == 8
    requires Has(before, 0, header)
    requires forall i :: 0 <= i < e ==> EntryWritten(entries, before, i)
    ensures Has(after, 0, header) && Has(after, t, x)
    ensures forall i :: 0 <= i < e ==> EntryWritten(entries, after, i)
  {
    hide Has, Splice, Digits;
    SpliceHas(before, t, x, 0, header);
    forall i | 0 <= i < e
      ensures EntryWritten(entries, after, i)
    {
      assert EntryWritten(entries, before, i);
      SpliceHas(before, t, x, 8 * (i + 1), Digits(4 * entries[i], 8));
    }
  }

  lemma {:induction false} FramesKept(before: seq<bool>, after: seq<bool>, t: nat, x: seq<bool>,
                                      bits: seq<bool>, toc: Toc, wideband: bool, k: nat)
    requires t + |x| <= |before| && after == Splice(before, t, x)
    requires k <= |toc.entries| && 8 * FrameOctet(toc.entries, wideband, k) <= t
    requires forall i :: 0 <= i < k ==> FrameCopied(bits, toc, wideband, before, i)
    ensures forall i :: 0 <= i < k ==> FrameCopied(bits, toc, wideband, after, i)
  {
    hide Has, Splice, FrameSizeBits;
    forall i | 0 <= i < k
      ensures FrameCopied(bits, toc, wideband, after, i)
    {
      assert FrameCopied(bits, toc, wideband, before, i);
      FrameEndsBefore(toc, wideband, i, k);
      FramePosStep(toc, wideband, i);
      SpliceHas(before, t, x, 8 * FrameOctet(toc.entries, wideband, i),
                bits[FramePos(toc, wideband, i)..FramePos(toc, wideband, i + 1)]);
    }
  }

  lemma {:induction false} FrameEndsBefore(toc: Toc, wideband: bool, i: nat, k: nat)
    requires i < k <= |toc.entries|
    ensures 8 * FrameOctet(toc.entries, wideband, i) + FrameSizeBits(toc.entries[i], wideband)
            <= 8 * FrameOctet(toc.entries, wideband, k)
    decreases k
  {
    hide FrameSizeBits;
    if i + 1 < k { FrameEndsBefore(toc, wideband, i, k - 1); }
  }

  lemma {:induction false} TypeFromOctet(entry: nat)
    ensures Value(Digits(4 * entry, 8)[1..5]) == FrameType(entry)
  {
    hide Value;
    var d, h := Digits(4 * entry, 8), entry / 2;
    assert d[..7] == Digits(2 * entry, 7);
    assert d[..6] == d[..7][..6] == Digits(entry, 6);
    assert d[..5] == d[..6][..5] == Digits(h, 5);
    DigitsTail(h, 5, 4);
    assert d[1..5] == d[..5][1..] == Digits(h, 4);
    DigitsMod(h, 4);
    assert Pow2(4) == 16;
    ValueDigits(h % 16, 4);
  }

  /** A payload of one octet leaves four bits for the first entry; it is the last one if the first of them is clear. */
  lemma {:induction false} ShortToc(bits: seq<bool>)
    requires |bits| == 8 && !bits[4]
    ensures !MoreFollows(ReadBits(bits, 4, 6).0)
  {
    var f := bits[4..8];
    assert f[0] == bits[4];
    assert FirstValue(f, 1) == 0;
    assert FirstValue(f, 2) < 2;
    assert FirstValue(f, 3) < 4;
    assert FirstValue(f, 4) < 8;
    assert Available(bits, 4, 6) == 4;
    ShiftByTwo(FirstValue(f, 4));
  }

  lemma {:induction false} ShiftByTwo(v: nat)
    ensures ShiftLeft(v, 2) == 4 * v
  {
    assert ShiftLeft(v, 1) == 2 * ShiftLeft(v, 0);
  }

  /** The buffer of twice the payload's size is exceeded only by a one-octet payload whose partial first entry
      announces another entry (and an empty payload has no room for the mode request). */
  predicate BufferSuffices(data: seq<bv8>) {
    |data| >= 2 || (|data| == 1 && !BitsOf(data)[4])
  }

  /** `e` entries have been moved to the octets after the mode request. */
  ghost predicate TocMoved(bits: seq<bool>, buffer: seq<bv8>, e: nat)
    requires 4 <= |bits|
  {
    var entries := ReadToc(bits, 4).entries;
    && e <= |entries|
    && Has(BitsOf(buffer), 0, Digits(16 * Value(bits[..4]), 8))
    && forall i :: 0 <= i < e ==> EntryWritten(entries, BitsOf(buffer), i)
  }

  lemma {:induction false} MoveEntry(bits: seq<bool>, before: seq<bv8>, after: seq<bv8>, e: nat)
    requires 4 <= |bits| && TocMoved(bits, before, e) && e < |ReadToc(bits, 4).entries| && e + 1 < |before|
    requires after == before[e + 1 := OctetOf(4 * ReadToc(bits, 4).entries[e])]
    ensures TocMoved(bits, after, e + 1)
  {
    hide ReadToc, Has, Value, Digits, OctetOf, Splice;
    var entries := ReadToc(bits, 4).entries;
    StoreByte(before, after, e + 1, 4 * entries[e]);
    WrittenKept(BitsOf(before), BitsOf(after), 8 * (e + 1), Digits(4 * entries[e], 8),
                Digits(16 * Value(bits[..4]), 8), entries, e);
    assert EntryWritten(entries, BitsOf(after), e);
  }

  /** One turn of the table-of-contents loop, on the entries still to be read. */
  lemma {:induction false} TocStep(bits: seq<bool>, pos: nat, i: nat)
    requires 4 <= |bits| && pos == Min(4 + 6 * i, |bits|)
    ensures var (entry, p) := ReadBits(bits, pos, 6);
      && p == Min(4 + 6 * (i + 1), |bits|)
      && ReadToc(bits, pos).entries[0] == entry
      && (MoreFollows(entry) ==>
            && pos < |bits|
            && ReadToc(bits, pos).entries[1..] == ReadToc(bits, p).entries
            && ReadToc(bits, pos).end == ReadToc(bits, p).end)
      && (!MoreFollows(entry) ==> ReadToc(bits, pos) == Toc([entry], p))
  {
    NothingFollowsTheEnd(bits, pos);
  }

  method UnpackToc(fromBV: BitVector, toBuffer: array<bv8>) returns (toCount: nat)
    requires fromBV.Valid() && fromBV.base != toBuffer
    requires fromBV.curBitIndex == 4 && fromBV.totNumBits >= 8 && fromBV.totNumBits % 8 == 0
    requires toBuffer.Length == fromBV.totNumBits / 4
    requires fromBV.totNumBits == 8 ==> !fromBV.Contents()[4]
    requires TocMoved(fromBV.Contents(), toBuffer[..], 0)
    modifies fromBV`curBitIndex, toBuffer
    ensures fromBV.Valid()
    ensures var toc := ReadToc(fromBV.Contents(), 4);
      && toCount == 1 + |toc.entries| <= toBuffer.Length
      && fromBV.curBitIndex == toc.end == Min(4 + 6 * |toc.entries|, fromBV.totNumBits)
    ensures TocMoved(fromBV.Contents(), toBuffer[..], toCount - 1)
  {
    hide BitVector.Contents, ReadToc, ReadBits, TocMoved, OctetOf, BitsOf, MoreFollows;
    ghost var bits := fromBV.Contents();
    ghost var toc := ReadToc(bits, 4);
    toCount := 1;
    while true
      invariant fromBV.Valid() && fromBV.Contents() == bits
      invariant 1 <= toCount <= |toc.entries| && toCount < toBuffer.Length
      invariant fromBV.curBitIndex == Min(4 + 6 * (toCount - 1), |bits|)
      invariant |bits| == 8 ==> toCount == 1
      invariant ReadToc(bits, fromBV.curBitIndex) == Toc(toc.entries[toCount - 1..], toc.end)
      invariant TocMoved(bits, toBuffer[..], toCount - 1)
      decreases |toc.entries| - toCount
    {
      TocStep(bits, fromBV.curBitIndex, toCount - 1);
      if |bits| == 8 { ShortToc(bits); }
      var toc1 := fromBV.GetBits(6);
      assert toc1 == toc.entries[toCount - 1];
      MoveEntry(bits, toBuffer[..], toBuffer[..][toCount := OctetOf(4 * toc1)], toCount - 1);
      toBuffer[toCount] := OctetOf(4 * toc1);
      toCount := toCount + 1;
      if !MoreFollows(toc1) {
        break;
      }
    }
  }

  // ---------- The frames ----------

  /** The entries and `k` frames have been moved. */
  ghost predicate FramesMoved(bits: seq<bool>, wideband: bool, buffer: seq<bv8>, k: nat)
    requires 4 <= |bits|
  {
    var toc := ReadToc(bits, 4);
    && TocMoved(bits, buffer, |toc.entries|)
    && k <= |toc.entries|
    && forall i :: 0 <= i < k ==> FrameCopied(bits, toc, wideband, BitsOf(buffer), i)
  }

  lemma {:induction false} MoveFrame(bits: seq<bool>, wideband: bool, before: seq<bv8>, after: seq<bv8>, k: nat)
    requires 4 <= |bits| && FramesMoved(bits, wideband, before, k) && k < |ReadToc(bits, 4).entries|
    requires var toc := ReadToc(bits, 4);
      && FramePos(toc, wideband, k + 1) <= |bits|
      && 8 * FrameOctet(toc.entries, wideband, k) + FrameSizeBits(toc.entries[k], wideband) <= 8 * |before|
      && Spliced(before, after, 8 * FrameOctet(toc.entries, wideband, k),
                 bits[FramePos(toc, wideband, k)..FramePos(toc, wideband, k) + FrameSizeBits(toc.entries[k], wideband)])
    ensures FramesMoved(bits, wideband, after, k + 1)
  {
    hide ReadToc, Has, Value, Digits, Splice, FrameSizeBits, BitsOf;
    var toc := ReadToc(bits, 4);
    var o := 8 * FrameOctet(toc.entries, wideband, k);
    FramePosStep(toc, wideband, k);
    var x := bits[FramePos(toc, wideband, k)..FramePos(toc, wideband, k + 1)];
    WrittenKept(BitsOf(before), BitsOf(after), o, x, Digits(16 * Value(bits[..4]), 8), toc.entries, |toc.entries|);
    FramesKept(BitsOf(before), BitsOf(after), o, x, bits, toc, wideband, k);
    assert FrameCopied(bits, toc, wideband, BitsOf(after), k);
  }

  /** A frame of `n` bits takes at most twice as many bits of whole octets. */
  lemma {:induction false} OctetBound(n: nat)
    requires n == 0 || n >= 39
    ensures n <= 8 * Octets(n) <= 2 * n
  {
  }

  lemma {:induction false} UnpacksWhenDone(bits: seq<bool>, wideband: bool, buffer: seq<bv8>, k: nat)
    requires 4 <= |bits| && FramesMoved(bits, wideband, buffer, k)
    requires k == FramesPresent(|bits|, ReadToc(bits, 4), wideband, 0)
    requires FrameOctet(ReadToc(bits, 4).entries, wideband, k) <= |buffer|
    ensures Unpacks(bits, wideband, buffer[..FrameOctet(ReadToc(bits, 4).entries, wideband, k)])
  {
    hide ReadToc, Has, Value, Digits, FrameSizeBits, BitsOf, FramesPresent;
    var toc := ReadToc(bits, 4);
    var n := FrameOctet(toc.entries, wideband, k);
    var out := buffer[..n];
    BitsOfConcat(out, buffer[n..]);
    assert buffer == out + buffer[n..];
    var b := BitsOf(out);
    OctetsMonotone(toc.entries, wideband, 0, k);
    HasPrefix(b, BitsOf(buffer[n..]), 0, Digits(16 * Value(bits[..4]), 8));
    forall i | 0 <= i < |toc.entries|
      ensures EntryWritten(toc.entries, b, i)
    {
      assert EntryWritten(toc.entries, BitsOf(buffer), i);
      HasPrefix(b, BitsOf(buffer[n..]), 8 * (i + 1), Digits(4 * toc.entries[i], 8));
    }
    forall i | 0 <= i < k
      ensures FrameCopied(bits, toc, wideband, b, i)
    {
      assert FrameCopied(bits, toc, wideband, BitsOf(buffer), i);
      FrameEndsBefore(toc, wideband, i, k);
      FramePosStep(toc, wideband, i);
      HasPrefix(b, BitsOf(buffer[n..]), 8 * FrameOctet(toc.entries, wideband, i),
                bits[FramePos(toc, wideband, i)..FramePos(toc, wideband, i + 1)]);
    }
  }

  lemma {:induction false} OctetsMonotone(entries: seq<nat>, wideband: bool, i: nat, k: nat)
    requires i <= k <= |entries|
    ensures FrameOctet(entries, wideband, i) <= FrameOctet(entries, wideband, k)
    decreases k
  {
    if i < k { OctetsMonotone(entries, wideband, i, k - 1); }
  }

  lemma {:induction false} HasPrefix(a: seq<bool>, b: seq<bool>, p: nat, code: seq<bool>)
    requires p + |code| <= |a| && Has(a + b, p, code)
    ensures Has(a, p, code)
  {
    assert (a + b)[p..p + |code|] == a[p..p + |code|];
  }

  /** The cursor and the output count after `i` frames. */
  ghost predicate AtFrame(toc: Toc, wideband: bool, total: nat, pos: nat, toCount: nat, i: nat) {
    && i <= |toc.entries| && 8 * (1 + |toc.entries|) <= 2 * total
    && pos == FramePos(toc, wideband, i) <= total
    && toCount == FrameOctet(toc.entries, wideband, i)
    && FramesPresent(total, toc, wideband, 0) == FramesPresent(total, toc, wideband, i)
    && if toc.end == 4 + 6 * |toc.entries| then 8 * toCount + 4 * |toc.entries| <= 2 * pos
       else pos == total && toCount == 1 + |toc.entries|
  }

  lemma {:induction false} NextFrame(toc: Toc, wideband: bool, total: nat, pos: nat, toCount: nat, i: nat)
    requires AtFrame(toc, wideband, total, pos, toCount, i) && i < |toc.entries|
    ensures var n := FrameSizeBits(toc.entries[i], wideband);
      if n > total - pos then FramesPresent(total, toc, wideband, 0) == i
      else
        && AtFrame(toc, wideband, total, pos + n, toCount + Octets(n), i + 1)
        && 8 * toCount + n <= 2 * total
        && FramePos(toc, wideband, i) == pos && FramePos(toc, wideband, i + 1) == pos + n
  {
    hide FrameSizeBits, Octets;
    FramePosStep(toc, wideband, i);
    OctetBound(FrameSizeBits(toc.entries[i], wideband));
  }

  method UnpackFrames(fromBV: BitVector, toBuffer: array<bv8>, isWideband: bool, tocSize: nat,
                      ghost bits: seq<bool>, ghost toc: Toc) returns (toCount: nat)
    requires fromBV.Valid() && fromBV.base != toBuffer && fromBV.baseBitOffset == 0
    requires fromBV.Contents() == BitsOf(fromBV.base[..]) == bits
    requires fromBV.totNumBits >= 8 && fromBV.totNumBits == 8 * fromBV.base.Length && toBuffer.Length == 2 * fromBV.base.Length
    requires toc == ReadToc(bits, 4) && tocSize == |toc.entries| < toBuffer.Length
    requires AtFrame(toc, isWideband, |bits|, fromBV.curBitIndex, 1 + tocSize, 0)
    requires FramesMoved(bits, isWideband, toBuffer[..], 0)
    modifies fromBV`curBitIndex, toBuffer
    ensures var k := FramesPresent(|bits|, toc, isWideband, 0);
      toCount == FrameOctet(toc.entries, isWideband, k) <= toBuffer.Length
      && FramesMoved(bits, isWideband, toBuffer[..], k)
  {
    hide BitVector.Contents, ReadToc, FramesMoved, BitsOf, FrameSizeBits, Splice, FrameBitsFromFT, Value, ByteBits, Octets;
    hide FramesPresent, FramePos;
    toCount := 1 + tocSize;
    var i := 0;
    while i < tocSize
      invariant fromBV.Valid() && fromBV.Contents() == bits == BitsOf(fromBV.base[..])
      invariant AtFrame(toc, isWideband, |bits|, fromBV.curBitIndex, toCount, i)
      invariant FramesMoved(bits, isWideband, toBuffer[..], i)
    {
      EntryOctet(bits, toBuffer[..], isWideband, i, i);
      NextFrame(toc, isWideband, |bits|, fromBV.curBitIndex, toCount, i);
      var tocByte := toBuffer[1 + i];
      var ft := Value(ByteBits(tocByte)[1..5]); // the FT field of the octet
      var frameSizeBits := FrameBitsFromFT(ft, isWideband);
      if frameSizeBits > fromBV.totNumBits - fromBV.curBitIndex {
        return;
      }
      ghost var before := toBuffer[..];
      ShiftBits(toBuffer, 8 * toCount, fromBV.base, fromBV.curBitIndex, frameSizeBits);
      MoveFrame(bits, isWideband, before, toBuffer[..], i);
      fromBV.SkipBits(frameSizeBits);
      toCount := toCount + Octets(frameSizeBits);
      i := i + 1;
    }
    AllPresent(toc, isWideband, |bits|);
  }

  lemma {:induction false} AllPresent(toc: Toc, wideband: bool, total: nat)
    ensures FramesPresent(total, toc, wideband, |toc.entries|) == |toc.entries|
  {
  }

  lemma {:induction false} EntryOctet(bits: seq<bool>, buffer: seq<bv8>, wideband: bool, k: nat, i: nat)
    requires 4 <= |bits| && FramesMoved(bits, wideband, buffer, k) && i < |ReadToc(bits, 4).entries| < |buffer|
    ensures var ft := Value(ByteBits(buffer[1 + i])[1..5]);
      ft < 16 && FrameBitsFromFT(ft, wideband) == FrameSizeBits(ReadToc(bits, 4).entries[i], wideband)
  {
    hide ReadToc, Digits, Value, ByteBits, BitsOf, FrameType;
    var entries := ReadToc(bits, 4).entries;
    assert EntryWritten(entries, BitsOf(buffer), i);
    BitsOfSplit(buffer, i + 1);
    assert BitsOf(buffer)[8 * (i + 1)..8 * (i + 1) + 8] == ByteBits(buffer[i + 1]);
    TypeFromOctet(entries[i]);
  }

  method UnpackBandwidthEfficientData(data: array<bv8>, isWideband: bool) returns (out: seq<bv8>)
    requires 8 * data.Length < U32_MODULUS
    requires BufferSuffices(data[..])
    ensures Unpacks(BitsOf(data[..]), isWideband, out)
    ensures |out| <= 2 * data.Length
  {
    hide ReadToc, TocMoved, FramesMoved, OctetOf, Unpacks, ReadBits, BitsOf, Value;
    var fromBV := new BitVector(data, 0, 8 * data.Length);
    ghost var bits := BitsOf(data[..]);
    assert fromBV.Contents() == bits;
    var toBuffer := new bv8[2 * data.Length];
    var cmr := fromBV.GetBits(4);
    CmrMoved(bits, cmr, toBuffer[..], toBuffer[..][0 := OctetOf(16 * cmr)]);
    toBuffer[0] := OctetOf(16 * cmr);
    var toCount := UnpackToc(fromBV, toBuffer);
    var tocSize := toCount - 1;
    NoFramesYet(bits, isWideband, toBuffer[..]);
    ghost var toc := ReadToc(bits, 4);
    toCount := UnpackFrames(fromBV, toBuffer, isWideband, tocSize, bits, toc);
    UnpacksWhenDone(bits, isWideband, toBuffer[..], FramesPresent(|bits|, toc, isWideband, 0));
    out := toBuffer[..toCount];
  }

  // ---------- The size of the output buffer ----------

  /** How many octets the unpacker writes, whatever the size of its buffer. */
  function OctetsWritten(bits: seq<bool>, wideband: bool): nat {
    var toc := ReadToc(bits, Min(4, |bits|));
    FrameOctet(toc.entries, wideband, FramesPresent(|bits|, toc, wideband, 0))
  }

  /** How long a table of contents can be. */
  lemma {:induction false} TocBound(bits: seq<bool>, pos: nat)
    requires pos <= |bits|
    ensures var toc := ReadToc(bits, pos); var n := |toc.entries|;
      toc.end == Min(pos + 6 * n, |bits|) && (n >= 2 ==> pos + 6 * (n - 2) < |bits|)
    decreases |bits| - pos
  {
    NothingFollowsTheEnd(bits, pos);
    var (toc, p) := ReadBits(bits, pos, 6);
    if MoreFollows(toc) { TocBound(bits, p); }
  }

  /** From any frame on, what is written stays within twice the payload. */
  lemma {:induction false} FramesWithin(toc: Toc, wideband: bool, total: nat, pos: nat, toCount: nat, i: nat)
    requires AtFrame(toc, wideband, total, pos, toCount, i)
    ensures 8 * FrameOctet(toc.entries, wideband, FramesPresent(total, toc, wideband, 0)) <= 2 * total
    decreases |toc.entries| - i
  {
    hide FrameSizeBits, Octets;
    if i < |toc.entries| {
      NextFrame(toc, wideband, total, pos, toCount, i);
      var n := FrameSizeBits(toc.entries[i], wideband);
      if n <= total - pos { FramesWithin(toc, wideband, total, pos + n, toCount + Octets(n), i + 1); }
    }
  }

  lemma {:induction false} LongToc(bits: seq<bool>)
    requires |bits| == 8 && bits[4]
    ensures |ReadToc(bits, 4).entries| >= 2
  {
    var f := bits[4..8];
    assert f[0] == bits[4];
    assert FirstValue(f, 1) == 1;
    assert FirstValue(f, 2) >= 2;
    assert FirstValue(f, 3) >= 4;
    assert FirstValue(f, 4) >= 8;
    assert Available(bits, 4, 6) == 4;
    ShiftByTwo(FirstValue(f, 4));
  }

  /** Twice the payload is enough exactly for the payloads above: not for an empty one, which has an octet for the mode request
      and one entry all the same, and not for a single octet that announces a second entry. */
  lemma {:induction false} BufferSufficesIff(data: seq<bv8>, wideband: bool)
    ensures OctetsWritten(BitsOf(data), wideband) <= 2 * |data| <==> BufferSuffices(data)
  {
    hide ReadToc, FramesPresent, FrameOctet, BitsOf, ReadBits, MoreFollows;
    var bits := BitsOf(data);
    var toc := ReadToc(bits, Min(4, |bits|));
    if |data| > 0 {
      TocBound(bits, 4);
      if |data| == 1 {
        if bits[4] { LongToc(bits); } else { ShortTocOne(bits); }
      }
      if BufferSuffices(data) {
        FirstFrame(toc, wideband, |bits|);
        FramesWithin(toc, wideband, |bits|, toc.end, 1 + |toc.entries|, 0);
      }
    }
  }

  lemma {:induction false} ShortTocOne(bits: seq<bool>)
    requires |bits| == 8 && !bits[4]
    ensures |ReadToc(bits, 4).entries| == 1
  {
    hide ReadBits, MoreFollows;
    ShortToc(bits);
  }

  lemma {:induction false} FirstFrame(toc: Toc, wideband: bool, total: nat)
    requires toc.end == Min(4 + 6 * |toc.entries|, total) && 8 * (1 + |toc.entries|) <= 2 * total
    ensures AtFrame(toc, wideband, total, toc.end, 1 + |toc.entries|, 0)
  {
  }

  /** The octet with bit 4 set is such a payload. */
  lemma {:induction false} OneOctetTooFew(wideband: bool)
    ensures OctetsWritten(BitsOf([0x08]), wideband) > 2
  {
    hide OctetsWritten, BitsOf;
    BitsOfByte(0x08);
    assert BitOf(0x08, 4);
    BufferSufficesIff([0x08], wideband);
  }

  lemma {:induction false} CmrMoved(bits: seq<bool>, cmr: nat, before: seq<bv8>, after: seq<bv8>)
    requires 8 <= |bits| && |before| > 0 && cmr == ReadBits(bits, 0, 4).0
    requires after == before[0 := OctetOf(16 * cmr)]
    ensures ReadBits(bits, 0, 4).1 == 4
    ensures TocMoved(bits, after, 0)
  {
    hide ReadBits, Digits, ReadToc, OctetOf, Has, BitsOf, Splice;
    ReadWhole(bits, 0, 4);
    assert bits[0..0 + 4] == bits[..4];
    StoreByte(before, after, 0, 16 * cmr);
    SpliceHas(BitsOf(before), 0, Digits(16 * cmr, 8), 0, []);
  }

  lemma {:induction false} NoFramesYet(bits: seq<bool>, wideband: bool, buffer: seq<bv8>)
    requires 4 <= |bits| && TocMoved(bits, buffer, |ReadToc(bits, 4).entries|)
    ensures FramesMoved(bits, wideband, buffer, 0)
  {
  }
}
