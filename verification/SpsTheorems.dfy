/** Every AVC sequence parameter set laid out as the standard says is parsed back to its fields, and the
    exact conditions under which the reported size is the standard's picture size. */
module SpsTheorems {
  import opened Bits
  import opened BitReading
  import opened Options
  import opened SpsSyntax
  import opened SpsParser

  lemma {:induction false} UeDecodes(bits: seq<bool>, pos: nat, v: nat)
    requires Codable(v) && Has(bits, pos, Golomb(v))
    ensures Ue(bits, pos) == Some(Field(v, pos + |Golomb(v)|))
  {
    hide Has, Golomb;
    GolombRoundTrip(bits, pos, v);
  }

  lemma {:induction false} SeDecodes(bits: seq<bool>, pos: nat, v: int)
    requires SignedCodable(v) && Has(bits, pos, Golomb(SignedCode(v)))
    ensures Se(bits, pos) == Some(Field(v, pos + |Golomb(SignedCode(v))|))
  {
    hide Has, Golomb;
    UeDecodes(bits, pos, SignedCode(v));
    SignedRoundTrip(v);
  }

  lemma {:induction false} FlagDecodes(bits: seq<bool>, pos: nat, b: bool)
    requires Has(bits, pos, Flag(b))
    ensures pos < |bits| && ReadBit(bits, pos) == (b, pos + 1)
  {
    assert bits[pos] == bits[pos..pos + 1][0];
  }

  lemma {:induction false} ScaleArithmetic(last: nat, delta: int)
    ensures ParsedNextScale(last, delta) == NextScale(last, delta)
  {
    var x := last + delta + 256;
    AddMultiple(x / U32_MODULUS * 0x100_0000, x % U32_MODULUS);
  }

  lemma {:induction false} AddMultiple(y: int, r: int)
    ensures (256 * y + r) % 256 == r % 256
  {
  }

  lemma {:induction false} ScalingListDecodes(bits: seq<bool>, pos: nat, deltas: seq<int>, j: nat, size: nat, last: nat, next: nat)
    requires j <= size && ScalingListOk(deltas, j, size, last, next)
    requires Has(bits, pos, SignedCodes(deltas))
    ensures ParseScalingList(bits, pos, j, size, last, next) == Some(pos + |SignedCodes(deltas)|)
    decreases size - j
  {
    hide Has, Golomb, SignedCode, NextScale, ParsedNextScale, Se;
    if j < size {
      if next != 0 {
        var code := Golomb(SignedCode(deltas[0]));
        HasConcat(bits, pos, code, SignedCodes(deltas[1..]));
        SmallDelta(deltas[0]);
        SeDecodes(bits, pos, deltas[0]);
        ScaleArithmetic(last, deltas[0]);
        var n := NextScale(last, deltas[0]);
        ScalingListDecodes(bits, pos + |code|, deltas[1..], j + 1, size, if n == 0 then last else n, n);
      } else {
        ScalingListDecodes(bits, pos, deltas, j + 1, size, last, 0);
      }
    }
  }

  lemma {:induction false} SmallDelta(d: int)
    requires -128 <= d <= 127
    ensures SignedCodable(d)
  {
  }

  /** One list: its flag, and the list itself if it is there. */
  lemma {:induction false} ListDecodes(bits: seq<bool>, pos: nat, list: ScalingList, i: nat)
    requires list.Present? ==> ScalingListOk(list.deltas, 0, ListSize(i), 8, 8)
    requires Has(bits, pos, ScalingListBits(list))
    ensures pos < |bits| && ReadBit(bits, pos) == (list.Present?, pos + 1)
    ensures list.Present? ==> ParseScalingList(bits, pos + 1, 0, ListSize(i), 8, 8) == Some(pos + |ScalingListBits(list)|)
  {
    hide Has, SignedCodes, ParseScalingList, ScalingListOk, ReadBit, ListSize;
    match list {
      case Absent =>
        FlagDecodes(bits, pos, false);
      case Present(deltas) =>
        HasConcat(bits, pos, Flag(true), SignedCodes(deltas));
        FlagDecodes(bits, pos, true);
        ScalingListDecodes(bits, pos + 1, deltas, 0, ListSize(i), 8, 8);
    }
  }

  lemma {:induction false} ScalingListsDecode(bits: seq<bool>, pos: nat, lists: seq<ScalingList>, i: nat)
    requires ScalingListsOk(lists, i) && Has(bits, pos, ScalingListsBits(lists))
    ensures ParseScalingLists(bits, pos, i, i + |lists|) == Some(pos + |ScalingListsBits(lists)|)
    decreases |lists|
  {
    hide Has, SignedCodes, ParseScalingList, ScalingListOk, ReadBit;
    if lists != [] {
      var code := ScalingListBits(lists[0]);
      HasConcat(bits, pos, code, ScalingListsBits(lists[1..]));
      ListDecodes(bits, pos, lists[0], i);
      ScalingListsDecode(bits, pos + |code|, lists[1..], i + 1);
    }
  }

  lemma {:induction false} ChromaDecodes(bits: seq<bool>, pos: nat, c: ChromaInfo)
    requires ChromaOk(c) && Has(bits, pos, ChromaBits(c))
    ensures ParseChroma(bits, pos) == Some(Field(c.chromaFormatIdc, pos + |ChromaBits(c)|))
  {
    hide Has, Golomb, Ue, ScalingListsBits, ParseScalingLists, ScalingListsOk;
    var matrix := ScalingMatrixBits(c.scaling);
    var e1 := Flag(c.transformBypass) + matrix;
    var e2 := Golomb(c.bitDepthChromaMinus8) + e1;
    var e3 := Golomb(c.bitDepthLumaMinus8) + e2;
    var plane := if c.chromaFormatIdc == 3 then Flag(c.separateColourPlane) else [];
    var p1 := pos + |Golomb(c.chromaFormatIdc)|;
    var p2 := p1 + |plane|;
    var p3 := p2 + |Golomb(c.bitDepthLumaMinus8)|;
    var p4 := p3 + |Golomb(c.bitDepthChromaMinus8)|;
    HasConcat(bits, pos, Golomb(c.chromaFormatIdc), plane + e3);
    HasConcat(bits, p1, plane, e3);
    HasConcat(bits, p2, Golomb(c.bitDepthLumaMinus8), e2);
    HasConcat(bits, p3, Golomb(c.bitDepthChromaMinus8), e1);
    HasConcat(bits, p4, Flag(c.transformBypass), matrix);
    UeDecodes(bits, pos, c.chromaFormatIdc);
    if c.chromaFormatIdc == 3 { FlagDecodes(bits, p1, c.separateColourPlane); }
    UeDecodes(bits, p2, c.bitDepthLumaMinus8);
    UeDecodes(bits, p3, c.bitDepthChromaMinus8);
    ScalingMatrixDecodes(bits, p4 + 1, c);
  }

  lemma {:induction false} ScalingMatrixDecodes(bits: seq<bool>, pos: nat, c: ChromaInfo)
    requires ChromaOk(c) && Has(bits, pos, ScalingMatrixBits(c.scaling))
    ensures pos < |bits| && ReadBit(bits, pos) == (c.scaling.Some?, pos + 1)
    ensures c.scaling.Some? ==>
              ParseScalingLists(bits, pos + 1, 0, NumLists(c.chromaFormatIdc)) == Some(pos + |ScalingMatrixBits(c.scaling)|)
  {
    hide Has, ScalingListsBits, ParseScalingLists, ScalingListsOk;
    match c.scaling {
      case None => FlagDecodes(bits, pos, false);
      case Some(lists) =>
        HasConcat(bits, pos, Flag(true), ScalingListsBits(lists));
        FlagDecodes(bits, pos, true);
        ScalingListsDecode(bits, pos + 1, lists, 0);
    }
  }

  lemma {:induction false} OffsetsDecode(bits: seq<bool>, pos: nat, offsets: seq<int>, i: nat)
    requires forall k :: 0 <= k < |offsets| ==> SignedCodable(offsets[k])
    requires Has(bits, pos, SignedCodes(offsets))
    ensures ParseOffsets(bits, pos, i, i + |offsets|) == Some(pos + |SignedCodes(offsets)|)
    decreases |offsets|
  {
    hide Has, Golomb, Se;
    if offsets != [] {
      var code := Golomb(SignedCode(offsets[0]));
      HasConcat(bits, pos, code, SignedCodes(offsets[1..]));
      SeDecodes(bits, pos, offsets[0]);
      OffsetsDecode(bits, pos + |code|, offsets[1..], i + 1);
    }
  }

  lemma {:induction false} PocDecodes(bits: seq<bool>, pos: nat, p: PicOrderCount)
    requires PocOk(p) && Has(bits, pos, PocBits(p))
    ensures ParsePicOrderCount(bits, pos) == Some(pos + |PocBits(p)|)
  {
    hide Has, Golomb, Ue, Se, SignedCodes, ParseOffsets, SignedCode;
    match p {
      case Lsb(n) =>
        HasConcat(bits, pos, Golomb(0), Golomb(n));
        UeDecodes(bits, pos, 0);
        UeDecodes(bits, pos + |Golomb(0)|, n);
      case Cycle(zero, a, b, offsets) =>
        var ca, cb, cn := Golomb(SignedCode(a)), Golomb(SignedCode(b)), Golomb(|offsets|);
        var e1 := cn + SignedCodes(offsets);
        var e2 := cb + e1;
        var e3 := ca + e2;
        var p1 := pos + |Golomb(1)|;
        var p2 := p1 + 1;
        HasConcat(bits, pos, Golomb(1), Flag(zero) + e3);
        HasConcat(bits, p1, Flag(zero), e3);
        HasConcat(bits, p2, ca, e2);
        HasConcat(bits, p2 + |ca|, cb, e1);
        HasConcat(bits, p2 + |ca| + |cb|, cn, SignedCodes(offsets));
        UeDecodes(bits, pos, 1);
        SeDecodes(bits, p2, a);
        SeDecodes(bits, p2 + |ca|, b);
        UeDecodes(bits, p2 + |ca| + |cb|, |offsets|);
        OffsetsDecode(bits, p2 + |ca| + |cb| + |cn|, offsets, 0);
      case DisplayOrder =>
        UeDecodes(bits, pos, 2);
    }
  }

  /** The size the parser reports for a parameter set. */
  function DecodedWidth(s: Sps): int {
    var coded := (s.widthInMbsMinus1 + 1) * 16;
    ToInt32(if s.cropping.Cropped? then coded - ParsedCropUnitX(ChromaFormat(s)) * s.cropping.right else coded)
  }

  function DecodedHeight(s: Sps): int {
    var coded := (s.heightInMapUnitsMinus1 + 1) * 16;
    ToInt32(if s.cropping.Cropped? then coded - ParsedCropUnitY(ChromaFormat(s), s.frameMbsOnly) * s.cropping.bottom else coded)
  }

  /** The four cropping offsets, after their flag. */
  lemma {:induction false} CroppingDecodes(bits: seq<bool>, pos: nat, c: Cropping)
    requires CroppingOk(c) && Has(bits, pos, CroppingBits(c))
    ensures pos < |bits| && ReadBit(bits, pos) == (c.Cropped?, pos + 1)
    ensures c.Cropped? ==>
              var l := Ue(bits, pos + 1);
              l.Some? && l.value.value == c.left &&
              var r := Ue(bits, l.value.pos);
              r.Some? && r.value.value == c.right &&
              var t := Ue(bits, r.value.pos);
              t.Some? && t.value.value == c.top &&
              var b := Ue(bits, t.value.pos);
              b.Some? && b.value.value == c.bottom
  {
    hide Has, Golomb, Ue;
    match c {
      case Uncropped => FlagDecodes(bits, pos, false);
      case Cropped(l, r, t, b) =>
        var e1 := Golomb(t) + Golomb(b);
        var e2 := Golomb(r) + e1;
        var p1 := pos + 1;
        var p2 := p1 + |Golomb(l)|;
        var p3 := p2 + |Golomb(r)|;
        HasConcat(bits, pos, Flag(true), Golomb(l) + e2);
        HasConcat(bits, p1, Golomb(l), e2);
        HasConcat(bits, p2, Golomb(r), e1);
        HasConcat(bits, p3, Golomb(t), Golomb(b));
        FlagDecodes(bits, pos, true);
        UeDecodes(bits, p1, l);
        UeDecodes(bits, p2, r);
        UeDecodes(bits, p3, t);
        UeDecodes(bits, p3 + |Golomb(t)|, b);
    }
  }

  lemma {:induction false} SizeDecodes(bits: seq<bool>, pos: nat, s: Sps)
    requires SpsOk(s) && Has(bits, pos, SizeBits(s))
    ensures ParseSize(bits, pos, ChromaFormat(s)) == Some(Size(DecodedWidth(s), DecodedHeight(s)))
  {
    hide Has, Golomb, Ue, CroppingBits, ToInt32, ChromaFormat, ParsedCropUnitX, ParsedCropUnitY, ChromaOk, PocOk, High;
    var crop := CroppingBits(s.cropping);
    var e1 := Flag(s.direct8x8) + crop;
    var mbaff := if s.frameMbsOnly then [] else Flag(s.mbAdaptive);
    var e2 := mbaff + e1;
    var e3 := Flag(s.frameMbsOnly) + e2;
    var e4 := Golomb(s.heightInMapUnitsMinus1) + e3;
    var e5 := Golomb(s.widthInMbsMinus1) + e4;
    var p1 := pos + |Golomb(s.maxNumRefFrames)|;
    var p2 := p1 + 1;
    var p3 := p2 + |Golomb(s.widthInMbsMinus1)|;
    var p4 := p3 + |Golomb(s.heightInMapUnitsMinus1)|;
    var p5 := p4 + 1 + |mbaff|;
    HasConcat(bits, pos, Golomb(s.maxNumRefFrames), Flag(s.gapsAllowed) + e5);
    HasConcat(bits, p1, Flag(s.gapsAllowed), e5);
    HasConcat(bits, p2, Golomb(s.widthInMbsMinus1), e4);
    HasConcat(bits, p3, Golomb(s.heightInMapUnitsMinus1), e3);
    HasConcat(bits, p4, Flag(s.frameMbsOnly), e2);
    HasConcat(bits, p4 + 1, mbaff, e1);
    HasConcat(bits, p5, Flag(s.direct8x8), crop);
    UeDecodes(bits, pos, s.maxNumRefFrames);
    FlagDecodes(bits, p1, s.gapsAllowed);
    UeDecodes(bits, p2, s.widthInMbsMinus1);
    UeDecodes(bits, p3, s.heightInMapUnitsMinus1);
    FlagDecodes(bits, p4, s.frameMbsOnly);
    CroppingDecodes(bits, p5 + 1, s.cropping);
  }

  lemma {:induction false} FixedDecodes(bits: seq<bool>, pos: nat, v: nat)
    requires v < 256 && Has(bits, pos, Digits(v, 8))
    ensures ReadBits(bits, pos, 8).0 == v
    ensures ReadBits(bits, pos, 8).1 == pos + 8
  {
    Pow2Table();
    ReadExactly(bits, pos, Digits(v, 8));
    ValueDigits(v, 8);
  }

  /** Parsing inverts the layout of section 7.3.2.1.1, through every optional field and loop. */
  lemma {:induction false} SpsDecodes(bits: seq<bool>, s: Sps)
    requires SpsOk(s) && Has(bits, 0, SpsBits(s))
    ensures ParseSps(bits) == Some(Size(DecodedWidth(s), DecodedHeight(s)))
  {
    hide Has, Golomb, Ue, Digits, ReadBits, ChromaBits, PocBits, SizeBits, ParseChroma, ParsePicOrderCount, ParseSize;
    hide ChromaOk, PocOk, CroppingOk, DecodedWidth, DecodedHeight;
    var e1 := PocBits(s.poc) + SizeBits(s);
    var e2 := Golomb(s.log2MaxFrameNumMinus4) + e1;
    var chroma := if High(s) then ChromaBits(s.chroma) else [];
    var e3 := chroma + e2;
    var e4 := Golomb(s.spsId) + e3;
    var e5 := Digits(s.levelIdc, 8) + e4;
    var e6 := Digits(s.constraintFlags, 8) + e5;
    var p1 := 32 + |Golomb(s.spsId)|;
    var p2 := p1 + |chroma|;
    var p3 := p2 + |Golomb(s.log2MaxFrameNumMinus4)|;
    HasConcat(bits, 0, Digits(s.nalHeader, 8), Digits(s.profileIdc, 8) + e6);
    HasConcat(bits, 8, Digits(s.profileIdc, 8), e6);
    HasConcat(bits, 16, Digits(s.constraintFlags, 8), e5);
    HasConcat(bits, 24, Digits(s.levelIdc, 8), e4);
    HasConcat(bits, 32, Golomb(s.spsId), e3);
    HasConcat(bits, p1, chroma, e2);
    HasConcat(bits, p2, Golomb(s.log2MaxFrameNumMinus4), e1);
    HasConcat(bits, p3, PocBits(s.poc), SizeBits(s));
    FixedDecodes(bits, 8, s.profileIdc);
    FixedDecodes(bits, 16, s.constraintFlags);
    FixedDecodes(bits, 24, s.levelIdc);
    UeDecodes(bits, 32, s.spsId);
    if High(s) { ChromaDecodes(bits, p1, s.chroma); }
    UeDecodes(bits, p2, s.log2MaxFrameNumMinus4);
    PocDecodes(bits, p3, s.poc);
    SizeDecodes(bits, p3 + |PocBits(s.poc)|, s);
  }

  /** The round trip, whatever follows the parameter set. */
  lemma {:induction false} ParsesWhatIsLaidOut(s: Sps, more: seq<bool>)
    requires SpsOk(s)
    ensures ParseSps(SpsBits(s) + more) == Some(Size(DecodedWidth(s), DecodedHeight(s)))
  {
    hide SpsOk, SpsBits, ParseSps, DecodedWidth, DecodedHeight;
    SpsDecodes(SpsBits(s) + more, s);
  }

  // ---------- Profiles ----------

  /** A parameter set laid out with or without the chroma fields, whatever its profile. */
  function LaidOut(s: Sps, withChroma: bool): seq<bool> {
    Digits(s.nalHeader, 8)
    + (Digits(s.profileIdc, 8)
       + (Digits(s.constraintFlags, 8)
          + (Digits(s.levelIdc, 8)
             + (Golomb(s.spsId)
                + ((if withChroma then ChromaBits(s.chroma) else [])
                   + (Golomb(s.log2MaxFrameNumMinus4)
                      + (PocBits(s.poc)
                         + SizeBits(s))))))))
  }

  /** The size when chroma_format_idc is `chroma`: 4:2:0 if it is not in the stream. */
  function SizeWith(s: Sps, chroma: nat): Size {
    var w, h := (s.widthInMbsMinus1 + 1) * 16, (s.heightInMapUnitsMinus1 + 1) * 16;
    match s.cropping
    case Uncropped => Size(ToInt32(w), ToInt32(h))
    case Cropped(_, right, _, bottom) =>
      var x := if chroma == 1 || chroma == 2 then 2 else 1;
      var y := (if chroma == 1 then 2 else 1) * (if s.frameMbsOnly then 1 else 2);
      Size(ToInt32(w - x * right), ToInt32(h - y * bottom))
  }

  /** For the profiles listed here parameter sets with the chroma fields are parsed to their size, and for all others those
      without them. */
  lemma {:induction false} EveryProfile(s: Sps, more: seq<bool>)
    requires SpsOk(s)
    ensures var withChroma := s.profileIdc in [100, 110, 122, 244, 44, 83, 86, 118, 128];
      ParseSps(LaidOut(s, withChroma) + more) == Some(SizeWith(s, if withChroma then s.chroma.chromaFormatIdc else 1))
  {
    hide ParseSps, ChromaBits, SizeBits, PocBits, Digits, Golomb, ToInt32, PocOk;
    ParsesWhatIsLaidOut(s, more);
    assert High(s) <==> s.profileIdc in [100, 110, 122, 244, 44, 83, 86, 118, 128];
    assert LaidOut(s, High(s)) == SpsBits(s);
    HighChroma(s);
  }

  lemma {:induction false} HighChroma(s: Sps)
    requires SpsOk(s)
    ensures High(s) ==> s.chroma.chromaFormatIdc <= 3
  {
  }

  // ---------- A full HD stream ----------

  /** A full HD stream: 68 rows of macroblocks, of which eight lines are cropped at the bottom. */
  function FullHdSet(): Sps {
    Sps(103, 100, 0, 40, 0, ChromaInfo(1, false, 0, 0, false, None), 0, Lsb(2), 4, false, 119, 67, true, false, true, Cropped(0, 0, 0, 4))
  }

  function BitString(digits: seq<nat>): (bits: seq<bool>)
    ensures |bits| == |digits| && forall i :: 0 <= i < |bits| ==> bits[i] == (digits[i] == 1)
  {
    seq(|digits|, i requires 0 <= i < |digits| => digits[i] == 1)
  }

  /** Its bits: the header, the profile 100, the flags, the level 40 and the number of the set; */
  function FullHdStart(): seq<bool> {
    BitString([0, 1, 1, 0, 0, 1, 1, 1]) + (BitString([0, 1, 1, 0, 0, 1, 0, 0]) + (BitString([0, 0, 0, 0, 0, 0, 0, 0])
    + (BitString([0, 0, 1, 0, 1, 0, 0, 0]) + BitString([1]))))
  }

  /** 4:2:0, eight bits, no bypass and no scaling lists; the frame number and picture order count fields, and four reference frames; */
  function FullHdMiddle(): seq<bool> {
    BitString([0, 1, 0, 1, 1, 0, 0]) + (BitString([1]) + (BitString([1, 0, 1, 1]) + BitString([0, 0, 1, 0, 1, 0])))
  }

  /** 120 by 68 macroblocks, frames only, and the cropping. */
  function FullHdEnd(): seq<bool> {
    BitString([0, 0, 0, 0, 0, 0, 1, 1, 1, 1, 0, 0, 0]) + (BitString([0, 0, 0, 0, 0, 0, 1, 0, 0, 0, 1, 0, 0])
    + (BitString([1, 1]) + BitString([1, 1, 1, 1, 0, 0, 1, 0, 1])))
  }

  lemma {:induction false} SmallCodewords()
    ensures Golomb(0) == BitString([1]) && Golomb(1) == BitString([0, 1, 0]) && Golomb(2) == BitString([0, 1, 1])
    ensures Golomb(4) == BitString([0, 0, 1, 0, 1])
  {
    hide Log2;
    SmallLogs();
    assert Pow2(0) == 1 && Pow2(1) == 2 && Pow2(2) == 4;
    assert Digits(0, 0) == [];
    assert Digits(0, 1) == [false] && Digits(1, 1) == [true];
    assert Digits(1, 2) == Digits(0, 1) + [true] == [false, true];
  }

  lemma {:induction false} SmallLogs()
    ensures Log2(1) == 0 && Log2(2) == 1 && Log2(3) == 1 && Log2(5) == 2
  {
    assert Log2(2) == 1 + Log2(1);
    assert Log2(5) == 1 + Log2(2);
  }

  lemma {:induction false} WidthCodeword()
    ensures Golomb(119) == BitString([0, 0, 0, 0, 0, 0, 1, 1, 1, 1, 0, 0, 0])
  {
    hide Digits;
    SevenBits(120);
    SixDigits(56, [true, true, true, false, false, false]);
  }

  lemma {:induction false} HeightCodeword()
    ensures Golomb(67) == BitString([0, 0, 0, 0, 0, 0, 1, 0, 0, 0, 1, 0, 0])
  {
    hide Digits;
    SevenBits(68);
    SixDigits(4, [false, false, false, true, false, false]);
  }

  lemma {:induction false} SevenBits(n: nat)
    requires 64 <= n < 128
    ensures Log2(n) == 6 && Pow2(6) == 64
  {
    hide Log2, Pow2;
    SmallPowers();
    if Log2(n) > 6 { Pow2Monotone(7, Log2(n)); }
    if Log2(n) < 6 { Pow2Monotone(Log2(n) + 1, 6); }
  }

  lemma {:induction false} SmallPowers()
    ensures Pow2(6) == 64 && Pow2(7) == 128
  {
    assert Pow2(3) == 8;
    assert Pow2(6) == 64;
  }

  /** The digits of a number are the bits whose value it is. */
  lemma {:induction false} SixDigits(v: nat, bits: seq<bool>)
    requires |bits| == 6
    requires v == 32 * Digit(bits[0]) + 16 * Digit(bits[1]) + 8 * Digit(bits[2]) + 4 * Digit(bits[3]) + 2 * Digit(bits[4]) + Digit(bits[5])
    ensures Digits(v, 6) == bits
  {
    hide Pow2, Digits;
    assert FirstValue(bits, 0) == 0;
    assert FirstValue(bits, 1) == Digit(bits[0]);
    assert FirstValue(bits, 2) == 2 * FirstValue(bits, 1) + Digit(bits[1]);
    assert FirstValue(bits, 3) == 2 * FirstValue(bits, 2) + Digit(bits[2]);
    assert FirstValue(bits, 4) == 2 * FirstValue(bits, 3) + Digit(bits[3]);
    assert FirstValue(bits, 5) == 2 * FirstValue(bits, 4) + Digit(bits[4]);
    assert FirstValue(bits, 6) == 2 * FirstValue(bits, 5) + Digit(bits[5]);
    DigitsValue(bits);
  }

  lemma {:induction false} EightDigits(v: nat, bits: seq<bool>)
    requires |bits| == 8 && v == 4 * (v / 4) + 2 * Digit(bits[6]) + Digit(bits[7])
    requires Digits(v / 4, 6) == bits[..6]
    ensures Digits(v, 8) == bits
  {
    assert v / 2 == 2 * (v / 4) + Digit(bits[6]);
    assert v / 2 / 2 == v / 4;
    assert Digits(v, 8) == Digits(v / 2, 7) + [bits[7]];
    assert Digits(v / 2, 7) == Digits(v / 4, 6) + [bits[6]];
  }

  lemma {:induction false} HeaderDigits()
    ensures Digits(103, 8) == BitString([0, 1, 1, 0, 0, 1, 1, 1]) && Digits(100, 8) == BitString([0, 1, 1, 0, 0, 1, 0, 0])
    ensures Digits(0, 8) == BitString([0, 0, 0, 0, 0, 0, 0, 0]) && Digits(40, 8) == BitString([0, 0, 1, 0, 1, 0, 0, 0])
  {
    hide Digits;
    SixDigits(25, [false, true, true, false, false, true]);
    SixDigits(10, [false, false, true, false, true, false]);
    SixDigits(0, [false, false, false, false, false, false]);
    EightDigits(103, [false, true, true, false, false, true, true, true]);
    EightDigits(100, [false, true, true, false, false, true, false, false]);
    EightDigits(0, [false, false, false, false, false, false, false, false]);
    EightDigits(40, [false, false, true, false, true, false, false, false]);
  }

  lemma {:induction false} FullHdParts()
    ensures ChromaBits(FullHdSet().chroma) == BitString([0, 1, 0, 1, 1, 0, 0])
    ensures PocBits(FullHdSet().poc) == BitString([1, 0, 1, 1])
    ensures SizeBits(FullHdSet()) == BitString([0, 0, 1, 0, 1, 0]) + FullHdEnd()
  {
    hide Golomb;
    SmallCodewords();
    FullHdSize();
  }

  lemma {:induction false} FullHdSize()
    ensures SizeBits(FullHdSet()) == BitString([0, 0, 1, 0, 1, 0]) + FullHdEnd()
  {
    hide Golomb;
    SmallCodewords();
    WidthCodeword();
    HeightCodeword();
    var s := FullHdSet();
    assert CroppingBits(s.cropping) == BitString([1, 1, 1, 1, 0, 0, 1, 0, 1]);
    assert Flag(s.frameMbsOnly) + ([] + (Flag(s.direct8x8) + CroppingBits(s.cropping))) == BitString([1, 1]) + CroppingBits(s.cropping);
  }

  /** Bit by bit as it stands in a stream, and whatever follows: the parser reports 1920 by 1080. */
  lemma {:induction false} FullHd(more: seq<bool>)
    ensures ParseSps(FullHdStart() + (FullHdMiddle() + (FullHdEnd() + more))) == Some(Size(1920, 1080))
  {
    hide ParseSps, Digits, Golomb, ChromaBits, PocBits, SizeBits, BitString, FullHdEnd;
    var s := FullHdSet();
    FullHdOk();
    HeaderDigits();
    SmallCodewords();
    FullHdParts();
    EveryProfile(s, more);
    assert LaidOut(s, true) + more == FullHdStart() + (FullHdMiddle() + (FullHdEnd() + more));
  }

  lemma {:induction false} FullHdOk()
    ensures SpsOk(FullHdSet()) && SizeOk(FullHdSet()) && SizeWith(FullHdSet(), 1) == Size(1920, 1080)
  {
  }

  lemma {:induction false} CropUnitsAgree(s: Sps)
    requires SpsOk(s)
    ensures ParsedCropUnitX(ChromaFormat(s)) == CropUnitX(s) >= 1
    ensures ParsedCropUnitY(ChromaFormat(s), s.frameMbsOnly) == CropUnitY(s) >= 1
  {
  }

  /** The standard's limits: the coded size fits a signed 32-bit number and cropping leaves a picture. */
  predicate SizeOk(s: Sps) {
    && 16 * (s.widthInMbsMinus1 + 1) < 0x8000_0000
    && 16 * FieldFactor(s) * (s.heightInMapUnitsMinus1 + 1) < 0x8000_0000
    && (s.cropping.Cropped? ==> PictureWidth(s) > 0 && PictureHeight(s) > 0)
  }

  lemma {:induction false} SmallInt32(x: int)
    requires -0x8000_0000 <= x < 0x8000_0000
    ensures ToInt32(x) == x
  {
  }

  lemma {:induction false} ScaledZero(k: nat, x: nat)
    requires k >= 1
    ensures k * x >= x && (k * x == 0 <==> x == 0)
  {
  }

  lemma {:induction false} Distribute(k: int, a: int, b: int)
    ensures k * (a + b) == k * a + k * b
  {
  }

  /** The reported width is the standard's exactly when the picture is not cropped on the left. */
  lemma {:induction false} WidthCorrectIff(bits: seq<bool>, s: Sps)
    requires SpsOk(s) && SizeOk(s) && Has(bits, 0, SpsBits(s))
    ensures ParseSps(bits).Some?
    ensures ParseSps(bits).value.width == PictureWidth(s) <==> s.cropping.Uncropped? || s.cropping.left == 0
  {
    hide SpsOk, SpsBits, ParseSps, ToInt32, CropUnitX, ParsedCropUnitX, ChromaFormat, PictureHeight;
    SpsDecodes(bits, s);
    CropUnitsAgree(s);
    var coded, k := 16 * (s.widthInMbsMinus1 + 1), CropUnitX(s);
    match s.cropping {
      case Uncropped => SmallInt32(coded);
      case Cropped(l, r, _, _) =>
        Distribute(k, l, r);
        ScaledZero(k, l);
        ScaledZero(k, r);
        SmallInt32(coded - k * r);
    }
  }

  /** The reported height is the standard's exactly when, for a frame-only stream, the picture is not cropped
      at the top, and, for a stream with field pictures, the top offset happens to hide one field's worth of rows. */
  lemma {:induction false} HeightCorrectIff(bits: seq<bool>, s: Sps)
    requires SpsOk(s) && SizeOk(s) && Has(bits, 0, SpsBits(s))
    ensures ParseSps(bits).Some?
    ensures ParseSps(bits).value.height == PictureHeight(s) <==>
            if s.frameMbsOnly then s.cropping.Uncropped? || s.cropping.top == 0
            else s.cropping.Cropped? && CropUnitY(s) * s.cropping.top == 16 * (s.heightInMapUnitsMinus1 + 1)
  {
    hide SpsOk, SpsBits, ParseSps, ToInt32, CropUnitY, ParsedCropUnitY, ChromaFormat, PictureWidth;
    SpsDecodes(bits, s);
    CropUnitsAgree(s);
    var field, k := 16 * (s.heightInMapUnitsMinus1 + 1), CropUnitY(s);
    match s.cropping {
      case Uncropped => SmallInt32(field);
      case Cropped(_, _, t, b) =>
        Distribute(k, t, b);
        ScaledZero(k, t);
        ScaledZero(k, b);
        ReportedHeightFits(s, k * b);
        SmallInt32(field - k * b);
    }
  }

  lemma {:induction false} ReportedHeightFits(s: Sps, cut: nat)
    requires SizeOk(s) && cut <= 16 * FieldFactor(s) * (s.heightInMapUnitsMinus1 + 1)
    ensures -0x8000_0000 <= 16 * (s.heightInMapUnitsMinus1 + 1) - cut < 0x8000_0000
  {
  }
}
