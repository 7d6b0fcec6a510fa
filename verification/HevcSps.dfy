/** The HEVC branch of ParseSequenceParameterSet as far as the picture size it reports, with profile_tier_level() in
    front of it; the layout is that of sections 7.3.2.2 and 7.3.3 of ITU-T H.265. */
module HevcSps {
  import opened Bits
  import opened BitReading
  import opened BitVectors
  import opened Options
  import opened SpsSyntax
  import opened SpsParser
  import opened SpsTheorems

  // ---------- The layout ----------

  const GENERAL_SIZE := 96
  const PROFILE_SIZE := 88
  const LEVEL_SIZE := 8

  /** What a sub-layer carries: profile bits, level bits, both or neither. */
  datatype SubLayer = SubLayer(profile: Option<seq<bool>>, level: Option<seq<bool>>)

  datatype Window = Whole | Cut(left: nat, right: nat, top: nat, bottom: nat)

  datatype HevcHeader = HevcHeader(
    nalHeader: seq<bool>, vpsId: seq<bool>, nesting: bool, general: seq<bool>, subLayers: seq<SubLayer>, reserved: seq<bool>,
    spsId: nat, chromaFormatIdc: nat, separateColourPlane: bool, width: nat, height: nat, window: Window)

  predicate SubLayerOk(s: SubLayer) {
    (s.profile.Some? ==> |s.profile.value| == PROFILE_SIZE) && (s.level.Some? ==> |s.level.value| == LEVEL_SIZE)
  }

  function FlagPairs(layers: seq<SubLayer>): seq<bool> {
    if layers == [] then [] else (Flag(layers[0].profile.Some?) + Flag(layers[0].level.Some?)) + FlagPairs(layers[1..])
  }

  function OptionalBits(o: Option<seq<bool>>): seq<bool> {
    if o.Some? then o.value else []
  }

  function LayerData(layers: seq<SubLayer>): seq<bool> {
    if layers == [] then [] else (OptionalBits(layers[0].profile) + OptionalBits(layers[0].level)) + LayerData(layers[1..])
  }

  /** reserved_zero_2bits for the sub-layers up to the eighth, if there is any. */
  function ReservedSize(n: nat): nat
    requires n <= 8
  {
    if n > 0 then 2 * (8 - n) else 0
  }

  predicate HeaderOk(h: HevcHeader) {
    && |h.nalHeader| == 16 && |h.vpsId| == 4 && |h.general| == GENERAL_SIZE
    && |h.subLayers| <= 7 && |h.reserved| == ReservedSize(|h.subLayers|)
    && (forall i :: 0 <= i < |h.subLayers| ==> SubLayerOk(h.subLayers[i]))
    && Codable(h.spsId) && h.chromaFormatIdc <= 3 && Codable(h.width) && Codable(h.height)
  }

  function ProfileTierLevelBits(h: HevcHeader): seq<bool> {
    h.general + (FlagPairs(h.subLayers) + (h.reserved + LayerData(h.subLayers)))
  }

  function WindowBits(w: Window): seq<bool> {
    match w
    case Whole => Flag(false)
    case Cut(l, r, t, b) => Flag(true) + (Golomb(l) + (Golomb(r) + (Golomb(t) + Golomb(b))))
  }

  function HeaderBits(h: HevcHeader): seq<bool> {
    h.nalHeader
    + (h.vpsId
       + (Digits(|h.subLayers|, 3)
          + (Flag(h.nesting)
             + (ProfileTierLevelBits(h)
                + (Golomb(h.spsId)
                   + (Golomb(h.chromaFormatIdc)
                      + ((if h.chromaFormatIdc == 3 then Flag(h.separateColourPlane) else [])
                         + (Golomb(h.width)
                            + (Golomb(h.height)
                               + WindowBits(h.window))))))))))
  }

  /** The size of the picture that is shown (section 7.4.3.2.1: the conformance window). */
  function ArrayType(h: HevcHeader): nat {
    if h.chromaFormatIdc == 3 && h.separateColourPlane then 0 else h.chromaFormatIdc
  }

  function ShownWidth(h: HevcHeader): int {
    match h.window
    case Whole => h.width
    case Cut(l, r, _, _) => h.width - SubWidthC(ArrayType(h)) * (l + r)
  }

  function ShownHeight(h: HevcHeader): int {
    match h.window
    case Whole => h.height
    case Cut(_, _, t, b) => h.height - SubHeightC(ArrayType(h)) * (t + b)
  }

  // ---------- The parser as a function ----------

  /** Sub-layers from `i` on whose flags have been read. */
  function ParseFlags(bits: seq<bool>, pos: nat, n: nat): (r: (seq<(bool, bool)>, nat))
    requires pos <= |bits|
    ensures |r.0| == n && r.1 <= |bits|
    decreases n
  {
    if n == 0 then ([], pos)
    else
      var (profile, p) := ReadBit(bits, pos);
      var (level, p') := ReadBit(bits, p);
      var (rest, end) := ParseFlags(bits, p', n - 1);
      ([(profile, level)] + rest, end)
  }

  function ParseLayers(bits: seq<bool>, pos: nat, flags: seq<(bool, bool)>): (end: nat)
    requires pos <= |bits|
    ensures end <= |bits|
    decreases |flags|
  {
    if flags == [] then pos
    else
      var p := if flags[0].0 then SkipBits(bits, pos, 88) else pos;
      var p' := if flags[0].1 then SkipBits(bits, p, 8) else p;
      ParseLayers(bits, p', flags[1..])
  }

  function ParseProfileTierLevel(bits: seq<bool>, pos: nat, n: nat): (end: nat)
    requires pos <= |bits| && n <= 8
    ensures end <= |bits|
  {
    var (flags, p) := ParseFlags(bits, SkipBits(bits, pos, 96), n);
    ParseLayers(bits, SkipBits(bits, p, if n > 0 then 2 * (8 - n) else 0), flags)
  }

  function ParseHevcSize(bits: seq<bool>, pos: nat): Option<Size>
    requires pos <= |bits|
  {
    var id :- Ue(bits, pos);
    var chroma :- Ue(bits, id.pos);
    var p := if chroma.value == 3 then SkipBits(bits, chroma.pos, 1) else chroma.pos;
    var w :- Ue(bits, p);
    var h :- Ue(bits, w.pos);
    Some(Size(ToInt32(w.value), ToInt32(h.value)))
  }

  function ParseHevc(bits: seq<bool>): Option<Size> {
    var start := SkipBits(bits, SkipBits(bits, 0, 16), 4);
    var (n, p) := ReadBits(bits, start, 3);
    assert n <= 7 by { ThreeBits(bits, start); }
    ParseHevcSize(bits, ParseProfileTierLevel(bits, SkipBits(bits, p, 1), n))
  }

  lemma {:induction false} ThreeBits(bits: seq<bool>, pos: nat)
    requires pos <= |bits|
    ensures ReadBits(bits, pos, 3).0 <= 7
  {
    Pow2Table();
    var m := Available(bits, pos, 3);
    var v := Value(bits[pos..pos + m]);
    if m == 3 {
      assert ShiftLeft(v, 0) == v;
    } else if m == 2 {
      assert ShiftLeft(v, 1) == 2 * ShiftLeft(v, 0);
    } else if m == 1 {
      assert ShiftLeft(v, 2) == 2 * ShiftLeft(v, 1) == 4 * ShiftLeft(v, 0);
    } else {
      assert ShiftLeft(0, 3) == 2 * ShiftLeft(0, 2) == 4 * ShiftLeft(0, 1);
    }
  }

  // ---------- The theorem ----------

  lemma {:induction false} SkipDecodes(bits: seq<bool>, pos: nat, field: seq<bool>)
    requires Has(bits, pos, field)
    ensures pos <= |bits| && SkipBits(bits, pos, |field|) == pos + |field|
  {
  }

  lemma {:induction false} FlagsDecode(bits: seq<bool>, pos: nat, layers: seq<SubLayer>)
    requires Has(bits, pos, FlagPairs(layers))
    ensures pos <= |bits| && ParseFlags(bits, pos, |layers|).1 == pos + |FlagPairs(layers)|
    ensures forall i :: 0 <= i < |layers| ==>
              ParseFlags(bits, pos, |layers|).0[i] == (layers[i].profile.Some?, layers[i].level.Some?)
    decreases |layers|
  {
    hide Has, ReadBit;
    if layers == [] {
      SkipDecodes(bits, pos, []);
    } else {
      var profile, level := Flag(layers[0].profile.Some?), Flag(layers[0].level.Some?);
      HasConcat(bits, pos, profile + level, FlagPairs(layers[1..]));
      HasConcat(bits, pos, profile, level);
      FlagDecodes(bits, pos, layers[0].profile.Some?);
      FlagDecodes(bits, pos + 1, layers[0].level.Some?);
      FlagsDecode(bits, pos + 2, layers[1..]);
    }
  }

  lemma {:induction false} LayersDecode(bits: seq<bool>, pos: nat, layers: seq<SubLayer>, flags: seq<(bool, bool)>)
    requires Has(bits, pos, LayerData(layers)) && |flags| == |layers|
    requires forall i :: 0 <= i < |layers| ==> SubLayerOk(layers[i]) && flags[i] == (layers[i].profile.Some?, layers[i].level.Some?)
    ensures pos <= |bits| && ParseLayers(bits, pos, flags) == pos + |LayerData(layers)|
    decreases |layers|
  {
    hide Has, SkipBits;
    if layers == [] {
      SkipDecodes(bits, pos, []);
    } else {
      var profile, level := OptionalBits(layers[0].profile), OptionalBits(layers[0].level);
      HasConcat(bits, pos, profile + level, LayerData(layers[1..]));
      HasConcat(bits, pos, profile, level);
      SkipDecodes(bits, pos, profile);
      SkipDecodes(bits, pos + |profile|, level);
      LayersDecode(bits, pos + |profile| + |level|, layers[1..], flags[1..]);
    }
  }

  /** profile_tier_level() is passed over whole, whatever its sub-layers carry. */
  lemma {:induction false} ProfileTierLevelDecodes(bits: seq<bool>, pos: nat, h: HevcHeader)
    requires HeaderOk(h) && Has(bits, pos, ProfileTierLevelBits(h))
    ensures pos <= |bits| && ParseProfileTierLevel(bits, pos, |h.subLayers|) == pos + |ProfileTierLevelBits(h)|
  {
    hide Has, SkipBits, FlagPairs, LayerData, ParseFlags, ParseLayers;
    var data := LayerData(h.subLayers);
    var p1 := pos + GENERAL_SIZE;
    var p2 := p1 + |FlagPairs(h.subLayers)|;
    HasConcat(bits, pos, h.general, FlagPairs(h.subLayers) + (h.reserved + data));
    HasConcat(bits, p1, FlagPairs(h.subLayers), h.reserved + data);
    HasConcat(bits, p2, h.reserved, data);
    SkipDecodes(bits, pos, h.general);
    FlagsDecode(bits, p1, h.subLayers);
    SkipDecodes(bits, p2, h.reserved);
    LayersDecode(bits, p2 + |h.reserved|, h.subLayers, ParseFlags(bits, p1, |h.subLayers|).0);
  }

  lemma {:induction false} HevcSizeDecodes(bits: seq<bool>, pos: nat, h: HevcHeader, more: seq<bool>)
    requires HeaderOk(h)
    requires Has(bits, pos, Golomb(h.spsId) + (Golomb(h.chromaFormatIdc)
                            + ((if h.chromaFormatIdc == 3 then Flag(h.separateColourPlane) else []) + (Golomb(h.width) + (Golomb(h.height) + more)))))
    ensures pos <= |bits| && ParseHevcSize(bits, pos) == Some(Size(ToInt32(h.width), ToInt32(h.height)))
  {
    hide Has, Golomb, Ue, ToInt32, SubLayerOk;
    var e1 := Golomb(h.height) + more;
    var e2 := Golomb(h.width) + e1;
    var plane := if h.chromaFormatIdc == 3 then Flag(h.separateColourPlane) else [];
    var p1 := pos + |Golomb(h.spsId)|;
    var p2 := p1 + |Golomb(h.chromaFormatIdc)|;
    var p3 := p2 + |plane|;
    HasConcat(bits, pos, Golomb(h.spsId), Golomb(h.chromaFormatIdc) + (plane + e2));
    HasConcat(bits, p1, Golomb(h.chromaFormatIdc), plane + e2);
    HasConcat(bits, p2, plane, e2);
    HasConcat(bits, p3, Golomb(h.width), e1);
    HasConcat(bits, p3 + |Golomb(h.width)|, Golomb(h.height), more);
    UeDecodes(bits, pos, h.spsId);
    UeDecodes(bits, p1, h.chromaFormatIdc);
    SkipDecodes(bits, p2, plane);
    UeDecodes(bits, p3, h.width);
    UeDecodes(bits, p3 + |Golomb(h.width)|, h.height);
  }

  /** The size in luma samples is found behind every profile_tier_level(). */
  lemma {:induction false} HevcDecodes(bits: seq<bool>, h: HevcHeader)
    requires HeaderOk(h) && Has(bits, 0, HeaderBits(h))
    ensures ParseHevc(bits) == Some(Size(ToInt32(h.width), ToInt32(h.height)))
  {
    hide Has, Golomb, Ue, Digits, ReadBits, SkipBits, ToInt32, SubLayerOk, ParseProfileTierLevel, ParseHevcSize, ProfileTierLevelBits, WindowBits;
    var n := |h.subLayers|;
    var plane := if h.chromaFormatIdc == 3 then Flag(h.separateColourPlane) else [];
    var e1 := Golomb(h.spsId) + (Golomb(h.chromaFormatIdc) + (plane + (Golomb(h.width) + (Golomb(h.height) + WindowBits(h.window)))));
    var e2 := ProfileTierLevelBits(h) + e1;
    var e3 := Flag(h.nesting) + e2;
    HasConcat(bits, 0, h.nalHeader, h.vpsId + (Digits(n, 3) + e3));
    HasConcat(bits, 16, h.vpsId, Digits(n, 3) + e3);
    HasConcat(bits, 20, Digits(n, 3), e3);
    HasConcat(bits, 23, Flag(h.nesting), e2);
    HasConcat(bits, 24, ProfileTierLevelBits(h), e1);
    SkipDecodes(bits, 0, h.nalHeader);
    SkipDecodes(bits, 16, h.vpsId);
    CountDecodes(bits, 20, n);
    SkipDecodes(bits, 23, Flag(h.nesting));
    ProfileTierLevelDecodes(bits, 24, h);
    HevcSizeDecodes(bits, 24 + |ProfileTierLevelBits(h)|, h, WindowBits(h.window));
  }

  /** The round trip, whatever follows. */
  lemma {:induction false} ParsesWhatIsLaidOut(h: HevcHeader, more: seq<bool>)
    requires HeaderOk(h)
    ensures ParseHevc(HeaderBits(h) + more) == Some(Size(ToInt32(h.width), ToInt32(h.height)))
  {
    hide HeaderOk, HeaderBits, ParseHevc, ToInt32;
    HevcDecodes(HeaderBits(h) + more, h);
  }

  lemma {:induction false} CountDecodes(bits: seq<bool>, pos: nat, n: nat)
    requires n <= 7 && Has(bits, pos, Digits(n, 3))
    ensures ReadBits(bits, pos, 3).0 == n && ReadBits(bits, pos, 3).1 == pos + 3
  {
    Pow2Table();
    ReadExactly(bits, pos, Digits(n, 3));
    ValueDigits(n, 3);
  }

  /** The reported size is that of the picture shown exactly when the conformance window cuts nothing off. */
  lemma {:induction false} ShownSizeIff(bits: seq<bool>, h: HevcHeader)
    requires HeaderOk(h) && Has(bits, 0, HeaderBits(h)) && h.width < 0x8000_0000 && h.height < 0x8000_0000
    ensures ParseHevc(bits).Some?
    ensures ParseHevc(bits).value == Size(ShownWidth(h), ShownHeight(h)) <==> h.window.Whole? || h.window == Cut(0, 0, 0, 0)
  {
    hide HeaderOk, HeaderBits, ParseHevc, ToInt32, Has;
    HevcDecodes(bits, h);
    SmallInt32(h.width);
    SmallInt32(h.height);
    if h.window.Cut? {
      ScaledZero(SubWidthC(ArrayType(h)), h.window.left + h.window.right);
      ScaledZero(SubHeightC(ArrayType(h)), h.window.top + h.window.bottom);
    }
  }

  // ---------- The imperative parser ----------

  /** ProfileTierLevel */
  method ProfileTierLevel(bv: BitVector, maxSubLayersMinus1: nat)
    requires bv.Valid() && maxSubLayersMinus1 <= 7
    modifies bv`curBitIndex
    ensures bv.Valid()
    ensures bv.curBitIndex == ParseProfileTierLevel(bv.Contents(), old(bv.curBitIndex), maxSubLayersMinus1)
  {
    hide BitVector.Contents;
    bv.SkipBits(96);
    var subLayerProfilePresentFlag, subLayerLevelPresentFlag := new bool[7], new bool[7];
    ReadFlags(bv, maxSubLayersMinus1, subLayerProfilePresentFlag, subLayerLevelPresentFlag);
    ghost var flags := Paired(subLayerProfilePresentFlag[..], subLayerLevelPresentFlag[..], maxSubLayersMinus1);
    if maxSubLayersMinus1 > 0 {
      bv.SkipBits(2 * (8 - maxSubLayersMinus1));
    }
    ghost var p := bv.curBitIndex;
    for i := 0 to maxSubLayersMinus1
      invariant bv.Valid() && bv.Contents() == old(bv.Contents())
      invariant Paired(subLayerProfilePresentFlag[..], subLayerLevelPresentFlag[..], maxSubLayersMinus1) == flags
      invariant ParseLayers(bv.Contents(), bv.curBitIndex, flags[i..]) == ParseLayers(bv.Contents(), p, flags)
    {
      if subLayerProfilePresentFlag[i] {
        bv.SkipBits(88);
      }
      if subLayerLevelPresentFlag[i] {
        bv.SkipBits(8);
      }
      assert flags[i..][1..] == flags[i + 1..];
    }
  }

  /** The flags of the first `n` sub-layers. */
  ghost function Paired(profiles: seq<bool>, levels: seq<bool>, n: nat): seq<(bool, bool)>
    requires n <= |profiles| && n <= |levels|
  {
    seq(n, i requires 0 <= i < n => (profiles[i], levels[i]))
  }

  /** The first loop of ProfileTierLevel. */
  method ReadFlags(bv: BitVector, n: nat, profiles: array<bool>, levels: array<bool>)
    requires bv.Valid() && n <= profiles.Length && n <= levels.Length && profiles != levels
    requires profiles as object != bv.base as object && levels as object != bv.base as object
    modifies bv`curBitIndex, profiles, levels
    ensures bv.Valid()
    ensures (Paired(profiles[..], levels[..], n), bv.curBitIndex) == ParseFlags(old(bv.Contents()), old(bv.curBitIndex), n)
    ensures bv.Contents() == old(bv.Contents())
  {
    hide BitVector.Contents, ReadBit;
    ghost var bits := bv.Contents();
    ghost var whole := ParseFlags(bits, bv.curBitIndex, n);
    for i := 0 to n
      invariant bv.Valid() && bv.Contents() == bits
      invariant forall k :: 0 <= k < i ==> (profiles[k], levels[k]) == whole.0[k]
      invariant ParseFlags(bits, bv.curBitIndex, n - i) == (whole.0[i..], whole.1)
    {
      profiles[i] := bv.Get1BitBoolean();
      levels[i] := bv.Get1BitBoolean();
      assert whole.0[i..][0] == (profiles[i], levels[i]) && whole.0[i..][1..] == whole.0[i + 1..];
    }
    assert Paired(profiles[..], levels[..], n) == whole.0;
  }

  /** The HEVC branch, from the first bit of the NAL unit to the size it reports. */
  method ReadHevcSize(bv: BitVector) returns (width: int, height: int)
    requires bv.Valid() && bv.curBitIndex == 0 && ParseHevc(bv.Contents()).Some?
    modifies bv`curBitIndex
    ensures bv.Valid()
    ensures ParseHevc(bv.Contents()) == Some(Size(width, height))
  {
    hide BitVector.Contents, Ue, ToInt32, ParseProfileTierLevel, ReadBits;
    bv.SkipBits(16);
    bv.SkipBits(4);
    ThreeBits(bv.Contents(), bv.curBitIndex);
    var maxSubLayersMinus1 := bv.GetBits(3);
    bv.SkipBits(1);
    ProfileTierLevel(bv, maxSubLayersMinus1);
    var seqParameterSetId := ReadUe(bv);
    var chromaFormatIdc := ReadUe(bv);
    if chromaFormatIdc == 3 {
      bv.SkipBits(1);
    }
    var picWidthInLumaSamples := ReadUe(bv);
    var picHeightInLumaSamples := ReadUe(bv);
    width, height := ToInt32(picWidthInLumaSamples), ToInt32(picHeightInLumaSamples);
  }
}
