/** The AVC sequence parameter set as section 7.3.2.1.1 of ITU-T H.264 lays it out, and the picture
    size the standard derives from it. */
module SpsSyntax {
  import opened Bits
  import opened BitReading
  import opened Options

  /** One scaling list: the delta_scale values present in the stream. */
  datatype ScalingList = Absent | Present(deltas: seq<int>)

  datatype ChromaInfo = ChromaInfo(
    chromaFormatIdc: nat, separateColourPlane: bool, bitDepthLumaMinus8: nat, bitDepthChromaMinus8: nat,
    transformBypass: bool, scaling: Option<seq<ScalingList>>)

  datatype PicOrderCount =
    | Lsb(log2MaxLsbMinus4: nat)
    | Cycle(deltaAlwaysZero: bool, offsetForNonRef: int, offsetTopToBottom: int, offsetsForRef: seq<int>)
    | DisplayOrder

  datatype Cropping = Uncropped | Cropped(left: nat, right: nat, top: nat, bottom: nat)

  datatype Sps = Sps(
    nalHeader: nat, profileIdc: nat, constraintFlags: nat, levelIdc: nat, spsId: nat, chroma: ChromaInfo,
    log2MaxFrameNumMinus4: nat, poc: PicOrderCount, maxNumRefFrames: nat, gapsAllowed: bool,
    widthInMbsMinus1: nat, heightInMapUnitsMinus1: nat, frameMbsOnly: bool, mbAdaptive: bool, direct8x8: bool,
    cropping: Cropping)

  function Flag(b: bool): seq<bool> {
    [b]
  }

  /** nextScale after one delta_scale. */
  function NextScale(last: int, delta: int): nat {
    (last + delta + 256) % 256
  }

  /** The deltas are exactly those that scaling_list() reads from step `j` on. */
  predicate ScalingListOk(deltas: seq<int>, j: nat, size: nat, last: nat, next: nat)
    requires j <= size
    decreases size - j
  {
    if j == size then deltas == []
    else if next != 0 then
      && deltas != []
      && -128 <= deltas[0] <= 127
      && var n := NextScale(last, deltas[0]);
         ScalingListOk(deltas[1..], j + 1, size, if n == 0 then last else n, n)
    else ScalingListOk(deltas, j + 1, size, last, 0)
  }

  function SignedCodes(values: seq<int>): seq<bool> {
    if values == [] then [] else Golomb(SignedCode(values[0])) + SignedCodes(values[1..])
  }

  function ListSize(i: nat): nat {
    if i < 6 then 16 else 64
  }

  predicate ScalingListsOk(lists: seq<ScalingList>, i: nat) {
    lists == []
    || (&& (lists[0].Present? ==> ScalingListOk(lists[0].deltas, 0, ListSize(i), 8, 8))
        && ScalingListsOk(lists[1..], i + 1))
  }

  function ScalingListBits(list: ScalingList): seq<bool> {
    match list
    case Absent => Flag(false)
    case Present(deltas) => Flag(true) + SignedCodes(deltas)
  }

  function ScalingListsBits(lists: seq<ScalingList>): seq<bool> {
    if lists == [] then [] else ScalingListBits(lists[0]) + ScalingListsBits(lists[1..])
  }

  predicate Codable(v: nat) {
    v + 1 < U32_MODULUS
  }

  predicate SignedCodable(v: int) {
    SignedCode(v) + 1 < U32_MODULUS
  }

  function NumLists(chromaFormatIdc: nat): nat {
    if chromaFormatIdc != 3 then 8 else 12
  }

  predicate ChromaOk(c: ChromaInfo) {
    && c.chromaFormatIdc <= 3 && Codable(c.bitDepthLumaMinus8) && Codable(c.bitDepthChromaMinus8)
    && (c.scaling.Some? ==> |c.scaling.value| == NumLists(c.chromaFormatIdc) && ScalingListsOk(c.scaling.value, 0))
  }

  function ScalingMatrixBits(scaling: Option<seq<ScalingList>>): seq<bool> {
    match scaling
    case None => Flag(false)
    case Some(lists) => Flag(true) + ScalingListsBits(lists)
  }

  function ChromaBits(c: ChromaInfo): seq<bool> {
    Golomb(c.chromaFormatIdc)
    + ((if c.chromaFormatIdc == 3 then Flag(c.separateColourPlane) else [])
       + (Golomb(c.bitDepthLumaMinus8)
          + (Golomb(c.bitDepthChromaMinus8)
             + (Flag(c.transformBypass)
                + ScalingMatrixBits(c.scaling)))))
  }

  predicate PocOk(p: PicOrderCount) {
    match p
    case Lsb(n) => Codable(n)
    case Cycle(_, a, b, offsets) =>
      && SignedCodable(a) && SignedCodable(b) && Codable(|offsets|)
      && forall i :: 0 <= i < |offsets| ==> SignedCodable(offsets[i])
    case DisplayOrder => true
  }

  function PocBits(p: PicOrderCount): seq<bool> {
    match p
    case Lsb(n) => Golomb(0) + Golomb(n)
    case Cycle(zero, a, b, offsets) =>
      Golomb(1)
      + (Flag(zero) + (Golomb(SignedCode(a)) + (Golomb(SignedCode(b)) + (Golomb(|offsets|) + SignedCodes(offsets)))))
    case DisplayOrder => Golomb(2)
  }

  function CroppingBits(c: Cropping): seq<bool> {
    match c
    case Uncropped => Flag(false)
    case Cropped(l, r, t, b) => Flag(true) + (Golomb(l) + (Golomb(r) + (Golomb(t) + Golomb(b))))
  }

  /** From max_num_ref_frames to the cropping offsets. */
  function SizeBits(s: Sps): seq<bool> {
    Golomb(s.maxNumRefFrames)
    + (Flag(s.gapsAllowed)
       + (Golomb(s.widthInMbsMinus1)
          + (Golomb(s.heightInMapUnitsMinus1)
             + (Flag(s.frameMbsOnly)
                + ((if s.frameMbsOnly then [] else Flag(s.mbAdaptive))
                   + (Flag(s.direct8x8)
                      + CroppingBits(s.cropping)))))))
  }

  /** The profiles whose parameter sets carry the chroma fields, of those the parser is made for. */
  predicate High(s: Sps) {
    var p := s.profileIdc;
    p == 100 || p == 110 || p == 122 || p == 244 || p == 44 || p == 83 || p == 86 || p == 118 || p == 128
  }

  predicate CroppingOk(c: Cropping) {
    c.Cropped? ==> Codable(c.left) && Codable(c.right) && Codable(c.top) && Codable(c.bottom)
  }

  predicate SpsOk(s: Sps) {
    && s.nalHeader < 256 && s.profileIdc < 256 && s.constraintFlags < 256 && s.levelIdc < 256
    && Codable(s.spsId) && Codable(s.log2MaxFrameNumMinus4) && Codable(s.maxNumRefFrames)
    && Codable(s.widthInMbsMinus1) && Codable(s.heightInMapUnitsMinus1)
    && (High(s) ==> ChromaOk(s.chroma))
    && PocOk(s.poc) && CroppingOk(s.cropping)
  }

  function SpsBits(s: Sps): seq<bool> {
    Digits(s.nalHeader, 8)
    + (Digits(s.profileIdc, 8)
       + (Digits(s.constraintFlags, 8)
          + (Digits(s.levelIdc, 8)
             + (Golomb(s.spsId)
                + ((if High(s) then ChromaBits(s.chroma) else [])
                   + (Golomb(s.log2MaxFrameNumMinus4)
                      + (PocBits(s.poc)
                         + SizeBits(s))))))))
  }

  // ---------- What the standard derives (section 7.4.2.1.1) ----------

  function ChromaFormat(s: Sps): nat {
    if High(s) then s.chroma.chromaFormatIdc else 1
  }

  function ChromaArrayType(s: Sps): nat {
    if High(s) && s.chroma.chromaFormatIdc == 3 && s.chroma.separateColourPlane then 0 else ChromaFormat(s)
  }

  function SubWidthC(chroma: nat): nat {
    if chroma == 1 || chroma == 2 then 2 else 1
  }

  function SubHeightC(chroma: nat): nat {
    if chroma == 1 then 2 else 1
  }

  function FieldFactor(s: Sps): nat {
    if s.frameMbsOnly then 1 else 2
  }

  function CropUnitX(s: Sps): nat {
    if ChromaArrayType(s) == 0 then 1 else SubWidthC(ChromaArrayType(s))
  }

  function CropUnitY(s: Sps): nat {
    if ChromaArrayType(s) == 0 then FieldFactor(s) else SubHeightC(ChromaArrayType(s)) * FieldFactor(s)
  }

  function PictureWidth(s: Sps): int {
    var coded := 16 * (s.widthInMbsMinus1 + 1);
    match s.cropping
    case Uncropped => coded
    case Cropped(l, r, _, _) => coded - CropUnitX(s) * (l + r)
  }

  function PictureHeight(s: Sps): int {
    var coded := 16 * FieldFactor(s) * (s.heightInMapUnitsMinus1 + 1);
    match s.cropping
    case Uncropped => coded
    case Cropped(_, _, t, b) => coded - CropUnitY(s) * (t + b)
  }
}
