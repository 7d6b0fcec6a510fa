/** The AVC branch of ParseSequenceParameterSet: a parser over the RBSP bits, and the picture size it reports. */
module SpsParser {
  import opened Bits
  import opened BitReading
  import opened BitVectors
  import opened Options
  import opened SpsSyntax

  /** The profiles for which the parser reads the chroma fields. */
  const PARSED_PROFILES: set<nat> := {100, 110, 122, 244, 44, 83, 86, 118, 128}

  datatype Field = Field(value: int, pos: nat)

  /** An unsigned Exp-Golomb element; None where the reader's behaviour is undefined. */
  function Ue(bits: seq<bool>, pos: nat): (r: Option<Field>)
    requires pos <= |bits|
    ensures r.Some? ==> r.value.pos <= |bits| && 0 <= r.value.value < U32_MODULUS
  {
    if GolombDefined(bits, pos) then Some(Field(ReadGolomb(bits, pos).0, ReadGolomb(bits, pos).1)) else None
  }

  function Se(bits: seq<bool>, pos: nat): (r: Option<Field>)
    requires pos <= |bits|
    ensures r.Some? ==> r.value.pos <= |bits|
  {
    var u :- Ue(bits, pos);
    Some(Field(SignedFromCode(u.value), u.pos))
  }

  /** The scale arithmetic is done on unsigned 32-bit numbers. */
  function ParsedNextScale(last: nat, delta: int): nat {
    ((last + delta + 256) % U32_MODULUS) % 256
  }

  function ParseScalingList(bits: seq<bool>, pos: nat, j: nat, size: nat, last: nat, next: nat): (r: Option<nat>)
    requires pos <= |bits| && j <= size
    ensures r.Some? ==> r.value <= |bits|
    decreases size - j
  {
    if j == size then Some(pos)
    else if next != 0 then
      var d :- Se(bits, pos);
      var n := ParsedNextScale(last, d.value);
      ParseScalingList(bits, d.pos, j + 1, size, if n == 0 then last else n, n)
    else ParseScalingList(bits, pos, j + 1, size, last, next)
  }

  function ParseScalingLists(bits: seq<bool>, pos: nat, i: nat, n: nat): (r: Option<nat>)
    requires pos <= |bits| && i <= n
    ensures r.Some? ==> r.value <= |bits|
    decreases n - i
  {
    if i == n then Some(pos)
    else
      var (present, p) := ReadBit(bits, pos);
      var p' :- if present then ParseScalingList(bits, p, 0, if i < 6 then 16 else 64, 8, 8) else Some(p);
      ParseScalingLists(bits, p', i + 1, n)
  }

  /** The elements only some profiles carry: the chroma format and the position after them. */
  function ParseChroma(bits: seq<bool>, pos: nat): (r: Option<Field>)
    requires pos <= |bits|
    ensures r.Some? ==> r.value.pos <= |bits|
  {
    var c :- Ue(bits, pos);
    var p := if c.value == 3 then ReadBit(bits, c.pos).1 else c.pos;
    var luma :- Ue(bits, p);
    var chroma :- Ue(bits, luma.pos);
    var (present, p') := ReadBit(bits, SkipBits(bits, chroma.pos, 1));
    var end :- if present then ParseScalingLists(bits, p', 0, if c.value != 3 then 8 else 12) else Some(p');
    Some(Field(c.value, end))
  }

  function ParseOffsets(bits: seq<bool>, pos: nat, i: nat, n: nat): (r: Option<nat>)
    requires pos <= |bits| && i <= n
    ensures r.Some? ==> r.value <= |bits|
    decreases n - i
  {
    if i == n then Some(pos)
    else
      var d :- Se(bits, pos);
      ParseOffsets(bits, d.pos, i + 1, n)
  }

  function ParsePicOrderCount(bits: seq<bool>, pos: nat): (r: Option<nat>)
    requires pos <= |bits|
    ensures r.Some? ==> r.value <= |bits|
  {
    var t :- Ue(bits, pos);
    if t.value == 0 then
      var lsb :- Ue(bits, t.pos);
      Some(lsb.pos)
    else if t.value == 1 then
      var a :- Se(bits, SkipBits(bits, t.pos, 1));
      var b :- Se(bits, a.pos);
      var n :- Ue(bits, b.pos);
      ParseOffsets(bits, n.pos, 0, n.value)
    else
      Some(t.pos)
  }

  datatype Size = Size(width: int, height: int)

  /** Assignment of an unsigned 32-bit result to a signed 32-bit variable. */
  function ToInt32(x: int): int {
    var u := x % U32_MODULUS;
    if u < 0x8000_0000 then u else u - U32_MODULUS
  }

  function ParsedCropUnitX(chroma: nat): nat {
    match chroma
    case 0 => 1
    case 1 => 2
    case 2 => 2
    case 3 => 1
    case _ => 0
  }

  function ParsedCropUnitY(chroma: nat, frameMbsOnly: bool): nat {
    match chroma
    case 0 => 2 - Digit(frameMbsOnly)
    case 1 => 2 * (2 - Digit(frameMbsOnly))
    case 2 => 2 - Digit(frameMbsOnly)
    case 3 => 2 - Digit(frameMbsOnly)
    case _ => 0
  }

  function ParseSize(bits: seq<bool>, pos: nat, chroma: nat): (r: Option<Size>)
    requires pos <= |bits|
  {
    var refs :- Ue(bits, pos);
    var w :- Ue(bits, ReadBit(bits, refs.pos).1);
    var h :- Ue(bits, w.pos);
    var (frameMbsOnly, p) := ReadBit(bits, h.pos);
    var p' := if frameMbsOnly then p else SkipBits(bits, p, 1);
    var (cropped, p'') := ReadBit(bits, SkipBits(bits, p', 1));
    if cropped then
      var left :- Ue(bits, p'');
      var right :- Ue(bits, left.pos);
      var top :- Ue(bits, right.pos);
      var bottom :- Ue(bits, top.pos);
      Some(Size(ToInt32((w.value + 1) * 16 - ParsedCropUnitX(chroma) * right.value),
                ToInt32((h.value + 1) * 16 - ParsedCropUnitY(chroma, frameMbsOnly) * bottom.value)))
    else
      Some(Size(ToInt32((w.value + 1) * 16), ToInt32((h.value + 1) * 16)))
  }

  function ParseSps(bits: seq<bool>): Option<Size> {
    var (profile, p) := ReadBits(bits, SkipBits(bits, 0, 8), 8);
    var (constraints, p') := ReadBits(bits, p, 8);
    var (level, p'') := ReadBits(bits, p', 8);
    var id :- Ue(bits, p'');
    var chroma :- if profile in PARSED_PROFILES then ParseChroma(bits, id.pos) else Some(Field(1, id.pos));
    var frameNum :- Ue(bits, chroma.pos);
    var poc :- ParsePicOrderCount(bits, frameNum.pos);
    ParseSize(bits, poc, chroma.value)
  }

  // ---------- The imperative parser ----------

  method ReadUe(bv: BitVector) returns (v: nat)
    requires bv.Valid() && Ue(bv.Contents(), bv.curBitIndex).Some?
    modifies bv`curBitIndex
    ensures bv.Valid()
    ensures Ue(bv.Contents(), old(bv.curBitIndex)) == Some(Field(v, bv.curBitIndex))
  {
    v := bv.GetExpGolomb();
  }

  method ReadSe(bv: BitVector) returns (v: int)
    requires bv.Valid() && Se(bv.Contents(), bv.curBitIndex).Some?
    modifies bv`curBitIndex
    ensures bv.Valid()
    ensures Se(bv.Contents(), old(bv.curBitIndex)) == Some(Field(v, bv.curBitIndex))
  {
    v := bv.GetExpGolombSigned();
  }

  method SkipScalingList(bv: BitVector, sizeOfScalingList: nat)
    requires bv.Valid() && ParseScalingList(bv.Contents(), bv.curBitIndex, 0, sizeOfScalingList, 8, 8).Some?
    modifies bv`curBitIndex
    ensures bv.Valid()
    ensures ParseScalingList(bv.Contents(), old(bv.curBitIndex), 0, sizeOfScalingList, 8, 8) == Some(bv.curBitIndex)
  {
    hide Ue, Se, ParsedNextScale, BitVector.Contents;
    var lastScale, nextScale := 8, 8;
    ghost var whole := ParseScalingList(bv.Contents(), bv.curBitIndex, 0, sizeOfScalingList, 8, 8);
    for j := 0 to sizeOfScalingList
      invariant bv.Valid()
      invariant ParseScalingList(bv.Contents(), bv.curBitIndex, j, sizeOfScalingList, lastScale, nextScale) == whole
    {
      if nextScale != 0 {
        var deltaScale := ReadSe(bv);
        nextScale := ParsedNextScale(lastScale, deltaScale);
      }
      lastScale := if nextScale == 0 then lastScale else nextScale;
    }
  }

  method SkipScalingMatrix(bv: BitVector, numLists: nat)
    requires bv.Valid() && ParseScalingLists(bv.Contents(), bv.curBitIndex, 0, numLists).Some?
    modifies bv`curBitIndex
    ensures bv.Valid()
    ensures ParseScalingLists(bv.Contents(), old(bv.curBitIndex), 0, numLists) == Some(bv.curBitIndex)
  {
    ghost var whole := ParseScalingLists(bv.Contents(), bv.curBitIndex, 0, numLists);
    for i := 0 to numLists
      invariant bv.Valid()
      invariant ParseScalingLists(bv.Contents(), bv.curBitIndex, i, numLists) == whole
    {
      var present := bv.Get1BitBoolean();
      if present {
        SkipScalingList(bv, if i < 6 then 16 else 64);
      }
    }
  }

  method ReadChroma(bv: BitVector) returns (chromaFormatIdc: nat)
    requires bv.Valid() && ParseChroma(bv.Contents(), bv.curBitIndex).Some?
    modifies bv`curBitIndex
    ensures bv.Valid()
    ensures ParseChroma(bv.Contents(), old(bv.curBitIndex)) == Some(Field(chromaFormatIdc, bv.curBitIndex))
  {
    chromaFormatIdc := ReadUe(bv);
    if chromaFormatIdc == 3 {
      var separateColourPlaneFlag := bv.Get1BitBoolean();
    }
    var bitDepthLumaMinus8 := ReadUe(bv);
    var bitDepthChromaMinus8 := ReadUe(bv);
    bv.SkipBits(1);
    var seqScalingMatrixPresentFlag := bv.Get1BitBoolean();
    if seqScalingMatrixPresentFlag {
      SkipScalingMatrix(bv, if chromaFormatIdc != 3 then 8 else 12);
    }
  }

  method SkipPicOrderCount(bv: BitVector)
    requires bv.Valid() && ParsePicOrderCount(bv.Contents(), bv.curBitIndex).Some?
    modifies bv`curBitIndex
    ensures bv.Valid()
    ensures ParsePicOrderCount(bv.Contents(), old(bv.curBitIndex)) == Some(bv.curBitIndex)
  {
    ghost var whole := ParsePicOrderCount(bv.Contents(), bv.curBitIndex);
    var picOrderCntType := ReadUe(bv);
    if picOrderCntType == 0 {
      var log2MaxPicOrderCntLsbMinus4 := ReadUe(bv);
    } else if picOrderCntType == 1 {
      bv.SkipBits(1);
      var offsetForNonRefPic := ReadSe(bv);
      var offsetForTopToBottomField := ReadSe(bv);
      var numRefFramesInCycle := ReadUe(bv);
      for i := 0 to numRefFramesInCycle
        invariant bv.Valid()
        invariant ParseOffsets(bv.Contents(), bv.curBitIndex, i, numRefFramesInCycle) == whole
      {
        var offsetForRefFrame := ReadSe(bv);
      }
    }
  }

  method ReadSize(bv: BitVector, chromaFormatIdc: nat) returns (width: int, height: int)
    requires bv.Valid() && ParseSize(bv.Contents(), bv.curBitIndex, chromaFormatIdc).Some?
    modifies bv`curBitIndex
    ensures bv.Valid()
    ensures ParseSize(bv.Contents(), old(bv.curBitIndex), chromaFormatIdc) == Some(Size(width, height))
  {
    hide Ue, ToInt32, ParsedCropUnitX, ParsedCropUnitY, BitVector.Contents;
    var maxNumRefFrames := ReadUe(bv);
    var gapsAllowed := bv.Get1BitBoolean();
    var picWidthInMbsMinus1 := ReadUe(bv);
    var picHeightInMapUnitsMinus1 := ReadUe(bv);
    var frameMbsOnlyFlag := bv.Get1BitBoolean();
    if !frameMbsOnlyFlag {
      bv.SkipBits(1);
    }
    bv.SkipBits(1);
    var frameCroppingFlag := bv.Get1BitBoolean();
    if frameCroppingFlag {
      var left := ReadUe(bv);
      var right := ReadUe(bv);
      var top := ReadUe(bv);
      var bottom := ReadUe(bv);
      width := ToInt32((picWidthInMbsMinus1 + 1) * 16 - ParsedCropUnitX(chromaFormatIdc) * right);
      height := ToInt32((picHeightInMapUnitsMinus1 + 1) * 16 - ParsedCropUnitY(chromaFormatIdc, frameMbsOnlyFlag) * bottom);
    } else {
      width := ToInt32((picWidthInMbsMinus1 + 1) * 16);
      height := ToInt32((picHeightInMapUnitsMinus1 + 1) * 16);
    }
    var vuiParametersPresentFlag := bv.Get1BitBoolean();
  }

  /** The AVC branch, from the first bit of the NAL unit. */
  method ParseSequenceParameterSet(bv: BitVector) returns (width: int, height: int)
    requires bv.Valid() && bv.curBitIndex == 0
    requires ParseSps(bv.Contents()).Some?
    modifies bv`curBitIndex
    ensures bv.Valid()
    ensures ParseSps(bv.Contents()) == Some(Size(width, height))
  {
    bv.SkipBits(8);
    var profileIdc := bv.GetBits(8);
    var constraintSetNFlag := bv.GetBits(8);
    var levelIdc := bv.GetBits(8);
    var seqParameterSetId := ReadUe(bv);
    var chromaFormatIdc := 1;
    if profileIdc in PARSED_PROFILES {
      chromaFormatIdc := ReadChroma(bv);
    }
    var log2MaxFrameNumMinus4 := ReadUe(bv);
    SkipPicOrderCount(bv);
    width, height := ReadSize(bv, chromaFormatIdc);
  }
}
