/** The bit cursor over a byte buffer, and the general bit copy. */
module BitVectors {
  import opened Bits
  import opened BitReading
  import opened Slices

  /** `a` with the elements from `t` on replaced by `x`. */
  function Splice(a: seq<bool>, t: nat, x: seq<bool>): (r: seq<bool>)
    requires t + |x| <= |a|
    ensures |r| == |a|
  {
    a[..t] + x + a[t + |x|..]
  }

  /** The bytes `after` are `before` with some of its bits replaced. */
  ghost predicate Spliced(before: seq<bv8>, after: seq<bv8>, t: nat, x: seq<bool>)
    requires t + |x| <= 8 * |before|
  {
    |after| == |before| && BitsOf(after) == Splice(BitsOf(before), t, x)
  }

  /** One step of the copy, on the bytes and on the bits they hold. */
  lemma {:induction false} CopyOneBit(before: seq<bv8>, after: seq<bv8>, n: nat, i: nat,
                                      a: seq<bool>, t: nat, s: seq<bool>, f: nat, k: nat, bit: bool)
    requires n < |before| && i < 8 && t + k == 8 * n + i
    requires t + k < |a| && f + k < |s| && bit == s[f + k]
    requires BitsOf(before) == Splice(a, t, s[f..f + k])
    requires after == before[n := MaskBit(before[n], i, bit)]
    ensures BitsOf(after) == Splice(a, t, s[f..f + (k + 1)])
  {
    StoreBit(before, n, i, t + k, bit);
    assert Splice(a, t, s[f..f + k])[t + k := bit] == Splice(a, t, s[f..f + (k + 1)]);
  }

  lemma {:induction false} EmptySplice(a: seq<bool>, t: nat)
    requires t <= |a|
    ensures Splice(a, t, []) == a
  {
  }

  /** A forward copy within one string has not touched the bits it still has to read. */
  lemma {:induction false} NotYetOverwritten(a: seq<bool>, t: nat, s: seq<bool>, f: nat, k: nat)
    requires t + k < |a| && f + k < |s|
    ensures a == s && t <= f ==> Splice(a, t, s[f..f + k])[f + k] == s[f + k]
  {
  }

  /** Copies bits one at a time. The two ranges may share a buffer when the source is not before the target. */
  method ShiftBits(to: array<bv8>, toBitOffset: nat, from: array<bv8>, fromBitOffset: nat, numBits: nat)
    requires toBitOffset + numBits <= 8 * to.Length
    requires fromBitOffset + numBits <= 8 * from.Length
    requires to == from ==> fromBitOffset >= toBitOffset
    modifies to
    ensures Spliced(old(to[..]), to[..], toBitOffset, old(BitsOf(from[..]))[fromBitOffset..fromBitOffset + numBits])
  {
    hide BitsOf, Splice;
    assert old(BitsOf(from[..]))[fromBitOffset..fromBitOffset + 0] == [];
    EmptySplice(BitsOf(to[..]), toBitOffset);
    var fromByte, fromBitRem := fromBitOffset / 8, fromBitOffset % 8;
    var toByte, toBitRem := toBitOffset / 8, toBitOffset % 8;
    ghost var source, target := BitsOf(from[..]), BitsOf(to[..]);
    for k := 0 to numBits
      invariant 0 <= fromBitRem < 8 && 8 * fromByte + fromBitRem == fromBitOffset + k
      invariant 0 <= toBitRem < 8 && 8 * toByte + toBitRem == toBitOffset + k
      invariant if from == to then source == target else BitsOf(from[..]) == source
      invariant BitsOf(to[..]) == Splice(target, toBitOffset, source[fromBitOffset..fromBitOffset + k])
    {
      var fromBit := from[fromByte] & SingleBitMask(fromBitRem);
      ghost var before, bit := to[..], source[fromBitOffset + k];
      BitOfByte(from[..], fromByte, fromBitRem, fromBitOffset + k);
      NotYetOverwritten(target, toBitOffset, source, fromBitOffset, k);
      assert bit == (fromBit != 0);
      if fromBit != 0 {
        to[toByte] := to[toByte] | SingleBitMask(toBitRem);
      } else {
        to[toByte] := to[toByte] & !SingleBitMask(toBitRem);
      }
      CopyOneBit(before, to[..], toByte, toBitRem, target, toBitOffset, source, fromBitOffset, k, bit);
      fromBitRem := fromBitRem + 1;
      if fromBitRem == 8 { fromByte, fromBitRem := fromByte + 1, 0; }
      toBitRem := toBitRem + 1;
      if toBitRem == 8 { toByte, toBitRem := toByte + 1, 0; }
    }
  }

  function Window(s: seq<bv8>, offset: nat, n: nat): (bits: seq<bool>)
    requires offset + n <= 8 * |s|
    ensures |bits| == n
  {
    BitsOf(s)[offset..offset + n]
  }

  lemma {:induction false} SpliceInside(a: seq<bool>, offset: nat, total: nat, pos: nat, x: seq<bool>)
    requires offset + total <= |a| && pos + |x| <= total
    ensures Splice(a, offset, a[offset..offset + pos] + x + a[offset + (pos + |x|)..offset + total]) == Splice(a, offset + pos, x)
  {
  }

  /** Splicing digits in at the cursor is writing to the window. */
  lemma {:induction false} SpliceWindow(before: seq<bv8>, after: seq<bv8>, offset: nat, total: nat, pos: nat,
                                        v: nat, numBits: nat, n: nat, m: nat, x: seq<bool>)
    requires offset + total <= 8 * |before| && pos <= total
    requires n == Min(numBits, MAX_LENGTH) && m == Min(n, total - pos)
    requires x == Digits(v, n)[..m]
    requires Spliced(before, after, offset + pos, x)
    ensures Spliced(before, after, offset, WriteBits(Window(before, offset, total), pos, v, numBits))
    ensures Available(Window(before, offset, total), pos, numBits) == m
  {
    var a, w := BitsOf(before), Window(before, offset, total);
    assert Available(w, pos, numBits) == m;
    SliceOfSlice(a, offset, offset + total, 0, pos);
    SliceOfSlice(a, offset, offset + total, pos + m, total);
    SpliceInside(a, offset, total, pos, x);
  }

  lemma {:induction false} SpliceNothing(s: seq<bv8>, offset: nat, total: nat, pos: nat, v: nat, numBits: nat)
    requires offset + total <= 8 * |s| && pos <= total
    requires numBits == 0 || pos == total
    ensures Spliced(s, s, offset, WriteBits(Window(s, offset, total), pos, v, numBits))
    ensures Available(Window(s, offset, total), pos, numBits) == 0
  {
    assert WriteBits(Window(s, offset, total), pos, v, numBits) == Window(s, offset, total);
  }

  lemma {:induction false} StoreOneBit(before: seq<bv8>, after: seq<bv8>, n: nat, i: nat, j: nat, bit: bool)
    requires n < |before| && i < 8 && j == 8 * n + i
    requires after == before[n := MaskBit(before[n], i, bit)]
    ensures Spliced(before, after, j, [bit])
    ensures Digits(Digit(bit), 1)[..1] == [bit]
  {
    StoreBit(before, n, i, j, bit);
    assert BitsOf(before)[j := bit] == Splice(BitsOf(before), j, [bit]);
  }

  class BitVector {
    const base: array<bv8>
    const baseBitOffset: nat
    const totNumBits: nat
    var curBitIndex: nat

    ghost predicate Fits() {
      baseBitOffset + totNumBits <= 8 * base.Length && baseBitOffset + totNumBits < U32_MODULUS
    }

    ghost predicate Valid()
      reads this
    {
      Fits() && curBitIndex <= totNumBits
    }

    /** The bits under the cursor's window. */
    ghost function Contents(): (bits: seq<bool>)
      requires Fits()
      reads base
      ensures |bits| == totNumBits
    {
      Window(base[..], baseBitOffset, totNumBits)
    }

    constructor (base: array<bv8>, baseBitOffset: nat, totNumBits: nat)
      requires baseBitOffset + totNumBits <= 8 * base.Length
      requires baseBitOffset + totNumBits < U32_MODULUS
      ensures Valid() && curBitIndex == 0
      ensures this.base == base && this.baseBitOffset == baseBitOffset && this.totNumBits == totNumBits
    {
      this.base, this.baseBitOffset, this.totNumBits := base, baseBitOffset, totNumBits;
      curBitIndex := 0;
    }

    method PutBits(from: nat, numBits: nat)
      requires Valid()
      requires from < U32_MODULUS
      modifies this`curBitIndex, base
      ensures Valid() && curBitIndex == old(curBitIndex) + Available(old(Contents()), old(curBitIndex), numBits)
      ensures Spliced(old(base[..]), base[..], baseBitOffset, WriteBits(old(Contents()), old(curBitIndex), from, numBits))
    {
      hide BitsOf, Digits, FirstValue, Pow2, UnsignedByte, Splice, WriteBits, ReadBits, ShiftLeft, ShiftRight;
      if numBits == 0 {
        SpliceNothing(base[..], baseBitOffset, totNumBits, curBitIndex, from, 0);
        return;
      }
      var n := if numBits > MAX_LENGTH then MAX_LENGTH else numBits;
      var overflowingBits := if n > totNumBits - curBitIndex then n - (totNumBits - curBitIndex) else 0;
      var tmpBuf := new bv8[] [UnsignedByte(from, 0), UnsignedByte(from, 1), UnsignedByte(from, 2), UnsignedByte(from, 3)];
      UnsignedBytes(tmpBuf[..], from);
      ghost var before, m := base[..], n - overflowingBits;
      ghost var x := Digits(from, 32)[32 - n..32 - n + m];
      assert x == Digits(from, n)[..m] by {
        DigitsTail(from, 32, n);
        assert x == Digits(from, 32)[32 - n..][..m];
      }
      ShiftBits(base, baseBitOffset + curBitIndex, tmpBuf, MAX_LENGTH - n, n - overflowingBits);
      SpliceWindow(before, base[..], baseBitOffset, totNumBits, curBitIndex, from, numBits, n, m, x);
      curBitIndex := curBitIndex + (n - overflowingBits);
    }

    method Put1Bit(bit: nat)
      requires Valid()
      modifies this`curBitIndex, base
      ensures Valid() && curBitIndex == old(curBitIndex) + Available(old(Contents()), old(curBitIndex), 1)
      ensures Spliced(old(base[..]), base[..], baseBitOffset,
                      WriteBits(old(Contents()), old(curBitIndex), Digit(bit != 0), 1))
    {
      hide BitsOf, BitOf, Digits, Splice, WriteBits;
      ghost var v := Digit(bit != 0);
      if curBitIndex >= totNumBits {
        SpliceNothing(base[..], baseBitOffset, totNumBits, curBitIndex, v, 1);
        return;
      }
      var totBitOffset := baseBitOffset + curBitIndex;
      ghost var before := base[..];
      var mask := SingleBitMask(totBitOffset % 8);
      if bit != 0 {
        base[totBitOffset / 8] := base[totBitOffset / 8] | mask;
      } else {
        base[totBitOffset / 8] := base[totBitOffset / 8] & !mask;
      }
      StoreOneBit(before, base[..], totBitOffset / 8, totBitOffset % 8, totBitOffset, bit != 0);
      SpliceWindow(before, base[..], baseBitOffset, totNumBits, curBitIndex, v, 1, 1, 1, [bit != 0]);
      curBitIndex := curBitIndex + 1;
    }

    method GetBits(numBits: nat) returns (result: nat)
      requires Valid()
      requires ReadBitsDefined(Contents(), curBitIndex, numBits)
      modifies this`curBitIndex
      ensures Valid()
      ensures result == ReadBits(Contents(), old(curBitIndex), numBits).0
      ensures curBitIndex == ReadBits(Contents(), old(curBitIndex), numBits).1
    {
      hide BitsOf, Digits, FirstValue, Pow2, UnsignedByte, Splice, WriteBits, ReadBits, ShiftLeft, ShiftRight;
      if numBits == 0 {
        ReadNothing(Contents(), curBitIndex);
        return 0;
      }
      var tmpBuf := new bv8[4];
      var n := if numBits > MAX_LENGTH then MAX_LENGTH else numBits;
      var overflowingBits := if n > totNumBits - curBitIndex then n - (totNumBits - curBitIndex) else 0;
      ghost var scratch, bits := tmpBuf[..], BitsOf(base[..]);
      ShiftBits(tmpBuf, 0, base, baseBitOffset + curBitIndex, n - overflowingBits);
      ghost var word := BitsOf(tmpBuf[..]);
      result := Value(BitsOf(tmpBuf[..])); // the four bytes joined by shifts
      result := ShiftRight(result, MAX_LENGTH - n);
      result := ShiftLeft(ShiftRight(result, overflowingBits), overflowingBits);
      FieldOfWord(BitsOf(scratch), word, bits, baseBitOffset, totNumBits, curBitIndex, numBits, n, n - overflowingBits);
      curBitIndex := curBitIndex + (n - overflowingBits);
    }

    method Get1Bit() returns (result: nat)
      requires Valid()
      modifies this`curBitIndex
      ensures Valid()
      ensures result == Digit(ReadBit(Contents(), old(curBitIndex)).0)
      ensures curBitIndex == ReadBit(Contents(), old(curBitIndex)).1
    {
      if curBitIndex >= totNumBits {
        return 0;
      } else {
        var totBitOffset := baseBitOffset + curBitIndex;
        curBitIndex := curBitIndex + 1;
        var curFromByte := base[totBitOffset / 8];
        result := if (curFromByte >> (7 - totBitOffset % 8)) & 0x01 == 0 then 0 else 1;
        ShiftedBit(curFromByte, totBitOffset % 8);
        BitOfByte(base[..], totBitOffset / 8, totBitOffset % 8, totBitOffset);
      }
    }

    method Get1BitBoolean() returns (result: bool)
      requires Valid()
      modifies this`curBitIndex
      ensures Valid()
      ensures result == ReadBit(Contents(), old(curBitIndex)).0
      ensures curBitIndex == ReadBit(Contents(), old(curBitIndex)).1
    {
      var bit := Get1Bit();
      result := bit != 0;
    }

    method SkipBits(numBits: nat)
      requires Valid()
      modifies this`curBitIndex
      ensures Valid()
      ensures curBitIndex == BitReading.SkipBits(Contents(), old(curBitIndex), numBits)
    {
      if numBits > totNumBits - curBitIndex {
        curBitIndex := totNumBits;
      } else {
        curBitIndex := curBitIndex + numBits;
      }
    }

    method GetExpGolomb() returns (codeNum: nat)
      requires Valid()
      requires GolombDefined(Contents(), curBitIndex)
      modifies this`curBitIndex
      ensures Valid()
      ensures codeNum == ReadGolomb(Contents(), old(curBitIndex)).0
      ensures curBitIndex == ReadGolomb(Contents(), old(curBitIndex)).1
    {
      hide Window, ReadBits, CodeNum;
      var numLeadingZeroBits, codeStart := 0, 1;
      ghost var from: nat := curBitIndex;
      var bit := Get1Bit();
      while bit == 0 && curBitIndex < totNumBits
        invariant Valid()
        invariant from <= totNumBits
        invariant bit == Digit(ReadBit(Contents(), from).0) && curBitIndex == ReadBit(Contents(), from).1
        invariant codeStart == Pow2(numLeadingZeroBits) % U32_MODULUS
        invariant GolombPrefix(Contents(), old(curBitIndex)).0 == numLeadingZeroBits + GolombPrefix(Contents(), from).0
        invariant GolombPrefix(Contents(), old(curBitIndex)).1 == GolombPrefix(Contents(), from).1
        decreases totNumBits - curBitIndex
      {
        DoubleCodeStart(numLeadingZeroBits);
        numLeadingZeroBits := numLeadingZeroBits + 1;
        codeStart := (codeStart * 2) % U32_MODULUS;
        from := curBitIndex;
        bit := Get1Bit();
      }
      assert GolombPrefix(Contents(), from) == (0, curBitIndex);
      GolombByPrefix(Contents(), old(curBitIndex), numLeadingZeroBits, curBitIndex);
      var rest := GetBits(numLeadingZeroBits);
      codeNum := (codeStart - 1 + rest) % U32_MODULUS;
      CodeNumIs(numLeadingZeroBits, rest);
    }

    method GetExpGolombSigned() returns (v: int)
      requires Valid()
      requires GolombDefined(Contents(), curBitIndex)
      modifies this`curBitIndex
      ensures Valid()
      ensures v == SignedFromCode(ReadGolomb(Contents(), old(curBitIndex)).0)
      ensures curBitIndex == ReadGolomb(Contents(), old(curBitIndex)).1
    {
      var codeNum := GetExpGolomb();
      if codeNum % 2 == 0 {
        v := -(codeNum / 2);
      } else {
        v := ((codeNum + 1) % U32_MODULUS) / 2;
      }
    }
  }

  lemma {:induction false} DoubleCodeStart(n: nat)
    ensures (Pow2(n) % U32_MODULUS * 2) % U32_MODULUS == Pow2(n + 1) % U32_MODULUS
  {
    DoubleMod(Pow2(n));
  }

  lemma {:induction false} DoubleMod(x: nat)
    ensures (x % U32_MODULUS * 2) % U32_MODULUS == (2 * x) % U32_MODULUS
  {
  }

  lemma {:induction false} ShiftedBit(b: bv8, i: nat)
    requires i < 8
    ensures ((b >> (7 - i)) & 0x01 != 0) == BitOf(b, i)
  {
    assert i == 0 || i == 1 || i == 2 || i == 3 || i == 4 || i == 5 || i == 6 || i == 7;
  }

  /** Byte `i` of a 32-bit number, from the most significant end: the cast of a right shift by 24 - 8 * i. */
  function UnsignedByte(v: nat, i: nat): bv8
    requires i < 4
  {
    ByteFrom(Digits(v, 32)[8 * i..8 * i + 8])
  }

  lemma {:induction false} UnsignedBytes(w: seq<bv8>, v: nat)
    requires w == [UnsignedByte(v, 0), UnsignedByte(v, 1), UnsignedByte(v, 2), UnsignedByte(v, 3)]
    ensures BitsOf(w) == Digits(v, 32)
  {
    var d := Digits(v, 32);
    FourBytes(w[0], w[1], w[2], w[3]);
    ByteFromBits(d[0..8]);
    ByteFromBits(d[8..16]);
    ByteFromBits(d[16..24]);
    ByteFromBits(d[24..32]);
    assert d == d[0..8] + d[8..16] + d[16..24] + d[24..32];
  }

  lemma {:induction false} FourBytes(a: bv8, b: bv8, c: bv8, d: bv8)
    ensures BitsOf([a, b, c, d]) == ByteBits(a) + ByteBits(b) + ByteBits(c) + ByteBits(d)
  {
    assert [a, b, c, d] == [a] + [b] + [c] + [d];
    BitsOfConcat([a] + [b] + [c], [d]);
    BitsOfConcat([a] + [b], [c]);
    BitsOfConcat([a], [b]);
    BitsOfByte(a);
    BitsOfByte(b);
    BitsOfByte(c);
    BitsOfByte(d);
  }

  /** The bits copied to the front of a word, shifted right until the overflow is gone and back, are the field read. */
  lemma {:induction false} FieldOfWord(scratch: seq<bool>, word: seq<bool>, bits: seq<bool>, offset: nat, total: nat,
                                       pos: nat, numBits: nat, n: nat, m: nat)
    requires |scratch| == 32 && offset + total <= |bits| && pos <= total
    requires n == Min(numBits, MAX_LENGTH) && m == Min(n, total - pos)
    requires word == Splice(scratch, 0, bits[offset + pos..offset + (pos + m)])
    ensures ReadBits(bits[offset..offset + total], pos, numBits).0
            == ShiftLeft(ShiftRight(ShiftRight(Value(word), 32 - n), n - m), n - m)
    ensures ReadBits(bits[offset..offset + total], pos, numBits).1 == pos + m
  {
    hide Value, FirstValue, Pow2, ShiftLeft, ShiftRight;
    var w := bits[offset..offset + total];
    assert Available(w, pos, numBits) == m;
    var field := w[pos..pos + m];
    SliceOfSlice(bits, offset, offset + total, pos, pos + m);
    assert |field| == m && word[..m] == field[..m];
    ValueOfField(word, field, n, m);
  }

  lemma {:induction false} ValueOfField(word: seq<bool>, field: seq<bool>, n: nat, m: nat)
    requires |word| == 32 && |field| == m <= n <= 32 && word[..m] == field[..m]
    ensures ShiftRight(ShiftRight(Value(word), 32 - n), n - m) == Value(field)
  {
    ShiftRightDrops(word, 32, 32 - n);
    ShiftRightDrops(word, n, n - m);
    FirstValueAgrees(word, field, m);
  }
}
