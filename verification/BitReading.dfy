/** What the BitVector operations mean on a bit string with a read position. */
module BitReading {
  import opened Bits

  const MAX_LENGTH := 32

  function Min(a: int, b: int): int {
    if a < b then a else b
  }

  function ShiftLeft(v: nat, n: nat): nat {
    if n == 0 then v else 2 * ShiftLeft(v, n - 1)
  }

  function ShiftRight(v: nat, n: nat): nat {
    if n == 0 then v else ShiftRight(v / 2, n - 1)
  }

  /** Dropping the low bits of a number is dropping the tail of its bit string. */
  lemma {:induction false} ShiftRightDrops(bits: seq<bool>, k: nat, n: nat)
    requires n <= k <= |bits|
    ensures ShiftRight(FirstValue(bits, k), n) == FirstValue(bits, k - n)
    decreases n
  {
    if n > 0 {
      ShiftRightDrops(bits, k - 1, n - 1);
    }
  }

  /** get1Bit: a zero once the string is exhausted. */
  function ReadBit(bits: seq<bool>, pos: nat): (r: (bool, nat)) {
    if pos >= |bits| then (false, pos) else (bits[pos], pos + 1)
  }

  /** How many of `n` wanted bits are read: at most 32, and no more than are left. */
  function Available(bits: seq<bool>, pos: nat, n: nat): nat
    requires pos <= |bits|
  {
    Min(Min(n, MAX_LENGTH), |bits| - pos)
  }

  /** getBits: missing low-order bits read as zero. */
  function ReadBits(bits: seq<bool>, pos: nat, n: nat): (r: (nat, nat))
    requires pos <= |bits|
    ensures r.1 == pos + Available(bits, pos, n)
  {
    var m := Available(bits, pos, n);
    (ShiftLeft(Value(bits[pos..pos + m]), Min(n, MAX_LENGTH) - m), pos + m)
  }

  /** getBits(32) with nothing left shifts a 32-bit word by 32: undefined in C++. */
  predicate ReadBitsDefined(bits: seq<bool>, pos: nat, n: nat)
    requires pos <= |bits|
  {
    n < MAX_LENGTH || pos < |bits|
  }

  /** putBits: the low `n` digits of `v`, highest first, cut off at the end of the string. */
  function WriteBits(bits: seq<bool>, pos: nat, v: nat, n: nat): (r: seq<bool>)
    requires pos <= |bits|
    ensures |r| == |bits|
  {
    var m := Available(bits, pos, n);
    bits[..pos] + Digits(v, Min(n, MAX_LENGTH))[..m] + bits[pos + m..]
  }

  /** skipBits. */
  function SkipBits(bits: seq<bool>, pos: nat, n: nat): (p: nat)
    requires pos <= |bits|
    ensures p <= |bits|
  {
    if n > |bits| - pos then |bits| else pos + n
  }

  /** The leading-zero loop of get_expGolomb: the zeros counted and the position after it. */
  function GolombPrefix(bits: seq<bool>, pos: nat): (r: (nat, nat))
    requires pos <= |bits|
    ensures pos <= r.1 <= |bits|
    ensures r.0 <= r.1 - pos
    decreases |bits| - pos
  {
    if pos == |bits| then (0, pos)
    else if bits[pos] || pos + 1 == |bits| then (0, pos + 1)
    else var (n, p) := GolombPrefix(bits, pos + 1); (n + 1, p)
  }

  predicate GolombDefined(bits: seq<bool>, pos: nat)
    requires pos <= |bits|
  {
    var (n, p) := GolombPrefix(bits, pos);
    ReadBitsDefined(bits, p, n)
  }

  /** The code number of `n` leading zeros followed by the value `v`, in 32-bit unsigned arithmetic. */
  function CodeNum(n: nat, v: nat): (r: nat)
    ensures r < U32_MODULUS
  {
    (Pow2(n) % U32_MODULUS - 1 + v) % U32_MODULUS
  }

  lemma {:induction false} CodeNumIs(n: nat, v: nat)
    ensures CodeNum(n, v) == (Pow2(n) % U32_MODULUS - 1 + v) % U32_MODULUS
  {
  }

  /** get_expGolomb. */
  function ReadGolomb(bits: seq<bool>, pos: nat): (r: (nat, nat))
    requires pos <= |bits|
    ensures pos <= r.1 <= |bits|
    ensures r.0 < U32_MODULUS
  {
    var (n, p) := GolombPrefix(bits, pos);
    var (v, p') := ReadBits(bits, p, n);
    (CodeNum(n, v), p')
  }

  lemma {:induction false} GolombByPrefix(bits: seq<bool>, pos: nat, n: nat, p: nat)
    requires pos <= |bits| && GolombPrefix(bits, pos) == (n, p)
    ensures ReadGolomb(bits, pos).0 == CodeNum(n, ReadBits(bits, p, n).0)
    ensures ReadGolomb(bits, pos).1 == ReadBits(bits, p, n).1
    ensures GolombDefined(bits, pos) <==> ReadBitsDefined(bits, p, n)
  {
  }

  /** get_expGolombSigned, from the code number. */
  function SignedFromCode(codeNum: nat): int {
    if codeNum % 2 == 0 then -(codeNum / 2) else ((codeNum + 1) % U32_MODULUS) / 2
  }

  function Zeros(n: nat): (z: seq<bool>)
    ensures |z| == n && forall i :: 0 <= i < n ==> !z[i]
  {
    seq(n, _ => false)
  }

  /** An Exp-Golomb codeword: some zeros, a one, and as many further bits (ITU-T H.264, section 9.1). */
  function Codeword(suffix: seq<bool>): seq<bool> {
    Zeros(|suffix|) + [true] + suffix
  }

  function Log2(n: nat): (k: nat)
    requires n >= 1
    ensures Pow2(k) <= n < Pow2(k + 1)
  {
    if n == 1 then 0 else 1 + Log2(n / 2)
  }

  /** ue(v): the codeword of a number. */
  function Golomb(v: nat): seq<bool> {
    var k := Log2(v + 1);
    Codeword(Digits(v + 1 - Pow2(k), k))
  }

  /** se(v): the signed mapping of section 9.1.1. */
  function SignedCode(v: int): nat {
    if v > 0 then 2 * v - 1 else -2 * v
  }

  predicate Has(bits: seq<bool>, pos: nat, code: seq<bool>) {
    pos + |code| <= |bits| && bits[pos..pos + |code|] == code
  }

  lemma {:induction false} HasConcat(bits: seq<bool>, pos: nat, a: seq<bool>, b: seq<bool>)
    ensures Has(bits, pos, a + b) <==> Has(bits, pos, a) && Has(bits, pos + |a|, b)
    ensures Has(bits, pos, a + b) ==> pos + |a| + |b| <= |bits|
  {
    if pos + |a| + |b| <= |bits| {
      assert bits[pos..pos + |a| + |b|] == bits[pos..pos + |a|] + bits[pos + |a|..pos + |a| + |b|];
      if bits[pos..pos + |a + b|] == a + b {
        assert bits[pos..pos + |a|] == (a + b)[..|a|] == a;
        assert bits[pos + |a|..pos + |a| + |b|] == (a + b)[|a|..] == b;
      }
    }
  }

  lemma {:induction false} PrefixOfCodeword(bits: seq<bool>, pos: nat, n: nat)
    requires Has(bits, pos, Zeros(n) + [true])
    ensures GolombPrefix(bits, pos) == (n, pos + n + 1)
    decreases n
  {
    var z := Zeros(n) + [true];
    assert bits[pos] == bits[pos..pos + |z|][0];
    if n > 0 {
      var z' := Zeros(n - 1) + [true];
      assert z[1..] == z';
      assert bits[pos + 1..pos + 1 + |z'|] == bits[pos..pos + |z|][1..];
      PrefixOfCodeword(bits, pos + 1, n - 1);
    }
  }

  /** Every complete codeword of up to 31 leading zeros decodes to the value the standard gives it
      and is consumed exactly, wherever it stands in the string. */
  lemma {:induction false} GolombDecodes(bits: seq<bool>, pos: nat, suffix: seq<bool>)
    requires |suffix| <= 31
    requires Has(bits, pos, Codeword(suffix))
    ensures GolombDefined(bits, pos)
    ensures ReadGolomb(bits, pos).0 == Pow2(|suffix|) - 1 + Value(suffix)
    ensures ReadGolomb(bits, pos).1 == pos + |Codeword(suffix)|
  {
    var n := |suffix|;
    var z := Zeros(n) + [true];
    assert Codeword(suffix) == z + suffix;
    var p := pos + n + 1;
    assert Has(bits, pos, z) && Has(bits, p, suffix) by { HasConcat(bits, pos, z, suffix); }
    assert GolombPrefix(bits, pos) == (n, p) by { PrefixOfCodeword(bits, pos, n); }
    ReadExactly(bits, p, suffix);
    assert ReadGolomb(bits, pos).0 == CodeNum(n, Value(suffix));
    SmallCodeword(n, Value(suffix));
  }

  /** A field of up to 32 bits that stands in the string is read as its value. */
  lemma {:induction false} ReadExactly(bits: seq<bool>, pos: nat, field: seq<bool>)
    requires |field| <= MAX_LENGTH && Has(bits, pos, field)
    ensures ReadBits(bits, pos, |field|).0 == Value(field)
    ensures ReadBits(bits, pos, |field|).1 == pos + |field|
  {
    ReadWhole(bits, pos, |field|);
  }

  lemma {:induction false} ReadNothing(bits: seq<bool>, pos: nat)
    requires pos <= |bits|
    ensures ReadBits(bits, pos, 0).0 == 0
    ensures ReadBits(bits, pos, 0).1 == pos
  {
    ReadWhole(bits, pos, 0);
  }

  lemma {:induction false} ReadWhole(bits: seq<bool>, pos: nat, n: nat)
    requires n <= MAX_LENGTH && pos + n <= |bits|
    ensures ReadBits(bits, pos, n).0 == Value(bits[pos..pos + n])
    ensures ReadBits(bits, pos, n).1 == pos + n
  {
    assert Available(bits, pos, n) == n;
  }

  lemma {:induction false} SmallCodeword(n: nat, v: nat)
    requires n <= 31 && v < Pow2(n)
    ensures CodeNum(n, v) == Pow2(n) - 1 + v
  {
    Pow2Monotone(n, 31);
    Pow2Table();
    SmallMod(Pow2(n));
    SmallMod(Pow2(n) - 1 + v);
  }

  lemma {:induction false} SmallMod(x: nat)
    requires x < U32_MODULUS
    ensures x % U32_MODULUS == x
  {
  }

  /** Decoding inverts the ue(v) encoding. */
  lemma {:induction false} GolombRoundTrip(bits: seq<bool>, pos: nat, v: nat)
    requires v + 1 < U32_MODULUS
    requires Has(bits, pos, Golomb(v))
    ensures GolombDefined(bits, pos)
    ensures ReadGolomb(bits, pos).0 == v
    ensures ReadGolomb(bits, pos).1 == pos + |Golomb(v)|
  {
    var k := Log2(v + 1);
    if k >= 32 {
      Pow2Monotone(32, k);
      Pow2Table();
    }
    var suffix := Digits(v + 1 - Pow2(k), k);
    ValueDigits(v + 1 - Pow2(k), k);
    GolombDecodes(bits, pos, suffix);
  }

  /** The signed mapping is undone for every value a 32-bit code number can carry. */
  lemma {:induction false} SignedRoundTrip(v: int)
    requires SignedCode(v) + 1 < U32_MODULUS
    ensures SignedFromCode(SignedCode(v)) == v
  {
  }

  /** What putBits wrote is what getBits reads back from the same place: the low `n` binary digits,
      except that digits beyond the end of the string come back as zeros. */
  lemma {:induction false} PutThenGet(bits: seq<bool>, pos: nat, v: nat, n: nat)
    requires pos <= |bits| && n <= MAX_LENGTH
    ensures var lost := n - Available(bits, pos, n);
      ReadBits(WriteBits(bits, pos, v, n), pos, n).0 == ShiftLeft(ShiftRight(v % Pow2(n), lost), lost)
  {
    var m := Available(bits, pos, n);
    var d := Digits(v, n);
    var w := WriteBits(bits, pos, v, n);
    assert w[pos..pos + m] == d[..m];
    DigitsMod(v, n);
    ValueDigits(v % Pow2(n), n);
    ShiftRightDrops(d, n, n - m);
    FirstValueAgrees(d, d[..m], m);
  }

  /** get1Bit is getBits(1), also past the end. */
  lemma {:induction false} OneBitReadAgrees(bits: seq<bool>, pos: nat)
    requires pos <= |bits|
    ensures ReadBits(bits, pos, 1).0 == Digit(ReadBit(bits, pos).0)
    ensures ReadBits(bits, pos, 1).1 == ReadBit(bits, pos).1
  {
    if pos < |bits| {
      ReadWhole(bits, pos, 1);
      assert FirstValue(bits[pos..pos + 1], 1) == Digit(bits[pos]);
    } else {
      assert bits[pos..pos] == [];
      assert ShiftLeft(0, 1) == 0;
    }
  }

  /** put1Bit is putBits(_, 1) exactly for the arguments whose lowest bit tells zero from non-zero. */
  lemma {:induction false} OneBitWriteAgrees(bits: seq<bool>, pos: nat, bit: nat)
    requires pos <= |bits|
    ensures WriteBits(bits, pos, Digit(bit != 0), 1) == WriteBits(bits, pos, bit, 1)
            <==> pos == |bits| || bit == 0 || bit % 2 == 1
  {
    var d := Digit(bit != 0);
    assert Digits(d, 1) == [d % 2 == 1] && Digits(bit, 1) == [bit % 2 == 1];
    if pos < |bits| {
      assert WriteBits(bits, pos, d, 1)[pos] == (d % 2 == 1);
      assert WriteBits(bits, pos, bit, 1)[pos] == (bit % 2 == 1);
    }
  }

  /** An Exp-Golomb number that is written out is 0 exactly if its first bit is set. */
  lemma {:induction false} GolombZeroIff(bits: seq<bool>, pos: nat, v: nat)
    requires v + 1 < U32_MODULUS && pos <= |bits| && Has(bits, pos, Golomb(v))
    ensures pos < |bits| && ReadGolomb(bits, pos).0 == v && (v == 0 <==> bits[pos])
  {
    GolombRoundTrip(bits, pos, v);
  }
}
