/** Bytes as bit strings (most significant bit first) and bit strings as numbers. */
module Bits {

  const U32_MODULUS := 0x1_0000_0000

  /** The masks of the bit vector: bit 0 is the most significant bit of a byte. */
  function SingleBitMask(i: nat): bv8
    requires i < 8
  {
    match i
    case 0 => 0x80
    case 1 => 0x40
    case 2 => 0x20
    case 3 => 0x10
    case 4 => 0x08
    case 5 => 0x04
    case 6 => 0x02
    case 7 => 0x01
  }

  predicate BitOf(b: bv8, i: nat)
    requires i < 8
  {
    b & SingleBitMask(i) != 0
  }

  function ByteBits(b: bv8): (bits: seq<bool>)
    ensures |bits| == 8
    ensures forall i :: 0 <= i < 8 ==> bits[i] == BitOf(b, i)
  {
    seq(8, i requires 0 <= i < 8 => BitOf(b, i))
  }

  function BitsOf(s: seq<bv8>): (bits: seq<bool>)
    ensures |bits| == 8 * |s|
  {
    if s == [] then [] else BitsOf(s[..|s| - 1]) + ByteBits(s[|s| - 1])
  }

  function Weight(bit: bool, mask: bv8): bv8 {
    if bit then mask else 0
  }

  /** The byte with the given eight bits. */
  function ByteFrom(bits: seq<bool>): bv8
    requires |bits| == 8
  {
    Weight(bits[0], 0x80) | Weight(bits[1], 0x40) | Weight(bits[2], 0x20) | Weight(bits[3], 0x10)
    | Weight(bits[4], 0x08) | Weight(bits[5], 0x04) | Weight(bits[6], 0x02) | Weight(bits[7], 0x01)
  }

  lemma {:induction false} UpperBits(bits: seq<bool>)
    requires |bits| == 8
    ensures BitOf(ByteFrom(bits), 0) == bits[0] && BitOf(ByteFrom(bits), 1) == bits[1]
    ensures BitOf(ByteFrom(bits), 2) == bits[2] && BitOf(ByteFrom(bits), 3) == bits[3]
  {
  }

  lemma {:induction false} LowerBits(bits: seq<bool>)
    requires |bits| == 8
    ensures BitOf(ByteFrom(bits), 4) == bits[4] && BitOf(ByteFrom(bits), 5) == bits[5]
    ensures BitOf(ByteFrom(bits), 6) == bits[6] && BitOf(ByteFrom(bits), 7) == bits[7]
  {
  }

  lemma {:induction false} ByteFromBits(bits: seq<bool>)
    requires |bits| == 8
    ensures ByteBits(ByteFrom(bits)) == bits
  {
    hide BitOf, ByteFrom;
    UpperBits(bits);
    LowerBits(bits);
    forall k | 0 <= k < 8
      ensures ByteBits(ByteFrom(bits))[k] == bits[k]
    {
      assert k == 0 || k == 1 || k == 2 || k == 3 || k == 4 || k == 5 || k == 6 || k == 7;
    }
  }

  /** Bytes with the same eight bits are the same byte. */
  lemma {:induction false} ByteFromByteBits(b: bv8)
    ensures ByteFrom(ByteBits(b)) == b
  {
  }

  /** Setting or clearing one bit of a byte leaves the other seven alone. */
  lemma {:induction false} MaskedByte(b: bv8, i: nat, k: nat)
    requires i < 8 && k < 8
    ensures BitOf(b | SingleBitMask(i), k) == (k == i || BitOf(b, k))
    ensures BitOf(b & !SingleBitMask(i), k) == (k != i && BitOf(b, k))
  {
  }

  lemma {:induction false} BitsOfConcat(a: seq<bv8>, b: seq<bv8>)
    ensures BitsOf(a + b) == BitsOf(a) + BitsOf(b)
    decreases |b|
  {
    if b == [] {
      assert a + b == a;
    } else {
      assert (a + b)[..|a + b| - 1] == a + b[..|b| - 1];
      BitsOfConcat(a, b[..|b| - 1]);
    }
  }

  lemma {:induction false} BitsOfByte(b: bv8)
    ensures BitsOf([b]) == ByteBits(b)
  {
    assert [b][..0] == [];
  }

  /** The bits of byte `n` within the bits of the whole string. */
  lemma {:induction false} BitsOfSplit(s: seq<bv8>, n: nat)
    requires n < |s|
    ensures BitsOf(s) == BitsOf(s[..n]) + ByteBits(s[n]) + BitsOf(s[n + 1..])
  {
    assert s == s[..n] + ([s[n]] + s[n + 1..]);
    BitsOfConcat(s[..n], [s[n]] + s[n + 1..]);
    BitsOfConcat([s[n]], s[n + 1..]);
    BitsOfByte(s[n]);
  }

  lemma {:induction false} BitOfByte(s: seq<bv8>, n: nat, i: nat, j: nat)
    requires n < |s| && i < 8 && j == 8 * n + i
    ensures BitsOf(s)[j] == BitOf(s[n], i)
  {
    BitsOfSplit(s, n);
    var front, byte := BitsOf(s[..n]), ByteBits(s[n]);
    assert BitsOf(s)[8 * n + i] == byte[i];
  }

  /** Storing a byte in which one bit was set or cleared changes exactly that bit of the string. */
  lemma {:induction false} StoreBit(s: seq<bv8>, n: nat, i: nat, j: nat, bit: bool)
    requires n < |s| && i < 8 && j == 8 * n + i
    ensures BitsOf(s[n := MaskBit(s[n], i, bit)]) == BitsOf(s)[j := bit]
  {
    var b := MaskBit(s[n], i, bit);
    BitsOfSplit(s, n);
    BitsOfSplit(s[n := b], n);
    assert s[n := b][..n] == s[..n] && s[n := b][n + 1..] == s[n + 1..];
    MaskBitBits(s[n], i, bit);
    ReplaceInMiddle(BitsOf(s[..n]), ByteBits(s[n]), BitsOf(s[n + 1..]), i, bit);
  }

  function MaskBit(b: bv8, i: nat, bit: bool): bv8
    requires i < 8
  {
    if bit then b | SingleBitMask(i) else b & !SingleBitMask(i)
  }

  lemma {:induction false} MaskBitBits(b: bv8, i: nat, bit: bool)
    requires i < 8
    ensures ByteBits(MaskBit(b, i, bit)) == ByteBits(b)[i := bit]
  {
    forall k | 0 <= k < 8
      ensures ByteBits(MaskBit(b, i, bit))[k] == ByteBits(b)[i := bit][k]
    {
      MaskedByte(b, i, k);
    }
  }

  lemma {:induction false} ReplaceInMiddle(a: seq<bool>, b: seq<bool>, c: seq<bool>, i: nat, x: bool)
    requires i < |b|
    ensures a + b[i := x] + c == (a + b + c)[|a| + i := x]
  {
  }

  function Pow2(n: nat): (p: nat)
    ensures p >= 1
  {
    if n == 0 then 1 else 2 * Pow2(n - 1)
  }

  function Digit(b: bool): nat {
    if b then 1 else 0
  }

  /** The number the first `k` bits of a string denote, most significant first. */
  function FirstValue(bits: seq<bool>, k: nat): (v: nat)
    requires k <= |bits|
    ensures v < Pow2(k)
  {
    if k == 0 then 0 else 2 * FirstValue(bits, k - 1) + Digit(bits[k - 1])
  }

  /** The number a bit string denotes. */
  function Value(bits: seq<bool>): (v: nat)
    ensures v < Pow2(|bits|)
  {
    FirstValue(bits, |bits|)
  }

  /** The `n` lowest binary digits of `v`, most significant first. */
  function Digits(v: nat, n: nat): (bits: seq<bool>)
    ensures |bits| == n
  {
    if n == 0 then [] else Digits(v / 2, n - 1) + [v % 2 == 1]
  }

  lemma {:induction false} FirstValueAgrees(a: seq<bool>, b: seq<bool>, k: nat)
    requires k <= |a| && k <= |b| && a[..k] == b[..k]
    ensures FirstValue(a, k) == FirstValue(b, k)
  {
    if k > 0 {
      assert a[..k - 1] == a[..k][..k - 1] == b[..k - 1];
      assert a[k - 1] == a[..k][k - 1] == b[k - 1];
      FirstValueAgrees(a, b, k - 1);
    }
  }

  lemma {:induction false} Pow2Add(a: nat, b: nat)
    ensures Pow2(a + b) == Pow2(a) * Pow2(b)
    decreases b
  {
    if b > 0 {
      Pow2Add(a, b - 1);
      assert Pow2(a + b) == 2 * Pow2(a + b - 1);
    }
  }

  lemma {:induction false} Pow2Table()
    ensures Pow2(8) == 0x100 && Pow2(16) == 0x1_0000 && Pow2(31) == 0x8000_0000 && Pow2(32) == U32_MODULUS
  {
    assert Pow2(4) == 16;
    assert Pow2(8) == 256 by { Pow2Add(4, 4); }
    Pow2Add(8, 8);
    Pow2Add(16, 16);
    Pow2Add(31, 1);
  }

  lemma {:induction false} Pow2Monotone(a: nat, b: nat)
    requires a <= b
    ensures Pow2(a) <= Pow2(b)
    decreases b
  {
    if a < b { Pow2Monotone(a, b - 1); }
  }

  lemma {:induction false} ValueDigits(v: nat, n: nat)
    requires v < Pow2(n)
    ensures Value(Digits(v, n)) == v
    decreases n
  {
    if n > 0 {
      var front := Digits(v / 2, n - 1);
      ValueDigits(v / 2, n - 1);
      assert Digits(v, n)[..n - 1] == front == front[..n - 1];
      FirstValueAgrees(Digits(v, n), front, n - 1);
    }
  }

  lemma {:induction false} DigitsFirstValue(bits: seq<bool>, k: nat)
    requires k <= |bits|
    ensures Digits(FirstValue(bits, k), k) == bits[..k]
  {
    if k > 0 {
      DigitsFirstValue(bits, k - 1);
      assert bits[..k] == bits[..k - 1] + [bits[k - 1]];
    }
  }

  lemma {:induction false} DigitsValue(bits: seq<bool>)
    ensures Digits(Value(bits), |bits|) == bits
  {
    DigitsFirstValue(bits, |bits|);
  }

  lemma {:induction false} DigitsMod(v: nat, n: nat)
    ensures Digits(v, n) == Digits(v % Pow2(n), n)
    decreases n
  {
    if n > 0 {
      HalfOfRemainder(v, Pow2(n - 1));
      DigitsMod(v / 2, n - 1);
    }
  }

  /** The last `m` of `n` digits are the `m` lowest ones. */
  lemma {:induction false} DigitsTail(v: nat, n: nat, m: nat)
    requires m <= n
    ensures Digits(v, n)[n - m..] == Digits(v, m)
    decreases m
  {
    if m > 0 {
      DigitsTail(v / 2, n - 1, m - 1);
    }
  }

  lemma {:induction false} HalfOfRemainder(v: nat, p: nat)
    requires p > 0
    ensures (v / 2) % p == (v % (2 * p)) / 2
    ensures v % 2 == (v % (2 * p)) % 2
  {
    HalfOfSplit(v, p, v / (2 * p), v % (2 * p));
  }

  lemma {:induction false} HalfOfSplit(v: int, p: int, q: int, r: int)
    requires 0 <= r < 2 * p && v == q * (2 * p) + r
    ensures (v / 2) % p == r / 2 && v % 2 == r % 2
  {
    assert q * (2 * p) == 2 * (q * p);
    EvenPart(v, q * p, r);
    DivUnique(v / 2, p, q, r / 2);
  }

  lemma {:induction false} EvenPart(v: int, x: int, r: int)
    requires v == 2 * x + r
    ensures v / 2 == x + r / 2 && v % 2 == r % 2
  {
  }

  lemma {:induction false} DivUnique(x: int, d: int, q: int, r: int)
    requires 0 <= r < d && x == q * d + r
    ensures x / d == q && x % d == r
  {
    var k := x / d - q;
    assert x == (x / d) * d + x % d;
    assert k * d == r - x % d;
    MultipleBounds(k, d);
  }

  lemma {:induction false} MultipleBounds(k: int, d: int)
    requires d > 0
    ensures k >= 1 ==> k * d >= d
    ensures k <= -1 ==> k * d <= -d
  {
  }

  /** A byte as an unsigned number. */
  function ByteNumber(b: bv8): (v: nat)
    ensures v < 256
  {
    Pow2Table();
    Value(ByteBits(b))
  }

  /** The cast of a number to a byte. */
  function OctetOf(v: nat): bv8 {
    ByteFrom(Digits(v, 8))
  }

  lemma {:induction false} OctetRoundTrip(v: nat)
    requires v < 256
    ensures ByteNumber(OctetOf(v)) == v
  {
    hide ByteFrom, ByteBits;
    Pow2Table();
    ByteFromBits(Digits(v, 8));
    ValueDigits(v, 8);
  }

  lemma {:induction false} ByteRoundTrip(b: bv8)
    ensures OctetOf(ByteNumber(b)) == b
  {
    hide ByteFrom, ByteBits;
    DigitsValue(ByteBits(b));
    ByteFromByteBits(b);
  }
}
