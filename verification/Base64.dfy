/** Base64 (section 4 of RFC 4648), and lists of Base64 records. Octets and characters are numbers; shifts and masks are
    written as quotients and remainders. */
module Base64 {
  type Octet = x: int | 0 <= x < 0x100
  type Six = x: int | 0 <= x < 64
  type Bytes = seq<Octet>

  const PAD: Octet := 61
  const COMMA: Octet := 44
  const INVALID: Octet := 0x80

  /** base64Char: A to Z, a to z, 0 to 9, +, /. */
  function Symbol(v: Six): (c: Octet)
    ensures c != PAD && c != COMMA && c != 0 && DecodeOf(c) == v
  {
    if v < 26 then 65 + v else if v < 52 then 97 + (v - 26) else if v < 62 then 48 + (v - 52) else if v == 62 then 43 else 47
  }

  /** base64DecodeTable; what is not a symbol is invalid. */
  function DecodeOf(c: int): (v: Octet)
    ensures v < 64 || v == INVALID
  {
    if 65 <= c <= 90 then c - 65
    else if 97 <= c <= 122 then 26 + (c - 97)
    else if 48 <= c <= 57 then 52 + (c - 48)
    else if c == 43 then 62
    else if c == 47 then 63
    else if c == PAD then 0
    else INVALID
  }

  /** What a character counts for: an invalid one is taken for an A. */
  function SixBits(c: int): Six {
    if DecodeOf(c) >= 0x80 then 0 else DecodeOf(c)
  }

  /** a >> 2 */
  function First(a: Octet): Six {
    a / 4
  }

  /** ((a & 3) << 4) | (b >> 4) */
  function Second(a: Octet, b: Octet): Six {
    (a % 4) * 16 + b / 16
  }

  /** ((b << 2) | (c >> 6)) & 0x3F */
  function Third(b: Octet, c: Octet): Six {
    (b % 16) * 4 + c / 64
  }

  /** c & 0x3F */
  function Fourth(c: Octet): Six {
    c % 64
  }

  /** What base64Encode writes. */
  function Encoded(s: Bytes): Bytes {
    if |s| >= 3 then
      [Symbol(First(s[0])), Symbol(Second(s[0], s[1])), Symbol(Third(s[1], s[2])), Symbol(Fourth(s[2]))] + Encoded(s[3..])
    else if |s| == 2 then
      [Symbol(First(s[0])), Symbol(Second(s[0], s[1])), Symbol((s[1] % 16) * 4), PAD]
    else if |s| == 1 then
      [Symbol(First(s[0])), Symbol((s[0] % 4) * 16), PAD, PAD]
    else []
  }

  /** (w << 2) | (x >> 4) */
  function Join0(w: Six, x: Six): Octet {
    w * 4 + x / 16
  }

  /** (x << 4) | (y >> 2), cut to eight bits */
  function Join1(x: Six, y: Six): Octet {
    (x % 16) * 16 + y / 4
  }

  /** (y << 6) | z, cut to eight bits */
  function Join2(y: Six, z: Six): Octet {
    (y % 4) * 64 + z
  }

  /** Three bytes for every full group of four characters. */
  function Groups(t: Bytes): Bytes {
    if |t| < 4 then []
    else [Join0(SixBits(t[0]), SixBits(t[1])), Join1(SixBits(t[1]), SixBits(t[2])), Join2(SixBits(t[2]), SixBits(t[3]))] + Groups(t[4..])
  }

  function PadOf(c: int): nat {
    if c == PAD then 1 else 0
  }

  function Padding(t: Bytes): nat {
    if |t| < 4 then 0 else PadOf(t[0]) + PadOf(t[1]) + PadOf(t[2]) + PadOf(t[3]) + Padding(t[4..])
  }

  /** Drops zeros at the end, at most `n` of them. */
  function Trimmed(s: Bytes, n: nat): Bytes {
    if n > 0 && s != [] && s[|s| - 1] == 0 then Trimmed(s[..|s| - 1], n - 1) else s
  }

  /** What base64Decode returns. */
  function Decoded(t: Bytes, trimTrailingZeros: bool): Bytes {
    if trimTrailingZeros then Trimmed(Groups(t), Padding(t)) else Groups(t)
  }

  // ---------- Decoding inverts encoding ----------

  lemma {:induction false} GroupBits(a: Octet, b: Octet, c: Octet)
    ensures Join0(First(a), Second(a, b)) == a && Join1(Second(a, b), Third(b, c)) == b && Join2(Third(b, c), Fourth(c)) == c
  {
  }

  lemma {:induction false} TailBits(a: Octet, b: Octet)
    ensures (b % 16) * 4 == Third(b, 0) && (a % 4) * 16 == Second(a, 0)
    ensures Fourth(0) == 0 && Third(0, 0) == 0
  {
  }

  lemma {:induction false} SymbolBits(v: Six)
    ensures SixBits(Symbol(v)) == v && PadOf(Symbol(v)) == 0 && SixBits(PAD) == 0
  {
  }

  function Zeros(n: nat): Bytes {
    seq(n, _ => 0)
  }

  function PadCount(s: Bytes): nat {
    if |s| % 3 == 0 then 0 else 3 - |s| % 3
  }

  /** A group of three encodes and decodes. */
  lemma {:induction false} FullGroup(a: Octet, b: Octet, c: Octet, rest: Bytes)
    ensures Groups([Symbol(First(a)), Symbol(Second(a, b)), Symbol(Third(b, c)), Symbol(Fourth(c))] + rest) == [a, b, c] + Groups(rest)
    ensures Padding([Symbol(First(a)), Symbol(Second(a, b)), Symbol(Third(b, c)), Symbol(Fourth(c))] + rest) == Padding(rest)
  {
    hide Symbol, First, Second, Third, Fourth, Join0, Join1, Join2, SixBits, PadOf;
    var t := [Symbol(First(a)), Symbol(Second(a, b)), Symbol(Third(b, c)), Symbol(Fourth(c))] + rest;
    assert t[4..] == rest;
    SymbolBits(First(a));
    SymbolBits(Second(a, b));
    SymbolBits(Third(b, c));
    SymbolBits(Fourth(c));
    GroupBits(a, b, c);
  }

  lemma {:induction false} TwoLeft(a: Octet, b: Octet)
    ensures Groups([Symbol(First(a)), Symbol(Second(a, b)), Symbol(Third(b, 0)), PAD]) == [a, b, 0]
    ensures Padding([Symbol(First(a)), Symbol(Second(a, b)), Symbol(Third(b, 0)), PAD]) == 1
  {
    hide Symbol, First, Second, Third, Fourth, Join0, Join1, Join2, SixBits;
    SymbolBits(First(a));
    SymbolBits(Second(a, b));
    SymbolBits(Third(b, 0));
    GroupBits(a, b, 0);
    TailBits(a, b);
  }

  lemma {:induction false} OneLeft(a: Octet)
    ensures Groups([Symbol(First(a)), Symbol(Second(a, 0)), PAD, PAD]) == [a, 0, 0]
    ensures Padding([Symbol(First(a)), Symbol(Second(a, 0)), PAD, PAD]) == 2
  {
    hide Symbol, First, Second, Third, Fourth, Join0, Join1, Join2, SixBits;
    SymbolBits(First(a));
    SymbolBits(Second(a, 0));
    GroupBits(a, 0, 0);
    TailBits(a, 0);
  }

  lemma {:induction false} PadShift(s: Bytes)
    requires |s| >= 3
    ensures PadCount(s) == PadCount(s[3..])
  {
  }

  lemma {:induction false} FewZeros(s: Bytes)
    requires |s| < 3
    ensures PadCount(s) == (if s == [] then 0 else 3 - |s|)
    ensures s + Zeros(PadCount(s)) == if s == [] then [] else if |s| == 1 then [s[0], 0, 0] else [s[0], s[1], 0]
  {
  }

  lemma {:induction false} Regroup(a: Bytes, b: Bytes, c: Bytes)
    ensures a + (b + c) == (a + b) + c
  {
  }

  lemma {:induction false} GroupsOfEncoded(s: Bytes)
    ensures Groups(Encoded(s)) == s + Zeros(PadCount(s)) && Padding(Encoded(s)) == PadCount(s)
    decreases |s|
  {
    hide Symbol, First, Second, Third, Fourth, Join0, Join1, Join2, SixBits, PadOf, Groups, Padding, Zeros, PadCount;
    if |s| >= 3 {
      FullGroup(s[0], s[1], s[2], Encoded(s[3..]));
      GroupsOfEncoded(s[3..]);
      PadShift(s);
      Regroup([s[0], s[1], s[2]], s[3..], Zeros(PadCount(s)));
      assert [s[0], s[1], s[2]] + s[3..] == s;
    } else if |s| == 2 {
      TailBits(s[0], s[1]);
      TwoLeft(s[0], s[1]);
      FewZeros(s);
    } else if |s| == 1 {
      TailBits(s[0], 0);
      OneLeft(s[0]);
      FewZeros(s);
    } else {
      NoGroups();
      FewZeros(s);
    }
  }

  lemma {:induction false} NoGroups()
    ensures Groups([]) == [] && Padding([]) == 0
  {
  }

  lemma {:induction false} TrimZeros(s: Bytes, n: nat)
    ensures Trimmed(s + Zeros(n), n) == s
    decreases n
  {
    if n > 0 {
      TrimZeros(s, n - 1);
      assert (s + Zeros(n))[..|s| + n - 1] == s + Zeros(n - 1);
    } else {
      assert s + Zeros(0) == s;
    }
  }

  /** With trimming, decoding gives back every byte string, whatever zeros it ends in. Without, the zeros that fill the last
      group remain. */
  lemma {:induction false} DecodeInvertsEncode(s: Bytes)
    ensures Decoded(Encoded(s), true) == s
    ensures Decoded(Encoded(s), false) == s + Zeros(PadCount(s))
  {
    hide Encoded, Groups, Padding, Trimmed;
    GroupsOfEncoded(s);
    TrimZeros(s, PadCount(s));
  }

  // ---------- The alphabet and the groups, as RFC 4648 has them ----------

  const ALPHABET := Run('A', 'Z') + Run('a', 'z') + Run('0', '9') + "+/"

  /** The characters from one to another. */
  function Run(first: char, last: char): string
    requires first <= last <= 'z'
  {
    seq(last as int - first as int + 1, i requires 0 <= i <= last as int - first as int => (first as int + i) as char)
  }

  /** Table 1 of RFC 4648. */
  lemma {:induction false} SymbolIs(v: Six)
    ensures |ALPHABET| == 64 && ALPHABET[v] as int == Symbol(v)
  {
  }

  /** Every character counts for its place in the alphabet; one that is not in it, for 0. */
  lemma {:induction false} SixBitsIs(c: Octet)
    ensures ALPHABET[SixBits(c)] as int == c || (SixBits(c) == 0 && forall v :: 0 <= v < 64 ==> ALPHABET[v] as int != c)
  {
    hide SixBits;
    SixBitsInverse(c);
    SymbolIs(SixBits(c));
    forall v | 0 <= v < 64 ensures ALPHABET[v] as int == Symbol(v) { SymbolIs(v); }
  }

  lemma {:induction false} SixBitsInverse(c: Octet)
    ensures Symbol(SixBits(c)) == c || (SixBits(c) == 0 && forall v: int :: 0 <= v < 64 ==> Symbol(v) != c)
  {
  }

  /** Three octets, taken for one number of 24 bits, are cut into four digits of 6 bits, and four digits are put together. */
  lemma {:induction false} SameNumber(a: Octet, b: Octet, c: Octet, w: Six, x: Six, y: Six, z: Six)
    ensures First(a) * 0x4_0000 + Second(a, b) * 0x1000 + Third(b, c) * 0x40 + Fourth(c) == a * 0x1_0000 + b * 0x100 + c
    ensures Join0(w, x) * 0x1_0000 + Join1(x, y) * 0x100 + Join2(y, z) == w * 0x4_0000 + x * 0x1000 + y * 0x40 + z
  {
  }

  /** The characters of a text, as octets. */
  function Text(s: string): (r: seq<int>)
    ensures |r| == |s|
  {
    seq(|s|, i requires 0 <= i < |s| => s[i] as int)
  }

  /** Test vectors of section 10 of RFC 4648. */
  lemma {:induction false} Vectors()
    ensures Encoded([102, 111, 111, 98, 97]) == Text("Zm9vYmE=")
    ensures Encoded([102, 111, 111, 98]) == Text("Zm9vYg==")
  {
  }

  // ---------- The loops ----------

  lemma {:induction false} EncodedLength(s: Bytes)
    ensures |Encoded(s)| == 4 * (|s| / 3 + if |s| % 3 == 0 then 0 else 1)
    decreases |s|
  {
    hide Symbol, First, Second, Third, Fourth;
    if |s| >= 3 { EncodedLength(s[3..]); }
  }

  lemma {:induction false} EncodedNext(s: Bytes, i: nat)
    requires 3 * i + 3 <= |s|
    ensures Encoded(s[3 * i..]) ==
            [Symbol(First(s[3 * i])), Symbol(Second(s[3 * i], s[3 * i + 1])), Symbol(Third(s[3 * i + 1], s[3 * i + 2])),
             Symbol(Fourth(s[3 * i + 2]))] + Encoded(s[3 * i + 3..])
  {
    hide Symbol, First, Second, Third, Fourth;
    assert s[3 * i..][3..] == s[3 * i + 3..];
  }

  /** Four characters are put into the result. */
  method PutFour(result: array<Octet>, at: nat, c0: Octet, c1: Octet, c2: Octet, c3: Octet)
    requires at + 4 <= result.Length
    modifies result
    ensures result[..at + 4] == old(result[..at]) + [c0, c1, c2, c3]
  {
    result[at] := c0;
    result[at + 1] := c1;
    result[at + 2] := c2;
    result[at + 3] := c3;
    assert result[at..at + 4] == [c0, c1, c2, c3];
    assert result[..at + 4] == result[..at] + result[at..at + 4];
  }

  /** The last one or two octets, with their padding. */
  method PutRest(result: array<Octet>, at: nat, rest: Bytes)
    requires |rest| < 3 && at + (if rest == [] then 0 else 4) <= result.Length
    modifies result
    ensures result[..at + if rest == [] then 0 else 4] == old(result[..at]) + Encoded(rest)
  {
    hide Symbol, First, Second;
    if |rest| == 2 {
      PutFour(result, at, Symbol(First(rest[0])), Symbol(Second(rest[0], rest[1])), Symbol((rest[1] % 16) * 4), PAD);
    } else if |rest| == 1 {
      PutFour(result, at, Symbol(First(rest[0])), Symbol((rest[0] % 4) * 16), PAD, PAD);
    }
  }

  /** base64Encode; the result ends in a null character. */
  method Base64Encode(orig: Bytes) returns (result: array<Octet>)
    ensures fresh(result) && result[..] == Encoded(orig) + [0]
  {
    hide Symbol, First, Second, Third, Fourth, Encoded;
    EncodedLength(orig);
    var numOrig24BitValues := |orig| / 3;
    var havePadding := |orig| > numOrig24BitValues * 3;
    var numResultBytes := 4 * (numOrig24BitValues + if havePadding then 1 else 0);
    result := new Octet[numResultBytes + 1];
    assert orig[0..] == orig;
    for i := 0 to numOrig24BitValues
      invariant result[..4 * i] + Encoded(orig[3 * i..]) == Encoded(orig)
    {
      EncodedNext(orig, i);
      ghost var done := result[..4 * i];
      PutFour(result, 4 * i, Symbol(First(orig[3 * i])), Symbol(Second(orig[3 * i], orig[3 * i + 1])),
              Symbol(Third(orig[3 * i + 1], orig[3 * i + 2])), Symbol(Fourth(orig[3 * i + 2])));
      Regroup(done, result[4 * i..4 * i + 4], Encoded(orig[3 * i + 3..]));
    }
    PutRest(result, 4 * numOrig24BitValues, orig[3 * numOrig24BitValues..]);
    result[numResultBytes] := 0;
    assert result[..] == result[..numResultBytes] + [0];
  }

  /** initBase64DecodeTable */
  method InitBase64DecodeTable() returns (table: array<Octet>)
    ensures fresh(table) && table.Length == 256 && forall c :: 0 <= c < 256 ==> table[c] == DecodeOf(c)
  {
    table := new Octet[256](_ => INVALID);
    for i := 65 to 91
      invariant forall k :: 0 <= k < 256 ==> table[k] == if 65 <= k < i then DecodeOf(k) else INVALID
    {
      table[i] := 0 + (i - 65);
    }
    for i := 97 to 123
      invariant forall k :: 0 <= k < 256 ==> table[k] == if 65 <= k < 91 || 97 <= k < i then DecodeOf(k) else INVALID
    {
      table[i] := 26 + (i - 97);
    }
    for i := 48 to 58
      invariant forall k :: 0 <= k < 256 ==> table[k] == if 65 <= k < 91 || 97 <= k < 123 || 48 <= k < i then DecodeOf(k) else INVALID
    {
      table[i] := 52 + (i - 48);
    }
    table[43] := 62;
    table[47] := 63;
    table[61] := 0;
  }

  function PadSum(t: Bytes, j: nat, n: nat): nat
    requires j + n <= |t|
  {
    if n == 0 then 0 else PadSum(t, j, n - 1) + PadOf(t[j + n - 1])
  }

  lemma {:induction false} PadSumFour(t: Bytes, j: nat)
    requires j + 4 <= |t|
    ensures PadSum(t, j, 4) == PadOf(t[j]) + PadOf(t[j + 1]) + PadOf(t[j + 2]) + PadOf(t[j + 3])
  {
    hide PadOf;
    assert PadSum(t, j, 0) == 0;
    assert PadSum(t, j, 1) == PadOf(t[j]);
    assert PadSum(t, j, 2) == PadSum(t, j, 1) + PadOf(t[j + 1]);
    assert PadSum(t, j, 3) == PadSum(t, j, 2) + PadOf(t[j + 2]);
  }

  lemma {:induction false} PaddingNext(t: Bytes, j: nat)
    requires j <= |t|
    ensures j + 4 <= |t| ==> Padding(t[j..]) == PadSum(t, j, 4) + Padding(t[j + 4..])
    ensures j + 4 > |t| ==> Padding(t[j..]) == 0 && Groups(t[j..]) == []
  {
    hide PadOf;
    if j + 4 <= |t| {
      assert t[j..][4..] == t[j + 4..];
      PadSumFour(t, j);
    }
  }

  lemma {:induction false} GroupsNext(t: Bytes, j: nat)
    requires j + 4 <= |t|
    ensures Groups(t[j..]) ==
            [Join0(SixBits(t[j]), SixBits(t[j + 1])), Join1(SixBits(t[j + 1]), SixBits(t[j + 2])),
             Join2(SixBits(t[j + 2]), SixBits(t[j + 3]))] + Groups(t[j + 4..])
  {
    hide SixBits, Join0, Join1, Join2;
    assert t[j..][4..] == t[j + 4..];
  }

  /** The inner loop of base64Decode: one group of characters. */
  method ReadGroup(t: Bytes, j: nat, table: array<Octet>) returns (outTmp: array<Octet>, padding: nat)
    requires j + 4 <= |t| && table.Length == 256 && forall d :: 0 <= d < 256 ==> table[d] == DecodeOf(d)
    ensures fresh(outTmp) && outTmp.Length == 4 && forall i :: 0 <= i < 4 ==> outTmp[i] == SixBits(t[j + i])
    ensures padding == PadSum(t, j, 4)
  {
    hide DecodeOf;
    outTmp := new Octet[4];
    padding := 0;
    for i := 0 to 4
      invariant forall l :: 0 <= l < i ==> outTmp[l] == SixBits(t[j + l])
      invariant padding == PadSum(t, j, i)
    {
      var c := t[j + i];
      if c == PAD { padding := padding + 1; }
      outTmp[i] := table[c];
      if outTmp[i] >= 0x80 { outTmp[i] := 0; }
    }
  }

  method PutThree(out: array<Octet>, k: nat, b0: Octet, b1: Octet, b2: Octet)
    requires k + 3 <= out.Length
    modifies out
    ensures out[..k + 3] == old(out[..k]) + [b0, b1, b2]
  {
    out[k] := b0;
    out[k + 1] := b1;
    out[k + 2] := b2;
    assert out[k..k + 3] == [b0, b1, b2];
    assert out[..k + 3] == out[..k] + out[k..k + 3];
  }

  lemma {:induction false} TrimmedNext(s: Bytes, n: nat)
    ensures n > 0 && s != [] && s[|s| - 1] == 0 ==> Trimmed(s, n) == Trimmed(s[..|s| - 1], n - 1)
    ensures !(n > 0 && s != [] && s[|s| - 1] == 0) ==> Trimmed(s, n) == s
  {
  }

  /** The part of base64Decode that drops zeros; no more of them than there were padding characters. */
  method TrimTrailing(out: array<Octet>, k: nat, paddingCount: nat) returns (size: nat)
    requires k <= out.Length
    ensures size <= k && out[..size] == Trimmed(out[..k], paddingCount)
  {
    hide Trimmed;
    size := k;
    var n := paddingCount;
    while n > 0 && size > 0 && out[size - 1] == 0
      invariant size <= k && Trimmed(out[..size], n) == Trimmed(out[..k], paddingCount)
      decreases n
    {
      TrimmedNext(out[..size], n);
      assert out[..size][..size - 1] == out[..size - 1];
      size := size - 1;
      n := n - 1;
    }
    TrimmedNext(out[..size], n);
  }

  /** base64Decode */
  method Base64Decode(input: Bytes, trimTrailingZeros: bool) returns (result: Bytes)
    ensures result == Decoded(input, trimTrailingZeros)
  {
    hide DecodeOf, SixBits, Join0, Join1, Join2, Groups, Padding, PadSum, Trimmed;
    var table := InitBase64DecodeTable();
    var out := new Octet[|input| + 1];
    var k, paddingCount, j := 0, 0, 0;
    assert input[0..] == input;
    while j + 3 < |input|
      invariant j <= |input| && k <= j
      invariant table.Length == 256 && forall d :: 0 <= d < 256 ==> table[d] == DecodeOf(d)
      invariant out[..k] + Groups(input[j..]) == Groups(input)
      invariant paddingCount + Padding(input[j..]) == Padding(input)
      decreases |input| - j
    {
      PaddingNext(input, j);
      GroupsNext(input, j);
      var outTmp, padding := ReadGroup(input, j, table);
      ghost var done := out[..k];
      var b0, b1, b2 := Join0(outTmp[0], outTmp[1]), Join1(outTmp[1], outTmp[2]), Join2(outTmp[2], outTmp[3]);
      PutThree(out, k, b0, b1, b2);
      Regroup(done, [b0, b1, b2], Groups(input[j + 4..]));
      paddingCount, k, j := paddingCount + padding, k + 3, j + 4;
    }
    PaddingNext(input, j);
    assert out[..k] + [] == out[..k];
    if trimTrailingZeros {
      k := TrimTrailing(out, k, paddingCount);
    }
    result := out[..k];
  }

  // ---------- Lists of records ----------

  /** The first comma, or the length of the list. */
  function FieldEnd(s: Bytes): (e: nat)
    ensures e <= |s| && (e < |s| ==> s[e] == COMMA) && forall j :: 0 <= j < e ==> s[j] != COMMA
  {
    if s == [] || s[0] == COMMA then 0 else 1 + FieldEnd(s[1..])
  }

  function Split(s: Bytes): (fields: seq<Bytes>)
    ensures |fields| > 0
    decreases |s|
  {
    var e := FieldEnd(s);
    if e == |s| then [s] else [s[..e]] + Split(s[e + 1..])
  }

  function Joined(fields: seq<Bytes>): Bytes
    requires fields != []
  {
    if |fields| == 1 then fields[0] else fields[0] + [',' as int] + Joined(fields[1..])
  }

  function Mapped(fields: seq<Bytes>, trim: bool): (r: seq<Bytes>)
    ensures |r| == |fields|
  {
    seq(|fields|, i requires 0 <= i < |fields| => Decoded(fields[i], trim))
  }

  lemma {:induction false} FieldEndIs(s: Bytes, e: nat)
    requires e <= |s| && (e < |s| ==> s[e] == COMMA) && forall j :: 0 <= j < e ==> s[j] != COMMA
    ensures FieldEnd(s) == e
  {
    hide FieldEnd;
    var f := FieldEnd(s);
  }

  lemma {:induction false} SplitJoined(fields: seq<Bytes>)
    requires fields != [] && forall i :: 0 <= i < |fields| ==> COMMA !in fields[i]
    ensures Split(Joined(fields)) == fields
    decreases |fields|
  {
    hide FieldEnd;
    var f := fields[0];
    if |fields| == 1 {
      FieldEndIs(f, |f|);
    } else {
      var rest := Joined(fields[1..]);
      SplitJoined(fields[1..]);
      var s := f + [COMMA] + rest;
      FieldEndIs(s, |f|);
      assert s[..|f|] == f && s[|f| + 1..] == rest;
    }
  }

  lemma {:induction false} EncodedHasNone(s: Bytes)
    ensures COMMA !in Encoded(s) && 0 !in Encoded(s)
    decreases |s|
  {
    hide Symbol, First, Second, Third, Fourth;
    if |s| >= 3 { EncodedHasNone(s[3..]); }
  }

  function EncodedAll(records: seq<Bytes>): (r: seq<Bytes>)
    ensures |r| == |records|
  {
    seq(|records|, i requires 0 <= i < |records| => Encoded(records[i]))
  }

  /** What parseSPropParameterSets returns. */
  function Records(s: Bytes): seq<Bytes> {
    Mapped(Split(s), true)
  }

  /** A comma-joined list of encoded records gives back the records, in order. */
  lemma {:induction false} RecordsOfJoined(records: seq<Bytes>)
    requires records != []
    ensures Records(Joined(EncodedAll(records))) == records
  {
    hide Encoded, Decoded, Joined, Split;
    var fields := EncodedAll(records);
    forall i | 0 <= i < |fields|
      ensures COMMA !in fields[i] && Decoded(fields[i], true) == records[i]
    {
      EncodedHasNone(records[i]);
      DecodeInvertsEncode(records[i]);
    }
    SplitJoined(fields);
  }

  /** The list with its commas replaced by null characters, and one more at its end. */
  function Nulled(s: Bytes): (r: Bytes)
    ensures |r| == |s| + 1
    ensures forall i :: 0 <= i < |s| ==> r[i] == if s[i] == COMMA then 0 else s[i]
    ensures r[|s|] == 0
  {
    seq(|s|, i requires 0 <= i < |s| => if s[i] == COMMA then 0 else s[i]) + [0]
  }

  lemma {:induction false} SplitCount(s: Bytes)
    ensures |Split(s)| == 1 + Commas(s)
    decreases |s|
  {
    hide FieldEnd;
    var e := FieldEnd(s);
    if e < |s| {
      SplitCount(s[e + 1..]);
      CommasBehind(s, e);
    } else {
      NoCommas(s);
    }
  }

  function Commas(s: Bytes): nat {
    if s == [] then 0 else (if s[0] == COMMA then 1 else 0) + Commas(s[1..])
  }

  lemma {:induction false} CommasBehind(s: Bytes, e: nat)
    requires e < |s| && s[e] == COMMA && forall j :: 0 <= j < e ==> s[j] != COMMA
    ensures Commas(s) == 1 + Commas(s[e + 1..])
    decreases e
  {
    if e > 0 {
      CommasBehind(s[1..], e - 1);
      assert s[1..][e..] == s[e + 1..];
    }
  }

  lemma {:induction false} NoCommas(s: Bytes)
    requires forall j :: 0 <= j < |s| ==> s[j] != COMMA
    ensures Commas(s) == 0
    decreases |s|
  {
    if s != [] { NoCommas(s[1..]); }
  }

  lemma {:induction false} CommasNext(s: Bytes, i: nat)
    requires i < |s|
    ensures Commas(s[i..]) == (if s[i] == COMMA then 1 else 0) + Commas(s[i + 1..])
  {
    assert s[i..][1..] == s[i + 1..];
  }

  /** The first loop of parseSPropParameterSets: commas become null characters, and are counted. */
  method ReplaceCommas(str: Bytes, inStr: array<Octet>) returns (numSPropRecords: nat)
    requires 0 !in str && inStr.Length == |str| + 1 && inStr[..] == str + [0]
    modifies inStr
    ensures inStr[..] == Nulled(str) && numSPropRecords == |Split(str)|
  {
    hide Split, Commas;
    SplitCount(str);
    numSPropRecords := 1;
    var s := 0;
    assert str[0..] == str;
    while inStr[s] != 0
      invariant s <= |str| && forall i :: 0 <= i < inStr.Length ==> inStr[i] == if i < s then Nulled(str)[i] else (str + [0])[i]
      invariant numSPropRecords + Commas(str[s..]) == 1 + Commas(str)
      decreases |str| - s
    {
      CommasNext(str, s);
      if inStr[s] == COMMA {
        numSPropRecords := numSPropRecords + 1;
        inStr[s] := 0;
      }
      s := s + 1;
    }
    assert forall i :: 0 <= i < |str| ==> str[i] in str;
    NoCommas(str[s..]);
  }

  /** strlen */
  method StrLen(a: array<Octet>, s: nat) returns (n: nat)
    requires s < a.Length && a[a.Length - 1] == 0
    ensures s + n < a.Length && a[s + n] == 0 && forall k :: s <= k < s + n ==> a[k] != 0
  {
    n := 0;
    while a[s + n] != 0
      invariant s + n < a.Length && forall k :: s <= k < s + n ==> a[k] != 0
      decreases a.Length - n
    {
      n := n + 1;
    }
  }

  lemma {:induction false} FieldAt(str: Bytes, s: nat, n: nat)
    requires 0 !in str && s + n <= |str| && Nulled(str)[s + n] == 0 && forall k :: s <= k < s + n ==> Nulled(str)[k] != 0
    ensures FieldEnd(str[s..]) == n && Nulled(str)[s..s + n] == str[s..s + n]
  {
    hide FieldEnd;
    if s + n < |str| { assert str[s + n] in str; }
    forall k | s <= k < s + n
      ensures str[k] != COMMA && Nulled(str)[k] == str[k]
    {
      assert Nulled(str)[k] != 0;
    }
    FieldEndIs(str[s..], n);
  }

  /** parseSPropParameterSets */
  method ParseSPropParameterSets(str: Bytes) returns (records: seq<Bytes>)
    requires 0 !in str
    ensures records == Records(str)
  {
    hide Split, Decoded, FieldEnd, Nulled;
    var inStr := new Octet[|str| + 1](i requires 0 <= i <= |str| => if i < |str| then str[i] else 0);
    assert inStr[..] == str + [0];
    var numSPropRecords := ReplaceCommas(str, inStr);
    records := [];
    var s: nat := 0;
    assert str[0..] == str;
    for i := 0 to numSPropRecords
      invariant inStr[..] == Nulled(str) && |records| == i
      invariant i < numSPropRecords ==> s <= |str| && i + |Split(str[s..])| == numSPropRecords
      invariant i < numSPropRecords ==> records + Mapped(Split(str[s..]), true) == Records(str)
      invariant i == numSPropRecords ==> records == Records(str)
    {
      assert inStr[|str|] == Nulled(str)[|str|];
      var n := StrLen(inStr, s);
      FieldAt(str, s, n);
      var record := Base64Decode(inStr[s..s + n], true);
      NextField(str, s, n, records, Records(str));
      records := records + [record];
      s := s + n + 1;
    }
  }

  lemma {:induction false} NextField(str: Bytes, s: nat, n: nat, done: seq<Bytes>, all: seq<Bytes>)
    requires s + n <= |str| && FieldEnd(str[s..]) == n && all == done + Mapped(Split(str[s..]), true)
    ensures var next := done + [Decoded(str[s..s + n], true)];
      if s + n == |str| then |Split(str[s..])| == 1 && all == next
      else |Split(str[s..])| == 1 + |Split(str[s + n + 1..])| && all == next + Mapped(Split(str[s + n + 1..]), true)
  {
    hide Decoded, FieldEnd;
    var t := str[s..];
    assert t[..n] == str[s..s + n];
    if s + n < |str| {
      assert t[n + 1..] == str[s + n + 1..];
    } else {
      assert t == str[s..s + n];
    }
  }
}
