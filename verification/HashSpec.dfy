/** The chained hash table as a value: hash indices, buckets as sequences of entries, and the map they stand for. */
module HashSpec {
  import opened Bits
  import opened BitReading
  import opened Options

  const U64_MODULUS := 0x1_0000_0000_0000_0000
  const SMALL_HASH_TABLE_SIZE := 4
  const REBUILD_MULTIPLIER := 3
  const MAX_BUCKETS := 0x4000_0000

  /** A key's contents, compared as the key type says: a string (of signed characters), one machine word, or several words. */
  datatype Key = Text(chars: seq<int>) | OneWord(word: nat) | Words(words: seq<nat>)

  /** A pointer; NULL is 0. */
  type Pointer = nat

  datatype Pair = Pair(key: Key, value: Pointer)

  // ---------- Hash indices ----------

  /** Bitwise and. */
  function And(a: nat, b: nat): nat {
    if a == 0 || b == 0 then 0 else (a % 2) * (b % 2) + 2 * And(a / 2, b / 2)
  }

  function TextHash(chars: seq<int>): nat {
    if chars == [] then 0
    else
      var r := TextHash(chars[..|chars| - 1]);
      (r + (8 * r + chars[|chars| - 1] % U32_MODULUS)) % U32_MODULUS
  }

  function Sum(words: seq<nat>): nat {
    if words == [] then 0 else (Sum(words[..|words| - 1]) + words[|words| - 1]) % U64_MODULUS
  }

  function RandomIndex(i: nat, downShift: nat, mask: nat): nat {
    And(ShiftRight((i * 1103515245) % U64_MODULUS, downShift), mask)
  }

  function HashIndex(key: Key, downShift: nat, mask: nat): nat {
    match key
    case Text(chars) => And(TextHash(chars), mask)
    case OneWord(w) => RandomIndex(w, downShift, mask)
    case Words(ws) => RandomIndex(Sum(ws), downShift, mask)
  }

  /** With a mask of ones a bitwise and is a remainder. */
  lemma {:induction false} AndIsMod(a: nat, k: nat)
    ensures And(a, Pow2(k) - 1) == a % Pow2(k)
    decreases k
  {
    hide And;
    if a == 0 {
      ZeroMod(Pow2(k));
      AndZero(Pow2(k) - 1);
    } else if k == 0 {
      AndZero(a);
    } else {
      var p := Pow2(k - 1);
      AndIsMod(a / 2, k - 1);
      HalfOfRemainder(a, p);
      AndStep(a, p);
    }
  }

  lemma {:induction false} AndZero(a: nat)
    ensures And(0, a) == And(a, 0) == 0
  {
  }

  lemma {:induction false} AndStep(a: nat, p: nat)
    requires a > 0 && p > 0
    ensures And(a, 2 * p - 1) == a % 2 + 2 * And(a / 2, p - 1)
  {
    assert (2 * p - 1) / 2 == p - 1 && (2 * p - 1) % 2 == 1;
  }

  lemma {:induction false} ZeroMod(d: nat)
    requires d > 0
    ensures 0 % d == 0
  {
  }

  lemma {:induction false} ModRange(a: nat, d: nat)
    requires d > 0
    ensures a % d < d
  {
  }

  /** A table after `level` rebuilds: four times as many buckets each time. */
  function NumBuckets(level: nat): nat {
    Pow2(2 * level + 2)
  }

  function DownShift(level: nat): nat
    requires level <= 14
  {
    28 - 2 * level
  }

  function Index(key: Key, level: nat): (i: nat)
    requires level <= 14
    ensures i < NumBuckets(level)
  {
    IndexInRange(key, level);
    HashIndex(key, DownShift(level), NumBuckets(level) - 1)
  }

  lemma {:induction false} IndexInRange(key: Key, level: nat)
    requires level <= 14
    ensures HashIndex(key, DownShift(level), NumBuckets(level) - 1) < NumBuckets(level)
  {
    hide And, TextHash, Sum, Pow2;
    hide ShiftRight;
    var k, d := 2 * level + 2, DownShift(level);
    var x := match key
      case Text(chars) => TextHash(chars)
      case OneWord(w) => ShiftRight((w * 1103515245) % U64_MODULUS, d)
      case Words(ws) => ShiftRight((Sum(ws) * 1103515245) % U64_MODULUS, d);
    AndIsMod(x, k);
    ModRange(x, Pow2(k));
  }

  /** A string as the number whose digits to base 9 are its (signed) characters. */
  function Polynomial(chars: seq<int>): int {
    if chars == [] then 0 else 9 * Polynomial(chars[..|chars| - 1]) + chars[|chars| - 1]
  }

  function Total(words: seq<nat>): nat {
    if words == [] then 0 else Total(words[..|words| - 1]) + words[|words| - 1]
  }

  /** The bucket of a string is that number's remainder; that of a word or of several lies in the middle of their product with the
      multiplier of rand(), cut to 64 bits. Wrap-around on the way makes no difference. */
  lemma {:induction false} IndexIs(key: Key, level: nat)
    requires level <= 14
    ensures Index(key, level) == match key
              case Text(chars) => Polynomial(chars) % NumBuckets(level)
              case OneWord(w) => w * 1103515245 % U64_MODULUS / Pow2(28 - 2 * level) % NumBuckets(level)
              case Words(ws) => Total(ws) * 1103515245 % U64_MODULUS / Pow2(28 - 2 * level) % NumBuckets(level)
  {
    hide NumBuckets, Polynomial, Total, Index, Pow2;
    match key {
      case Text(chars) => TextIndex(chars, level);
      case OneWord(w) => WordIndex(w, level);
      case Words(ws) =>
        SumIs(ws);
        WordIndex(Sum(ws), level);
        assert Index(Words(ws), level) == Index(OneWord(Sum(ws)), level) by { WordsAsOne(ws, level); }
        Multiple(Total(ws) * 1103515245, Total(ws) / U64_MODULUS * 1103515245, U64_MODULUS);
    }
  }

  lemma {:induction false} WordsAsOne(words: seq<nat>, level: nat)
    requires level <= 14
    ensures Index(Words(words), level) == Index(OneWord(Sum(words)), level)
  {
    hide RandomIndex, NumBuckets;
  }

  lemma {:induction false} TextIndex(chars: seq<int>, level: nat)
    requires level <= 14
    ensures Index(Text(chars), level) == Polynomial(chars) % NumBuckets(level)
  {
    hide And, TextHash, Pow2, Polynomial;
    AndIsMod(TextHash(chars), 2 * level + 2);
    TextHashIs(chars);
    Pow2Table();
    Pow2Add(2 * level + 2, 30 - 2 * level);
    ModOfMod(Polynomial(chars), NumBuckets(level), Pow2(30 - 2 * level));
  }

  lemma {:induction false} WordIndex(w: nat, level: nat)
    requires level <= 14
    ensures Index(OneWord(w), level) == w * 1103515245 % U64_MODULUS / Pow2(28 - 2 * level) % NumBuckets(level)
  {
    hide And, ShiftRight, Pow2;
    var r := w * 1103515245 % U64_MODULUS;
    AndIsMod(ShiftRight(r, DownShift(level)), 2 * level + 2);
    ShiftIsQuotient(r, DownShift(level));
  }

  lemma {:induction false} ShiftIsQuotient(v: nat, n: nat)
    ensures ShiftRight(v, n) == v / Pow2(n)
    decreases n
  {
    if n > 0 {
      ShiftIsQuotient(v / 2, n - 1);
      QuotientOfQuotient(v, 2, Pow2(n - 1));
    }
  }

  lemma {:induction false} QuotientOfQuotient(v: nat, d: nat, e: nat)
    requires d > 0 && e > 0 && d * e > 0
    ensures v / d / e == v / (d * e)
  {
    var a, r := v / d, v % d;
    var q, t := a / e, a % e;
    assert a == q * e + t && t + 1 <= e;
    assert a * d == (q * e) * d + t * d;
    assert (q * e) * d == q * (d * e);
    assert t * d + r < d * e by { assert (t + 1) * d <= e * d; }
    DivUnique(v, d * e, q, t * d + r);
  }

  lemma {:induction false} Multiple(x: int, k: int, d: nat)
    requires d > 0
    ensures (x - k * d) % d == x % d
  {
    var q := x / d;
    assert x == q * d + x % d;
    assert x - k * d == (q - k) * d + x % d;
    DivUnique(x - k * d, d, q - k, x % d);
  }

  lemma {:induction false} ModOfMod(x: int, d: nat, e: nat)
    requires d > 0 && e > 0 && d * e > 0
    ensures x % (d * e) % d == x % d
  {
    var q := x / (d * e);
    assert x % (d * e) == x - q * (d * e);
    assert q * (d * e) == (q * e) * d;
    Multiple(x, q * e, d);
  }

  lemma {:induction false} TextHashIs(chars: seq<int>)
    ensures TextHash(chars) == Polynomial(chars) % U32_MODULUS
    decreases |chars|
  {
    if chars != [] {
      var front, c := chars[..|chars| - 1], chars[|chars| - 1];
      TextHashIs(front);
      var k, j := Polynomial(front) / U32_MODULUS, c / U32_MODULUS;
      Multiple(9 * Polynomial(front) + c, 9 * k + j, U32_MODULUS);
    }
  }

  lemma {:induction false} SumIs(words: seq<nat>)
    ensures Sum(words) == Total(words) % U64_MODULUS
    decreases |words|
  {
    if words != [] {
      var front, w := words[..|words| - 1], words[|words| - 1];
      SumIs(front);
      Multiple(Total(front) + w, Total(front) / U64_MODULUS, U64_MODULUS);
    }
  }

  lemma {:induction false} BucketsPerLevel(level: nat)
    ensures NumBuckets(0) == SMALL_HASH_TABLE_SIZE
    ensures NumBuckets(level + 1) == 4 * NumBuckets(level)
    ensures 4 * (NumBuckets(level) - 1) + 3 == NumBuckets(level + 1) - 1
    ensures level <= 14 <==> NumBuckets(level) <= MAX_BUCKETS
    ensures level == 14 ==> NumBuckets(level) == MAX_BUCKETS
  {
    hide Pow2;
    TwoMore(2 * level + 2);
    SmallPowers();
    if level <= 14 { Pow2Monotone(2 * level + 2, 30); } else { Pow2Monotone(32, 2 * level + 2); }
  }

  lemma {:induction false} TwoMore(n: nat)
    ensures Pow2(n + 2) == 4 * Pow2(n)
  {
    assert Pow2(n + 2) == 2 * Pow2(n + 1);
  }

  lemma {:induction false} SmallPowers()
    ensures Pow2(2) == 4 && Pow2(30) == MAX_BUCKETS && Pow2(32) > MAX_BUCKETS
  {
    Pow2Table();
    assert Pow2(31) == 2 * Pow2(30);
    assert Pow2(2) == 4;
  }

  // ---------- Chains ----------

  type Chain = seq<Pair>

  predicate Distinct(c: Chain) {
    forall i, j :: 0 <= i < j < |c| ==> c[i].key != c[j].key
  }

  /** Every entry is in the bucket its hash selects, and no key occurs twice. */
  predicate WellHashed(buckets: seq<Chain>, level: nat) {
    && level <= 14 && |buckets| == NumBuckets(level)
    && (forall b :: 0 <= b < |buckets| ==> Distinct(buckets[b]))
    && (forall b, i :: 0 <= b < |buckets| && 0 <= i < |buckets[b]| ==> Index(buckets[b][i].key, level) == b)
  }

  /** lookupKey within a chain. */
  function FindKey(c: Chain, key: Key): (i: nat)
    ensures i <= |c|
    ensures i < |c| ==> c[i].key == key
    ensures forall j :: 0 <= j < i ==> c[j].key != key
  {
    if c == [] || c[0].key == key then 0 else 1 + FindKey(c[1..], key)
  }

  lemma {:induction false} FindKeyUnique(c: Chain, key: Key, i: nat)
    requires i <= |c| && (i < |c| ==> c[i].key == key)
    requires forall j :: 0 <= j < i ==> c[j].key != key
    ensures FindKey(c, key) == i
  {
    hide FindKey;
    var f := FindKey(c, key);
  }

  function LookupIn(buckets: seq<Chain>, level: nat, key: Key): Option<Pointer>
    requires level <= 14 && |buckets| == NumBuckets(level)
  {
    var c := buckets[Index(key, level)];
    var i := FindKey(c, key);
    if i < |c| then Some(c[i].value) else None
  }

  /** The table stands for a finite map. */
  ghost predicate Represents(buckets: seq<Chain>, level: nat, m: map<Key, Pointer>)
    requires level <= 14 && |buckets| == NumBuckets(level)
  {
    forall key :: LookupIn(buckets, level, key) == if key in m then Some(m[key]) else None
  }

  datatype Table = Table(buckets: seq<Chain>, level: nat, numEntries: nat)

  ghost predicate Refines(t: Table, m: map<Key, Pointer>) {
    && WellHashed(t.buckets, t.level) && Represents(t.buckets, t.level, m) && t.numEntries == |m|
    && t.numEntries < REBUILD_MULTIPLIER * NumBuckets(t.level)
  }

  // ---------- The operations ----------

  /** Sets the value of the entry with a key, in front of the chain if there is none. */
  function SetIn(c: Chain, key: Key, value: Pointer): Chain {
    var i := FindKey(c, key);
    if i < |c| then c[i := Pair(key, value)] else [Pair(key, value)] + c
  }

  function DropIn(c: Chain, key: Key): Chain {
    var i := FindKey(c, key);
    if i < |c| then c[..i] + c[i + 1..] else c
  }

  function Flatten(buckets: seq<Chain>): Chain {
    if buckets == [] then [] else buckets[0] + Flatten(buckets[1..])
  }

  /** Moving entries one by one to the front of their new chains. */
  function PushAll(buckets: seq<Chain>, level: nat, entries: Chain): (r: seq<Chain>)
    requires level <= 14 && |buckets| == NumBuckets(level)
    ensures |r| == |buckets|
    decreases |entries|
  {
    if entries == [] then buckets
    else
      var p, b := entries[0], Index(entries[0].key, level);
      PushAll(buckets[b := [p] + buckets[b]], level, entries[1..])
  }

  function Empty(level: nat): (b: seq<Chain>)
    ensures |b| == NumBuckets(level)
  {
    seq(NumBuckets(level), _ => [])
  }

  function Rebuild(t: Table): Table
    requires t.level < 14 && |t.buckets| == NumBuckets(t.level)
  {
    Table(PushAll(Empty(t.level + 1), t.level + 1, Flatten(t.buckets)), t.level + 1, t.numEntries)
  }

  /** There are fewer than three times 2^30 entries, so that the bucket count still fits 32 bits after a rebuild. */
  predicate Growable(t: Table) {
    t.numEntries + 1 < REBUILD_MULTIPLIER * MAX_BUCKETS
  }

  function Insert(t: Table, key: Key, value: Pointer): Table
    requires t.level <= 14 && |t.buckets| == NumBuckets(t.level)
  {
    var b := Index(key, t.level);
    var c := t.buckets[b];
    Table(t.buckets[b := SetIn(c, key, value)], t.level, if FindKey(c, key) < |c| then t.numEntries else t.numEntries + 1)
  }

  function Add(t: Table, key: Key, value: Pointer): Table
    requires t.level <= 14 && |t.buckets| == NumBuckets(t.level) && Growable(t)
  {
    var u := Insert(t, key, value);
    if u.numEntries >= REBUILD_MULTIPLIER * NumBuckets(u.level) then
      BucketsPerLevel(t.level);
      Rebuild(u)
    else u
  }

  /** The value a key had, or NULL. */
  function OldValue(t: Table, key: Key): Pointer
    requires t.level <= 14 && |t.buckets| == NumBuckets(t.level)
  {
    var r := LookupIn(t.buckets, t.level, key);
    if r.Some? then r.value else 0
  }

  function Remove(t: Table, key: Key): Table
    requires t.level <= 14 && |t.buckets| == NumBuckets(t.level)
  {
    var b := Index(key, t.level);
    var c := t.buckets[b];
    if FindKey(c, key) < |c| && t.numEntries > 0 then Table(t.buckets[b := DropIn(c, key)], t.level, t.numEntries - 1) else t
  }

  // ---------- The map under the operations ----------

  lemma {:induction false} SetInFinds(c: Chain, key: Key, value: Pointer, k: Key)
    requires Distinct(c)
    ensures var s := SetIn(c, key, value);
      && Distinct(s)
      && (forall p :: p in s ==> p == Pair(key, value) || p in c)
      && var i, j := FindKey(s, k), FindKey(c, k);
         if k == key then i < |s| && s[i].value == value
         else (i < |s| <==> j < |c|) && (i < |s| ==> s[i] == c[j])
  {
    hide FindKey;
    var s, f := SetIn(c, key, value), FindKey(c, key);
    if f < |c| {
      FindKeyUnique(s, k, FindKey(c, k));
    } else {
      FindKeyUnique(s, k, if k == key then 0 else 1 + FindKey(c, k));
    }
  }

  lemma {:induction false} DropInFinds(c: Chain, key: Key, k: Key)
    requires Distinct(c)
    ensures var s := DropIn(c, key);
      && Distinct(s)
      && (forall p :: p in s ==> p in c)
      && var i, j := FindKey(s, k), FindKey(c, k);
         if k == key then i == |s|
         else (i < |s| <==> j < |c|) && (i < |s| ==> s[i] == c[j])
  {
    hide FindKey;
    var s, f, j := DropIn(c, key), FindKey(c, key), FindKey(c, k);
    if f < |c| {
      FindKeyUnique(s, k, if k == key then |s| else if j < f then j else j - 1);
    }
  }
}
