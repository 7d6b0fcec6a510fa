/** The 32-bit bitmaps that stand for sets of event triggers. */
module TriggerMasks {
  const MAX_NUM_EVENT_TRIGGERS := 32

  /** A set of triggers, as callers pass it: a 32-bit bitmap. */
  type EventTriggerId = bv32

  function And(x: bv32, y: bv32): bv32 {
    x & y
  }

  function Or(x: bv32, y: bv32): bv32 {
    x | y
  }

  /** x &~ y */
  function AndNot(x: bv32, y: bv32): bv32 {
    x & !y
  }

  /** x >> 1 */
  function Half(x: bv32): bv32 {
    x >> 1
  }

  /** The bit of trigger `n`: the high bit belongs to trigger 0. */
  function MaskOf(n: nat): EventTriggerId {
    if n == 0 then 0x8000_0000 else Half(MaskOf(n - 1))
  }

  predicate Has(ids: EventTriggerId, n: nat) {
    And(ids, MaskOf(n)) != 0
  }

  /** The triggers of a bitmap. */
  ghost function Ids(ids: EventTriggerId): set<nat> {
    set n: nat | n < MAX_NUM_EVENT_TRIGGERS && Has(ids, n)
  }

  function MaskUnion(n: nat): EventTriggerId {
    if n == 0 then 0 else Or(MaskUnion(n - 1), MaskOf(n - 1))
  }

  /** Four steps from a mask whose value is known. */
  lemma {:induction false} FourMasks(n: nat, mask: bv32, below: bv32)
    requires MaskOf(n) == mask && MaskUnion(n) == below
    ensures MaskOf(n + 4) == Half(Half(Half(Half(mask))))
    ensures MaskUnion(n + 4) == Or(Or(Or(Or(below, mask), Half(mask)), Half(Half(mask))), Half(Half(Half(mask))))
  {
    hide Or, Half, MaskOf, MaskUnion;
    MaskStep(n);
    MaskStep(n + 1);
    MaskStep(n + 2);
    MaskStep(n + 3);
  }

  lemma {:induction false} MaskStep(n: nat)
    ensures MaskOf(n + 1) == Half(MaskOf(n)) && MaskUnion(n + 1) == Or(MaskUnion(n), MaskOf(n))
  {
    hide Or, Half;
  }

  lemma {:induction false} MaskTable()
    ensures MaskOf(0) == 0x8000_0000 && MaskOf(31) == 1 && MaskOf(32) == 0
    ensures MaskUnion(32) == 0xFFFF_FFFF
  {
    FourMasks(0, 0x8000_0000, 0);
    FourMasks(4, 0x800_0000, 0xF000_0000);
    FourMasks(8, 0x80_0000, 0xFF00_0000);
    FourMasks(12, 0x8_0000, 0xFFF0_0000);
    FourMasks(16, 0x8000, 0xFFFF_0000);
    FourMasks(20, 0x800, 0xFFFF_F000);
    FourMasks(24, 0x80, 0xFFFF_FF00);
    FourMasks(28, 0x8, 0xFFFF_FFF0);
    MaskStep(28);
    MaskStep(29);
    MaskStep(30);
  }

  // ---------- Single bits ----------

  predicate SingleBit(x: bv32) {
    x != 0 && x & (x - 1) == 0
  }

  lemma {:induction false} HalfBit(x: bv32)
    requires SingleBit(x) && Half(x) != 0
    ensures SingleBit(Half(x)) && Half(x) < x
  {
  }

  lemma {:induction false} BitsDisjoint(x: bv32, y: bv32)
    requires SingleBit(x) && SingleBit(y) && y < x
    ensures And(x, y) == And(y, x) == 0
  {
  }

  lemma {:induction false} SelectUnion(a: bv32, b: bv32, m: bv32)
    ensures And(Or(a, b), m) != 0 <==> And(a, m) != 0 || And(b, m) != 0
  {
    hide And, Or;
    OrDistributes(a, b, m);
    OrZero(And(a, m), And(b, m));
  }

  lemma {:induction false} OrDistributes(a: bv32, b: bv32, m: bv32)
    ensures And(Or(a, b), m) == Or(And(a, m), And(b, m))
  {
  }

  lemma {:induction false} OrZero(x: bv32, y: bv32)
    ensures Or(x, y) == 0 <==> x == 0 && y == 0
  {
  }

  lemma {:induction false} SelectClear(a: bv32, k: bv32, m: bv32)
    requires SingleBit(m)
    ensures And(AndNot(a, k), m) != 0 <==> And(a, m) != 0 && And(k, m) == 0
  {
    hide And, AndNot, SingleBit;
    AndNotMoves(a, k, m);
    AllOrNothing(k, m);
    AndFacts(a);
  }

  lemma {:induction false} AndNotMoves(a: bv32, k: bv32, m: bv32)
    ensures And(AndNot(a, k), m) == And(a, AndNot(m, And(k, m)))
    ensures AndNot(m, 0) == m && AndNot(m, m) == 0
  {
  }

  lemma {:induction false} AllOrNothing(k: bv32, m: bv32)
    requires SingleBit(m)
    ensures And(k, m) == 0 || And(k, m) == m
  {
  }

  lemma {:induction false} SelectNone(a: bv32, x: bv32, y: bv32)
    requires And(a, x) == 0 && And(a, y) == 0
    ensures And(a, Or(x, y)) == 0
  {
  }

  lemma {:induction false} AndFacts(a: bv32)
    ensures And(a, a) == a && And(a, 0) == 0 && And(0, a) == 0 && And(a, 0xFFFF_FFFF) == a
  {
  }

  lemma {:induction false} SameBit(a: bv32, m: bv32)
    requires SingleBit(m) && And(a, m) != 0 && AndNot(a, m) == 0
    ensures a == m
  {
  }

  lemma {:induction false} FirstIsBit()
    ensures SingleBit(MaskOf(0))
  {
  }

  // ---------- The masks of the triggers ----------

  lemma {:induction false} MaskZeroStays(n: nat, k: nat)
    requires n <= k && MaskOf(n) == 0
    ensures MaskOf(k) == 0
    decreases k
  {
    if n < k { MaskZeroStays(n, k - 1); }
  }

  lemma {:induction false} MaskNonZero(n: nat)
    requires n < MAX_NUM_EVENT_TRIGGERS
    ensures MaskOf(n) != 0
  {
    hide MaskOf, MaskUnion, SingleBit, Half;
    MaskTable();
    if MaskOf(n) == 0 { MaskZeroStays(n, 31); }
  }

  lemma {:induction false} MaskIsBit(n: nat)
    requires n < MAX_NUM_EVENT_TRIGGERS
    ensures SingleBit(MaskOf(n))
    decreases n
  {
    hide MaskOf, MaskUnion, SingleBit, Half;
    if n > 0 {
      MaskIsBit(n - 1);
      MaskStep(n - 1);
      MaskNonZero(n);
      HalfBit(MaskOf(n - 1));
    } else {
      FirstIsBit();
    }
  }

  lemma {:induction false} MasksFall(i: nat, j: nat)
    requires i < j < MAX_NUM_EVENT_TRIGGERS
    ensures MaskOf(j) < MaskOf(i)
    decreases j
  {
    hide MaskOf, MaskUnion, SingleBit, Half;
    MaskStep(j - 1);
    MaskNonZero(j);
    MaskIsBit(j - 1);
    HalfBit(MaskOf(j - 1));
    if i < j - 1 { MasksFall(i, j - 1); }
  }

  lemma {:induction false} MasksDisjoint(i: nat, j: nat)
    requires i < MAX_NUM_EVENT_TRIGGERS && j < MAX_NUM_EVENT_TRIGGERS
    ensures Has(MaskOf(i), j) <==> i == j
  {
    hide MaskOf, SingleBit, And;
    MaskIsBit(i);
    MaskIsBit(j);
    MaskNonZero(i);
    if i < j {
      MasksFall(i, j);
      BitsDisjoint(MaskOf(i), MaskOf(j));
    } else if j < i {
      MasksFall(j, i);
      BitsDisjoint(MaskOf(j), MaskOf(i));
    } else {
      AndFacts(MaskOf(i));
    }
  }

  /** The mask of the next trigger in rotation. */
  lemma {:induction false} NextMask(n: nat)
    requires n < MAX_NUM_EVENT_TRIGGERS
    ensures MaskOf((n + 1) % MAX_NUM_EVENT_TRIGGERS) == if Half(MaskOf(n)) == 0 then 0x8000_0000 else Half(MaskOf(n))
  {
    hide MaskOf, MaskUnion, SingleBit, Half;
    MaskTable();
    MaskStep(n);
    if n < 31 { MaskNonZero(n + 1); }
  }

  // ---------- Bitmaps as sets ----------

  lemma {:induction false} IdsOr(a: EventTriggerId, b: EventTriggerId)
    ensures Ids(Or(a, b)) == Ids(a) + Ids(b)
  {
    hide MaskOf, And, Or;
    forall n: nat | n < MAX_NUM_EVENT_TRIGGERS
      ensures Has(Or(a, b), n) <==> Has(a, n) || Has(b, n)
    {
      SelectUnion(a, b, MaskOf(n));
    }
  }

  lemma {:induction false} IdsAndNot(a: EventTriggerId, k: EventTriggerId)
    ensures Ids(AndNot(a, k)) == Ids(a) - Ids(k)
  {
    hide MaskOf, And, AndNot, SingleBit;
    forall n: nat | n < MAX_NUM_EVENT_TRIGGERS
      ensures Has(AndNot(a, k), n) <==> Has(a, n) && !Has(k, n)
    {
      MaskIsBit(n);
      SelectClear(a, k, MaskOf(n));
    }
  }

  lemma {:induction false} IdsOfMask(n: nat)
    requires n < MAX_NUM_EVENT_TRIGGERS
    ensures Ids(MaskOf(n)) == {n}
  {
    hide MaskOf, Has;
    forall i: nat | i < MAX_NUM_EVENT_TRIGGERS
      ensures Has(MaskOf(n), i) <==> i == n
    {
      MasksDisjoint(n, i);
    }
  }

  lemma {:induction false} NoneBelow(a: EventTriggerId, n: nat)
    requires forall i: nat :: i < n ==> !Has(a, i)
    ensures And(a, MaskUnion(n)) == 0
    decreases n
  {
    hide And, Or, MaskOf;
    if n > 0 {
      NoneBelow(a, n - 1);
      assert !Has(a, n - 1);
      SelectNone(a, MaskUnion(n - 1), MaskOf(n - 1));
    } else {
      AndFacts(a);
    }
  }

  lemma {:induction false} NoIds(a: EventTriggerId)
    ensures Ids(a) == {} <==> a == 0
  {
    hide MaskOf, And, MaskUnion;
    if Ids(a) == {} {
      forall i: nat | i < MAX_NUM_EVENT_TRIGGERS
        ensures !Has(a, i)
      {
        assert i !in Ids(a);
      }
      NoneBelow(a, 32);
      MaskTable();
      AndFacts(a);
    } else {
      var n :| n in Ids(a);
      AndFacts(MaskOf(n));
    }
  }

  /** The test of the fast paths: a bitmap is the mask of a trigger just when it holds that trigger alone. */
  lemma {:induction false} IsMaskOf(a: EventTriggerId, n: nat)
    requires n < MAX_NUM_EVENT_TRIGGERS
    ensures a == MaskOf(n) <==> Ids(a) == {n}
  {
    hide MaskOf, And, AndNot, SingleBit;
    IdsOfMask(n);
    if Ids(a) == {n} {
      IdsAndNot(a, MaskOf(n));
      NoIds(AndNot(a, MaskOf(n)));
      MaskIsBit(n);
      assert n in Ids(a);
      SameBit(a, MaskOf(n));
    }
  }
}
