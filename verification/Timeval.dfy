/** Seconds-and-microseconds arithmetic, with the casts to 32-bit int of the original. */
module Timevals {
  const MILLION := 1_000_000
  const INT_MAX := 0x7FFF_FFFF

  datatype Timeval = Timeval(secs: int, usecs: int)

  const DELAY_ZERO := Timeval(0, 0)
  const ETERNITY := Timeval(INT_MAX, MILLION - 1)

  /** The cast of a long to an int. */
  function CastToInt(x: int): int {
    var u := x % 0x1_0000_0000;
    if u < 0x8000_0000 then u else u - 0x1_0000_0000
  }

  predicate Normal(t: Timeval) {
    t.secs >= 0 && 0 <= t.usecs < MILLION
  }

  /** A normal value whose seconds fit in 32 bits. */
  predicate Interval(t: Timeval) {
    Normal(t) && t.secs <= INT_MAX
  }

  function Micros(t: Timeval): int {
    t.secs * MILLION + t.usecs
  }

  predicate AtLeast(a: Timeval, b: Timeval) {
    a.secs > b.secs || (a.secs == b.secs && a.usecs >= b.usecs)
  }

  predicate Equal(a: Timeval, b: Timeval) {
    AtLeast(a, b) && AtLeast(b, a)
  }

  /** operator+= */
  function Plus(a: Timeval, b: Timeval): Timeval {
    var secs, usecs := a.secs + b.secs, a.usecs + b.usecs;
    if usecs >= MILLION then Timeval(secs + 1, usecs - MILLION) else Timeval(secs, usecs)
  }

  /** operator-= */
  function Minus(a: Timeval, b: Timeval): Timeval {
    var secs, usecs := a.secs - b.secs, a.usecs - b.usecs;
    var r := if CastToInt(usecs) < 0 then Timeval(secs - 1, usecs + MILLION) else Timeval(secs, usecs);
    if CastToInt(r.secs) < 0 then DELAY_ZERO else r
  }

  /** operator-, the interval between two times. */
  function Between(a: Timeval, b: Timeval): Timeval {
    var secs, usecs := a.secs - b.secs, a.usecs - b.usecs;
    var r := if CastToInt(usecs) < 0 then Timeval(secs - 1, usecs + MILLION) else Timeval(secs, usecs);
    if CastToInt(r.secs) < 0 then DELAY_ZERO else r
  }

  lemma {:induction false} ZeroMicros()
    ensures Interval(DELAY_ZERO) && Micros(DELAY_ZERO) == 0
  {
  }

  lemma {:induction false} EternityMicros()
    ensures Interval(ETERNITY) && Micros(ETERNITY) == INT_MAX * MILLION + (MILLION - 1)
  {
  }

  function Max(a: int, b: int): int {
    if a >= b then a else b
  }

  lemma {:induction false} CompareMicros(a: Timeval, b: Timeval)
    requires Normal(a) && Normal(b)
    ensures AtLeast(a, b) <==> Micros(a) >= Micros(b)
    ensures Equal(a, b) <==> Micros(a) == Micros(b)
    ensures Equal(a, b) <==> a == b
  {
  }

  lemma {:induction false} PlusMicros(a: Timeval, b: Timeval)
    requires Normal(a) && Normal(b)
    ensures Normal(Plus(a, b)) && Micros(Plus(a, b)) == Micros(a) + Micros(b)
  {
  }

  lemma {:induction false} CastSmall(x: int)
    requires -0x8000_0000 <= x < 0x8000_0000
    ensures CastToInt(x) == x
  {
  }

  /** The whole seconds of the difference, after the borrow. */
  function SecondsApart(a: Timeval, b: Timeval): int {
    a.secs - b.secs - (if a.usecs < b.usecs then 1 else 0)
  }

  /** Subtraction stops at zero, and stays normal, as long as the difference in seconds fits an int. */
  lemma {:induction false} MinusMicros(a: Timeval, b: Timeval)
    requires Normal(a) && Normal(b) && -0x8000_0000 <= SecondsApart(a, b) < 0x8000_0000
    ensures Normal(Minus(a, b)) && Micros(Minus(a, b)) == Max(0, Micros(a) - Micros(b))
    ensures Between(a, b) == Minus(a, b)
    ensures Interval(a) ==> Interval(Minus(a, b))
  {
    hide CastToInt;
    var secs, usecs := a.secs - b.secs, a.usecs - b.usecs;
    CastSmall(usecs);
    CastSmall(if usecs < 0 then secs - 1 else secs);
  }

  /** The time between two times that are less than ETERNITY apart. */
  lemma {:induction false} BetweenMicros(a: Timeval, b: Timeval)
    requires Normal(a) && Normal(b) && 0 <= Micros(a) - Micros(b) < Micros(ETERNITY)
    ensures Interval(Between(a, b)) && Micros(Between(a, b)) == Micros(a) - Micros(b)
  {
    hide CastToInt;
    MinusMicros(a, b);
  }

  /** Without that limit subtraction is right exactly when the difference keeps its sign in the cast to int:
      a difference of 2^31 seconds counts as negative and becomes zero. */
  lemma {:induction false} MinusExactIff(a: Timeval, b: Timeval)
    requires Normal(a) && Normal(b)
    ensures Micros(Minus(a, b)) == Max(0, Micros(a) - Micros(b))
            <==> (CastToInt(SecondsApart(a, b)) < 0 <==> SecondsApart(a, b) < 0)
  {
    hide CastToInt;
    CastSmall(a.usecs - b.usecs);
    CastZero();
  }

  lemma {:induction false} CastZero()
    ensures CastToInt(0) == 0
  {
  }

  lemma {:induction false} MinusLosesLongIntervals()
    ensures Micros(Minus(Timeval(0x8000_0000, 0), DELAY_ZERO)) == 0
  {
  }
}
