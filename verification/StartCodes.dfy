/** Annex B byte streams of ITU-T H.264 and H.265: start codes, and the NAL units between them. */
module StartCodes {
  import opened Codecs
  import opened Options

  type Bytes = seq<bv8>

  /** 00 00 00 01 begins at `i`. */
  predicate LongCodeAt(s: Bytes, i: nat) {
    i + 4 <= |s| && s[i] == 0 && s[i + 1] == 0 && s[i + 2] == 0 && s[i + 3] == 1
  }

  /** A start code of three or four bytes begins at `i`. Four bytes are looked at in either case. */
  predicate CodeAt(s: Bytes, i: nat) {
    i + 4 <= |s| && s[i] == 0 && s[i + 1] == 0 && (s[i + 2] == 1 || (s[i + 2] == 0 && s[i + 3] == 1))
  }

  function CodeLength(s: Bytes, i: nat): (n: nat)
    requires CodeAt(s, i)
    ensures 3 <= n <= 4 && i + n <= |s|
  {
    if s[i + 2] == 0 then 4 else 3
  }

  /** The search that goes byte by byte. */
  function Find(s: Bytes, i: nat): (r: Option<nat>)
    ensures r.Some? ==> i <= r.value && CodeAt(s, r.value) && forall j :: i <= j < r.value ==> !CodeAt(s, j)
    ensures r.None? ==> forall j :: i <= j ==> !CodeAt(s, j)
    decreases |s| - i
  {
    if i + 4 > |s| then None else if CodeAt(s, i) then Some(i) else Find(s, i + 1)
  }

  function FindLong(s: Bytes, i: nat): (r: Option<nat>)
    ensures r.Some? ==> i <= r.value && LongCodeAt(s, r.value) && forall j :: i <= j < r.value ==> !LongCodeAt(s, j)
    ensures r.None? ==> forall j :: i <= j ==> !LongCodeAt(s, j)
    decreases |s| - i
  {
    if i + 4 > |s| then None else if LongCodeAt(s, i) then Some(i) else FindLong(s, i + 1)
  }

  lemma {:induction false} FindIs(s: Bytes, i: nat, j: nat)
    requires i <= j && CodeAt(s, j) && forall k :: i <= k < j ==> !CodeAt(s, k)
    ensures Find(s, i) == Some(j)
  {
    hide Find, CodeAt;
    var r := Find(s, i);
  }

  lemma {:induction false} FindNone(s: Bytes, i: nat)
    requires forall k :: i <= k && k + 4 <= |s| ==> !CodeAt(s, k)
    ensures Find(s, i) == None
  {
    hide Find;
    var r := Find(s, i);
  }

  lemma {:induction false} FindLongIs(s: Bytes, i: nat, j: nat)
    requires i <= j && LongCodeAt(s, j) && forall k :: i <= k < j ==> !LongCodeAt(s, k)
    ensures FindLong(s, i) == Some(j)
  {
    hide FindLong, LongCodeAt;
    var r := FindLong(s, i);
  }

  /** Whatever is still to come, no start code begins at `i`. */
  predicate NeverCode(s: Bytes, i: nat) {
    i < |s| && (
      || s[i] != 0 || (i + 1 < |s| && s[i + 1] != 0) || (i + 2 < |s| && s[i + 2] > 1)
      || (i + 3 < |s| && s[i + 2] == 0 && s[i + 3] != 1))
  }

  lemma {:induction false} NeverStays(s: Bytes, t: Bytes, i: nat)
    requires s <= t && NeverCode(s, i)
    ensures NeverCode(t, i) && !CodeAt(t, i)
  {
  }

  lemma {:induction false} OneAtATime(s: Bytes, i: nat)
    requires i + 4 <= |s| && !CodeAt(s, i)
    ensures NeverCode(s, i)
  {
  }

  /** Four bytes can be skipped when the fourth is neither 0 nor 1: no start code begins at any of them. */
  lemma {:induction false} FourAtOnce(s: Bytes, i: nat)
    requires i + 4 <= |s| && s[i + 3] > 1 && !CodeAt(s, i)
    ensures forall j :: i <= j < i + 4 ==> NeverCode(s, j)
  {
  }

  /** What arrives later does not change what has been found. */
  lemma {:induction false} CodeStays(s: Bytes, t: Bytes, j: nat)
    requires s <= t && j + 4 <= |s|
    ensures CodeAt(s, j) <==> CodeAt(t, j)
    ensures LongCodeAt(s, j) <==> LongCodeAt(t, j)
  {
  }

  lemma {:induction false} FindStays(s: Bytes, t: Bytes, i: nat)
    requires s <= t && Find(s, i).Some?
    ensures Find(t, i) == Find(s, i) && CodeLength(t, Find(s, i).value) == CodeLength(s, Find(s, i).value)
  {
    hide Find;
    var j := Find(s, i).value;
    forall k | i <= k <= j
      ensures CodeAt(s, k) <==> CodeAt(t, k)
    {
      CodeStays(s, t, k);
    }
    FindIs(t, i, j);
  }

  lemma {:induction false} FindLongStays(s: Bytes, t: Bytes, i: nat)
    requires s <= t && FindLong(s, i).Some?
    ensures FindLong(t, i) == FindLong(s, i)
  {
    hide FindLong;
    var j := FindLong(s, i).value;
    forall k | i <= k <= j
      ensures LongCodeAt(s, k) <==> LongCodeAt(t, k)
    {
      CodeStays(s, t, k);
    }
    FindLongIs(t, i, j);
  }

  // ---------- NAL unit types ----------

  function NalType(h: Codec, first: bv8): bv8 {
    match h
    case H264 => first & 0x1F
    case H265 => (first & 0x7E) >> 1
  }

  predicate IsVCL(h: Codec, t: bv8) {
    match h
    case H264 => 0 < t <= 5
    case H265 => t <= 31
  }

  predicate IsEOF(h: Codec, t: bv8) {
    match h
    case H264 => t == 10 || t == 11
    case H265 => t == 36 || t == 37
  }

  predicate UsuallyBeginsAccessUnit(h: Codec, t: bv8) {
    match h
    case H264 => 6 <= t <= 9 || 14 <= t <= 18
    case H265 => 32 <= t <= 35 || t == 39 || 41 <= t <= 44 || 48 <= t <= 55
  }

  /** The next unit must be looked at to tell whether this one ends an access unit. */
  predicate LooksAhead(h: Codec, first: bv8) {
    !IsEOF(h, NalType(h, first)) && !UsuallyBeginsAccessUnit(h, NalType(h, first))
  }

  predicate EndsAccessUnit(h: Codec, first: bv8, s: Bytes, next: nat)
    requires LooksAhead(h, first) ==> next + 3 <= |s|
  {
    IsEOF(h, NalType(h, first)) ||
    (LooksAhead(h, first) &&
     var t := NalType(h, s[next]);
     if IsVCL(h, t) then (if h.H264? then s[next + 1] else s[next + 2]) & 0x80 != 0 else UsuallyBeginsAccessUnit(h, t))
  }

  /** Table 7-1 of H.264: 1 to 5 are slices, 10 and 11 end a sequence or a stream, 6 to 9 and 14 to 18 come in front of a picture.
      A unit ends an access unit if it is of the second kind, or if it is not of the third and the next unit is a slice whose first
      bit behind the header is set, or of the third kind. */
  lemma {:induction false} EndsAccessUnit264(first: bv8, s: Bytes, next: nat)
    requires next + 3 <= |s|
    ensures var t, u := first & 0x1F, s[next] & 0x1F;
      && (LooksAhead(H264, first) <==> t !in {6, 7, 8, 9, 10, 11, 14, 15, 16, 17, 18})
      && (EndsAccessUnit(H264, first, s, next) <==>
            || t in {10, 11}
            || (t !in {6, 7, 8, 9, 14, 15, 16, 17, 18}
                && ((u in {1, 2, 3, 4, 5} && s[next + 1] >= 0x80) || u in {6, 7, 8, 9, 14, 15, 16, 17, 18})))
  {
    TopBit(s[next + 1]);
  }

  /** Table 7-1 of H.265, with the type in the middle of the first header byte and the slice behind the second: types below 32 are
      slices, 36 and 37 end a sequence or a stream. */
  lemma {:induction false} EndsAccessUnit265(first: bv8, s: Bytes, next: nat)
    requires next + 3 <= |s|
    ensures var t, u := (first >> 1) & 0x3F, (s[next] >> 1) & 0x3F;
      && (LooksAhead(H265, first) <==> t != 36 && t != 37 && !InFront(t))
      && (EndsAccessUnit(H265, first, s, next) <==>
            t == 36 || t == 37 || (!InFront(t) && ((u < 32 && s[next + 2] >= 0x80) || InFront(u))))
  {
    TopBit(s[next + 2]);
  }

  /** Parameter sets, delimiters, prefix information, and the reserved and unspecified types that stand in front of a picture. */
  predicate InFront(t: bv8) {
    t in {32, 33, 34, 35, 39, 41, 42, 43, 44, 48, 49, 50, 51, 52, 53, 54, 55}
  }

  lemma {:induction false} TopBit(b: bv8)
    ensures b & 0x80 != 0 <==> b >= 0x80
  {
  }

  // ---------- The units of a stream ----------

  /** The unit at `start` ends at a start code, and as much follows as must be looked at. */
  predicate Complete(h: Codec, s: Bytes, start: nat) {
    start < |s| && Find(s, start).Some?
    && (LooksAhead(h, s[start]) ==> Find(s, start).value + CodeLength(s, Find(s, start).value) + 3 <= |s|)
  }

  function Unit(h: Codec, s: Bytes, start: nat): Bytes
    requires Complete(h, s, start)
  {
    s[start..Find(s, start).value]
  }

  function NextStart(h: Codec, s: Bytes, start: nat): (n: nat)
    requires Complete(h, s, start)
    ensures start < n <= |s|
  {
    Find(s, start).value + CodeLength(s, Find(s, start).value)
  }

  /** The units that can be told apart in what has arrived, from `start` on. */
  function Units(h: Codec, s: Bytes, start: nat): seq<Bytes>
    decreases |s| - start
  {
    if Complete(h, s, start) then [Unit(h, s, start)] + Units(h, s, NextStart(h, s, start)) else []
  }

  lemma {:induction false} CompleteStays(h: Codec, s: Bytes, t: Bytes, start: nat)
    requires s <= t && Complete(h, s, start)
    ensures Complete(h, t, start) && Unit(h, t, start) == Unit(h, s, start) && NextStart(h, t, start) == NextStart(h, s, start)
  {
    hide Find, LooksAhead;
    FindStays(s, t, start);
  }

  /** Units that have been told apart stay as they are when more arrives; new ones come after them. */
  lemma {:induction false} UnitsGrow(h: Codec, s: Bytes, t: Bytes, start: nat)
    requires s <= t
    ensures Units(h, s, start) <= Units(h, t, start)
    decreases |s| - start
  {
    hide Complete, Unit, NextStart;
    if Complete(h, s, start) {
      CompleteStays(h, s, t, start);
      UnitsGrow(h, s, t, NextStart(h, s, start));
    }
  }

  /** The units of a stream: they begin behind the first long start code. */
  function UnitsIn(h: Codec, s: Bytes): seq<Bytes> {
    match FindLong(s, 0)
    case None => []
    case Some(i) => Units(h, s, i + 4)
  }

  /** Cutting `units` off from `first` on leads to `start`. */
  predicate Cut(h: Codec, s: Bytes, first: nat, units: seq<Bytes>, start: nat)
    decreases |units|
  {
    if units == [] then first == start
    else Complete(h, s, first) && units[0] == Unit(h, s, first) && Cut(h, s, NextStart(h, s, first), units[1..], start)
  }

  lemma {:induction false} CutUnits(h: Codec, s: Bytes, first: nat, units: seq<Bytes>, start: nat)
    requires Cut(h, s, first, units, start)
    ensures Units(h, s, first) == units + Units(h, s, start)
    decreases |units|
  {
    hide Complete, Unit, NextStart;
    if units != [] {
      CutUnits(h, s, NextStart(h, s, first), units[1..], start);
      assert units == [units[0]] + units[1..];
    }
  }

  lemma {:induction false} CutMore(h: Codec, s: Bytes, first: nat, units: seq<Bytes>, start: nat)
    requires Cut(h, s, first, units, start) && Complete(h, s, start)
    ensures Cut(h, s, first, units + [Unit(h, s, start)], NextStart(h, s, start))
    decreases |units|
  {
    hide Complete, Unit, NextStart;
    var u := Unit(h, s, start);
    if units == [] {
      assert ([] + [u])[1..] == [];
    } else {
      CutMore(h, s, NextStart(h, s, first), units[1..], start);
      assert (units + [u])[1..] == units[1..] + [u];
    }
  }

  lemma {:induction false} CutStays(h: Codec, s: Bytes, t: Bytes, first: nat, units: seq<Bytes>, start: nat)
    requires s <= t && Cut(h, s, first, units, start)
    ensures Cut(h, t, first, units, start)
    decreases |units|
  {
    hide Complete, Unit, NextStart;
    if units != [] {
      CompleteStays(h, s, t, first);
      CutStays(h, s, t, NextStart(h, s, first), units[1..], start);
    }
  }

  // ---------- Written streams ----------

  /** A NAL unit as it is written: after a start code of either length. */
  datatype Element = Element(long: bool, unit: Bytes)

  function Code(long: bool): Bytes {
    if long then [0, 0, 0, 1] else [0, 0, 1]
  }

  function Written(es: seq<Element>): Bytes {
    if es == [] then [] else Code(es[0].long) + es[0].unit + Written(es[1..])
  }

  function UnitsOf(es: seq<Element>): seq<Bytes> {
    seq(|es|, i requires 0 <= i < |es| => es[i].unit)
  }

  /** A unit as Annex B demands: no start code within it, and no zero at its end. */
  predicate Clean(u: Bytes) {
    && u != [] && u[|u| - 1] != 0
    && forall i :: 0 <= i < |u| - 2 && u[i] == 0 && u[i + 1] == 0 ==> u[i + 2] > 1
  }

  predicate AllClean(es: seq<Element>) {
    && (forall i :: 0 <= i < |es| ==> Clean(es[i].unit))
    && (es != [] ==> |es[|es| - 1].unit| >= 3)
  }

  /** The search that starts at a clean unit stops at the start code behind it. */
  lemma {:induction false} FindBehindUnit(s: Bytes, start: nat, u: Bytes, long: bool, rest: Bytes)
    requires Clean(u) && start + |u| + |Code(long)| < |s|
    requires s[start..] == u + (Code(long) + rest)
    ensures Find(s, start) == Some(start + |u|) && CodeLength(s, start + |u|) == |Code(long)|
  {
    hide Find, Clean, CodeAt, CodeLength;
    UnitAt(s, start, u, Code(long) + rest);
    RestAt(s, start, u, [], Code(long) + rest);
    assert [] + (Code(long) + rest) == Code(long) + rest;
    var j := start + |u|;
    CodeFound(s, j, long, rest);
    forall k | start <= k < j
      ensures !CodeAt(s, k)
    {
      NotInUnit(s, start, u, k);
    }
    FindIs(s, start, j);
  }

  lemma {:induction false} CodeFound(s: Bytes, j: nat, long: bool, rest: Bytes)
    requires j <= |s| && s[j..] == Code(long) + rest && rest != []
    ensures CodeAt(s, j) && CodeLength(s, j) == |Code(long)|
  {
    assert forall k :: 0 <= k < |s| - j ==> s[j + k] == s[j..][k];
    assert s[j + 0] == 0 && s[j + 1] == 0;
  }

  lemma {:induction false} NotInUnit(s: Bytes, start: nat, u: Bytes, k: nat)
    requires Clean(u) && start + |u| <= |s| && s[start..start + |u|] == u
    requires start <= k < start + |u|
    ensures !CodeAt(s, k)
  {
    var i := k - start;
    var t := s[start..start + |u|];
    assert s[start + i] == t[i];
    if i + 1 < |u| { assert s[start + (i + 1)] == t[i + 1]; }
    if i + 2 < |u| { assert s[start + (i + 2)] == t[i + 2]; }
  }

  lemma {:induction false} NoCodeInLast(s: Bytes, start: nat, u: Bytes)
    requires Clean(u) && start <= |s| && s[start..] == u
    ensures Find(s, start) == None
  {
    hide Find;
    assert s[start..start + |u|] == s[start..];
    forall k | start <= k && k + 4 <= |s|
      ensures !CodeAt(s, k)
    {
      NotInUnit(s, start, u, k);
    }
    FindNone(s, start);
  }

  lemma {:induction false} WrittenLong(es: seq<Element>)
    requires AllClean(es) && es != []
    ensures |Written(es)| >= |Code(es[0].long)| + 3
    decreases |es|
  {
    if |es| > 1 { WrittenLong(es[1..]); }
  }

  /** From a written stream come back the units that were written, except that the last one, behind which no start code
      follows, never does. */
  lemma {:induction false} UnitsOfWritten(h: Codec, s: Bytes, start: nat, es: seq<Element>)
    requires es != [] && AllClean(es) && start <= |s| && s[start..] == es[0].unit + Written(es[1..])
    ensures Units(h, s, start) == UnitsOf(es[..|es| - 1])
    decreases |es|
  {
    hide Find, Clean, LooksAhead, Units, Written, AllClean, Code;
    var u := es[0].unit;
    CleanParts(es);
    if |es| == 1 {
      assert es[1..] == [] && Written([]) == [] by { WrittenNothing(); }
      assert u + [] == u;
      NoCodeInLast(s, start, u);
      UnitsEnd(h, s, start);
    } else {
      var code, rest := Code(es[1].long), es[1].unit + Written(es[2..]);
      WrittenStep(es[1..]);
      assert es[1..][1..] == es[2..] && es[1..][0] == es[1];
      UnitAt(s, start, u, code + rest);
      RestAt(s, start, u, code, rest);
      var next := start + |u| + |code|;
      FindBehindUnit(s, start, u, es[1].long, rest);
      UnitsStep(h, s, start, u, |code|);
      UnitsOfWritten(h, s, next, es[1..]);
      UnitsOfStep(es);
    }
  }

  lemma {:induction false} UnitsOfStep(es: seq<Element>)
    requires |es| > 1
    ensures UnitsOf(es[..|es| - 1]) == [es[0].unit] + UnitsOf(es[1..][..|es[1..]| - 1])
  {
  }

  lemma {:induction false} WrittenNothing()
    ensures Written([]) == []
  {
  }

  lemma {:induction false} WrittenStep(es: seq<Element>)
    requires es != []
    ensures Written(es) == Code(es[0].long) + (es[0].unit + Written(es[1..]))
  {
    hide Written, Code;
    assert Written(es) == Code(es[0].long) + es[0].unit + Written(es[1..]) by { WrittenDef(es); }
  }

  lemma {:induction false} WrittenDef(es: seq<Element>)
    requires es != []
    ensures Written(es) == Code(es[0].long) + es[0].unit + Written(es[1..])
  {
    hide Code;
  }

  lemma {:induction false} CleanParts(es: seq<Element>)
    requires es != [] && AllClean(es)
    ensures Clean(es[0].unit) && |es[0].unit| > 0 && |Code(es[0].long)| <= 4
    ensures |es| > 1 ==> AllClean(es[1..]) && |es[1].unit + Written(es[2..])| >= 3
  {
    hide Code;
    assert Clean(es[0].unit);
    NonEmpty(es[0].unit);
    if |es| > 1 {
      assert AllClean(es[1..]);
      if |es| > 2 {
        assert es[1..][1..] == es[2..];
        assert AllClean(es[2..]);
        WrittenLong(es[2..]);
      }
    }
    CodeShort(es[0].long);
  }

  lemma {:induction false} CodeShort(long: bool)
    ensures 3 <= |Code(long)| <= 4
  {
  }

  lemma {:induction false} UnitsEnd(h: Codec, s: Bytes, start: nat)
    requires Find(s, start) == None
    ensures Units(h, s, start) == []
  {
    hide Find;
  }

  lemma {:induction false} UnitsStep(h: Codec, s: Bytes, start: nat, u: Bytes, codeLength: nat)
    requires u != [] && start + |u| + codeLength + 3 <= |s| && s[start..start + |u|] == u
    requires Find(s, start) == Some(start + |u|) && CodeLength(s, start + |u|) == codeLength
    ensures Units(h, s, start) == [u] + Units(h, s, start + |u| + codeLength)
  {
    hide Find, LooksAhead, CodeLength;
  }

  lemma {:induction false} NonEmpty(u: Bytes)
    requires Clean(u)
    ensures |u| > 0
  {
  }

  lemma {:induction false} UnitAt(s: Bytes, start: nat, u: Bytes, rest: Bytes)
    requires start <= |s| && s[start..] == u + rest
    ensures start + |u| <= |s| && s[start..start + |u|] == u
  {
    assert s[start..start + |u|] == s[start..][..|u|];
  }

  lemma {:induction false} RestAt(s: Bytes, start: nat, u: Bytes, code: Bytes, rest: Bytes)
    requires start <= |s| && s[start..] == u + (code + rest)
    ensures start + |u| + |code| <= |s| && s[start + |u| + |code|..] == rest
  {
    assert s[start + |u| + |code|..] == s[start..][|u| + |code|..];
  }
}
