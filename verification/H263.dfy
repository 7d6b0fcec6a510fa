/** H.263 streams: picture start codes, the frames between them, and frame durations. */
module H263 {
  import opened Options
  import Bits

  type Bytes = seq<bv8>

  const HEADER_SIZE := 5
  const START_CODE_SIZE := 3
  const FRAME_RATE := 30
  const U32_MODULUS := 0x1_0000_0000
  const U64_MODULUS := 0x1_0000_0000_0000_0000

  /** 00 00 and one of 80..83 begin at `i`. */
  predicate CodeAt(s: Bytes, i: nat) {
    i + START_CODE_SIZE <= |s| && s[i] == 0 && s[i + 1] == 0 && 0x80 <= s[i + 2] <= 0x83
  }

  function Find(s: Bytes, i: nat): (r: Option<nat>)
    ensures r.Some? ==> i <= r.value && CodeAt(s, r.value) && forall j :: i <= j < r.value ==> !CodeAt(s, j)
    ensures r.None? ==> forall j :: i <= j ==> !CodeAt(s, j)
    decreases |s| - i
  {
    if i + START_CODE_SIZE > |s| then None else if CodeAt(s, i) then Some(i) else Find(s, i + 1)
  }

  lemma {:induction false} FindIs(s: Bytes, i: nat, j: nat)
    requires i <= j && CodeAt(s, j) && forall k :: i <= k < j ==> !CodeAt(s, k)
    ensures Find(s, i) == Some(j)
  {
    hide Find, CodeAt;
    var r := Find(s, i);
  }

  lemma {:induction false} FindNone(s: Bytes, i: nat)
    requires forall k :: i <= k && k + START_CODE_SIZE <= |s| ==> !CodeAt(s, k)
    ensures Find(s, i) == None
  {
    hide Find;
    var r := Find(s, i);
  }

  // ---------- The automaton ----------

  /** fStates; -1 is the end. */
  function Next(row: int, b: bv8): int {
    if row == 0 then (if b == 0 then 1 else 0)
    else if row == 1 then (if b == 0 then 2 else 0)
    else if b == 0 then 2
    else if 0x80 <= b <= 0x83 then -1
    else 0
  }

  /** The row after the bytes from `p` to `j`, none of which end a start code: the number of zeros at the end, at most two. */
  predicate RowAt(s: Bytes, p: nat, j: nat, row: int)
    requires p <= j <= |s|
  {
    && 0 <= row <= 2
    && (row >= 1 <==> j - p >= 1 && s[j - 1] == 0)
    && (row == 2 <==> j - p >= 2 && s[j - 1] == 0 && s[j - 2] == 0)
    && forall i :: p <= i && i + START_CODE_SIZE <= j ==> !CodeAt(s, i)
  }

  lemma {:induction false} RowStep(s: Bytes, p: nat, j: nat, row: int)
    requires p <= j < |s| && RowAt(s, p, j, row)
    ensures Next(row, s[j]) != -1 ==> RowAt(s, p, j + 1, Next(row, s[j]))
    ensures Next(row, s[j]) == -1 ==> p <= j - 2 && Find(s, p) == Some(j - 2)
    ensures Find(s, p) == Some(j - 2) ==> Next(row, s[j]) == -1
  {
    hide Find;
    if Next(row, s[j]) == -1 {
      FindIs(s, p, j - 2);
    } else {
      assert j - 2 >= p ==> !CodeAt(s, j - 2);
    }
  }

  // ---------- Frames ----------

  /** The frame between start codes at `c` and `d`, as it is given out. A frame of five bytes is taken for the very first
      one, and the header of the next frame is put in its place. */
  function FrameAt(s: Bytes, c: nat, d: nat): Bytes
    requires c + HEADER_SIZE <= d && d + HEADER_SIZE <= |s|
  {
    if d == c + HEADER_SIZE then s[d..d + HEADER_SIZE] else s[c..d]
  }

  /** The start code behind the header at `c` has arrived, with its header. */
  predicate Ended(s: Bytes, c: nat) {
    Find(s, c + HEADER_SIZE).Some? && Find(s, c + HEADER_SIZE).value + HEADER_SIZE <= |s|
  }

  function Frames(s: Bytes, c: nat): seq<Bytes>
    decreases |s| - c
  {
    if Ended(s, c) then [FrameAt(s, c, Find(s, c + HEADER_SIZE).value)] + Frames(s, Find(s, c + HEADER_SIZE).value) else []
  }

  /** Where the frames that have ended stop. */
  function FramesEnd(s: Bytes, c: nat): (e: nat)
    requires c <= |s|
    ensures c <= e <= |s|
    decreases |s| - c
  {
    if Ended(s, c) then FramesEnd(s, Find(s, c + HEADER_SIZE).value) else c
  }

  function Concat(frames: seq<Bytes>): Bytes {
    if frames == [] then [] else frames[0] + Concat(frames[1..])
  }

  /** A frame comes out as it stands in the stream exactly when it is longer than its header (or equal to the next one). */
  lemma {:induction false} FrameIntactIff(s: Bytes, c: nat, d: nat)
    requires c + HEADER_SIZE <= d && d + HEADER_SIZE <= |s|
    ensures FrameAt(s, c, d) == s[c..d] <==> d > c + HEADER_SIZE || s[c..c + HEADER_SIZE] == s[d..d + HEADER_SIZE]
  {
  }

  /** No frame is as short as its header. */
  predicate AllLong(s: Bytes, c: nat)
    decreases |s| - c
  {
    Ended(s, c) ==> Find(s, c + HEADER_SIZE).value > c + HEADER_SIZE && AllLong(s, Find(s, c + HEADER_SIZE).value)
  }

  /** Frames longer than their headers tile the stream: nothing is lost, and nothing comes out twice. */
  lemma {:induction false} FramesTile(s: Bytes, c: nat)
    requires c <= |s| && AllLong(s, c)
    ensures Concat(Frames(s, c)) == s[c..FramesEnd(s, c)]
    decreases |s| - c
  {
    hide Find, Concat, Frames;
    if Ended(s, c) {
      var d := Find(s, c + HEADER_SIZE).value;
      FramesTile(s, d);
      FramesStep(s, c, d);
      ConcatFirst(s[c..d], Frames(s, d));
      Adjacent(s, c, d, FramesEnd(s, d));
    } else {
      FramesNone(s, c);
    }
  }

  lemma {:induction false} FramesNone(s: Bytes, c: nat)
    requires !Ended(s, c)
    ensures Frames(s, c) == [] && Concat([]) == []
  {
  }

  lemma {:induction false} FramesStep(s: Bytes, c: nat, d: nat)
    requires Ended(s, c) && d == Find(s, c + HEADER_SIZE).value > c + HEADER_SIZE
    ensures Frames(s, c) == [s[c..d]] + Frames(s, d) && c <= |s| && FramesEnd(s, c) == FramesEnd(s, d)
  {
    hide Find;
  }

  lemma {:induction false} ConcatFirst(f: Bytes, frames: seq<Bytes>)
    ensures Concat([f] + frames) == f + Concat(frames)
  {
    assert ([f] + frames)[1..] == frames;
  }

  lemma {:induction false} Adjacent(s: Bytes, c: nat, d: nat, e: nat)
    requires c <= d <= e <= |s|
    ensures s[c..e] == s[c..d] + s[d..e]
  {
  }

  // ---------- Durations ----------

  /** GetTRDifference */
  function TRDifference(next: nat, current: nat): (d: nat)
    requires next < 0x100 && current < 0x100
    ensures d < 0x100
  {
    if current > next then next + (0x100 - current) else next - current
  }

  /** The step between two times less than 256 units apart is found from their 8-bit references. */
  lemma {:induction false} DifferenceOfTimes(t: nat, u: nat)
    requires t <= u < t + 0x100
    ensures TRDifference(u % 0x100, t % 0x100) == u - t
  {
  }

  /** The temporal reference of a header, as ParseShortHeader takes it from two bytes. */
  function TROf(header: Bytes): bv8
    requires |header| >= 4
  {
    ((header[2] << 6) & 0xC0) | ((header[3] >> 2) & 0x3F)
  }

  /** The number in the eight bits behind the 22 bits of a picture start code. */
  function Reference(frame: Bytes): nat
    requires |frame| >= 4
  {
    Bits.Value(Bits.BitsOf(frame)[22..30])
  }

  lemma {:induction false} TRBits(header: Bytes)
    requires |header| >= 4
    ensures var r, h2, h3 := Bits.ByteBits(TROf(header)), header[2], header[3];
      && r[..2] == [Bits.BitOf(h2, 6), Bits.BitOf(h2, 7)]
      && r[2..5] == [Bits.BitOf(h3, 0), Bits.BitOf(h3, 1), Bits.BitOf(h3, 2)]
      && r[5..] == [Bits.BitOf(h3, 3), Bits.BitOf(h3, 4), Bits.BitOf(h3, 5)]
  {
  }

  /** The shifts and masks put together just the bits of the temporal reference. */
  lemma {:induction false} TROfIsReference(header: Bytes)
    requires |header| >= 4
    ensures Bits.ByteNumber(TROf(header)) == Reference(header) < 0x100
  {
    hide Bits.ByteBits, Bits.BitOf, Bits.BitsOf, Bits.Value, Bits.FirstValue, TROf;
    TRBits(header);
    var r, all := Bits.ByteBits(TROf(header)), Bits.BitsOf(header);
    assert r == r[..2] + r[2..5] + r[5..];
    Bits.BitOfByte(header, 2, 6, 22);
    Bits.BitOfByte(header, 2, 7, 23);
    Bits.BitOfByte(header, 3, 0, 24);
    Bits.BitOfByte(header, 3, 1, 25);
    Bits.BitOfByte(header, 3, 2, 26);
    Bits.BitOfByte(header, 3, 3, 27);
    Bits.BitOfByte(header, 3, 4, 28);
    Bits.BitOfByte(header, 3, 5, 29);
    assert all[22..30] == r;
  }

  /** CalculateDuration: the count of units (32 bits), the presentation time (64 bits), and the duration it returns. */
  datatype Clock = Clock(nextTR: nat, currentPT: nat)

  function PT(tr: nat): nat {
    (tr * 1001) % U32_MODULUS / FRAME_RATE
  }

  function Tick(c: Clock, trDiff: nat): (Clock, nat) {
    var tr := (c.nextTR + trDiff) % U32_MODULUS;
    (Clock(tr, PT(tr)), (PT(tr) - c.currentPT) % U64_MODULUS)
  }

  function TickAll(c: Clock, diffs: seq<nat>): Clock {
    if diffs == [] then c else Tick(TickAll(c, diffs[..|diffs| - 1]), diffs[|diffs| - 1]).0
  }

  function Durations(c: Clock, diffs: seq<nat>): nat {
    if diffs == [] then 0
    else Durations(c, diffs[..|diffs| - 1]) + Tick(TickAll(c, diffs[..|diffs| - 1]), diffs[|diffs| - 1]).1
  }

  function Sum(diffs: seq<nat>): nat {
    if diffs == [] then 0 else Sum(diffs[..|diffs| - 1]) + diffs[|diffs| - 1]
  }

  /** While the 32-bit product does not overflow, rounding errors do not add up: the durations sum to the rounded total. */
  lemma {:induction false} DurationsSum(diffs: seq<nat>)
    requires 1001 * Sum(diffs) < U32_MODULUS
    ensures Durations(Clock(0, 0), diffs) == 1001 * Sum(diffs) / FRAME_RATE
    ensures TickAll(Clock(0, 0), diffs) == Clock(Sum(diffs), 1001 * Sum(diffs) / FRAME_RATE)
    decreases |diffs|
  {
    if diffs != [] {
      var front, d := diffs[..|diffs| - 1], diffs[|diffs| - 1];
      DurationsSum(front);
      ExactTick(Sum(front), d);
    }
  }

  lemma {:induction false} ExactTick(tr: nat, d: nat)
    requires 1001 * (tr + d) < U32_MODULUS
    ensures Tick(Clock(tr, 1001 * tr / FRAME_RATE), d) ==
            (Clock(tr + d, 1001 * (tr + d) / FRAME_RATE), 1001 * (tr + d) / FRAME_RATE - 1001 * tr / FRAME_RATE)
  {
    hide PT;
    PTExactIff(tr + d);
    SmallMod(tr + d, U32_MODULUS);
    var a, b := 1001 * tr, 1001 * (tr + d);
    DivGrows(a, b);
    SmallMod(b / FRAME_RATE - a / FRAME_RATE, U64_MODULUS);
  }

  lemma {:induction false} SmallMod(a: int, m: nat)
    requires 0 <= a < m
    ensures a % m == a
  {
  }

  lemma {:induction false} DivGrows(a: nat, b: nat)
    requires a <= b
    ensures a / FRAME_RATE <= b / FRAME_RATE <= b
  {
  }

  /** The presentation time of a frame is the true one exactly while the product fits 32 bits. */
  lemma {:induction false} PTExactIff(tr: nat)
    ensures PT(tr) == 1001 * tr / FRAME_RATE <==> 1001 * tr < U32_MODULUS
  {
  }

  function Last(times: seq<nat>): nat {
    if times == [] then 0 else times[|times| - 1]
  }

  /** Times that begin below 256 units and grow by less than 256. */
  predicate Steps(times: seq<nat>) {
    times == [] ||
    var front := times[..|times| - 1]; Steps(front) && Last(front) <= Last(times) < Last(front) + 0x100
  }

  /** The differences that parse passes on, one a frame, when the frames' references are those of `times`. */
  function Differences(times: seq<nat>): seq<nat> {
    if times == [] then []
    else
      var front := times[..|times| - 1];
      Differences(front) + [TRDifference(Last(times) % 0x100, Last(front) % 0x100)]
  }

  lemma {:induction false} DifferencesSum(times: seq<nat>)
    requires Steps(times)
    ensures Sum(Differences(times)) == Last(times)
    decreases |times|
  {
    hide Last, TRDifference;
    if times == [] {
      LastOfNone();
    } else {
      var front := times[..|times| - 1];
      DifferencesSum(front);
      DifferenceOfTimes(Last(front), Last(times));
      SumMore(Differences(front), TRDifference(Last(times) % 0x100, Last(front) % 0x100));
    }
  }

  lemma {:induction false} LastOfNone()
    ensures Last([]) == 0
  {
  }

  lemma {:induction false} SumMore(diffs: seq<nat>, d: nat)
    ensures Sum(diffs + [d]) == Sum(diffs) + d
  {
    assert (diffs + [d])[..|diffs|] == diffs;
  }

  /** While the product fits 32 bits, the durations of the frames up to the one at time `t` sum to the time of that frame:
      what is called a frame's duration is the time from the frame before it. */
  lemma {:induction false} DurationsAreTimes(times: seq<nat>)
    requires Steps(times) && 1001 * Last(times) < U32_MODULUS
    ensures Durations(Clock(0, 0), Differences(times)) == 1001 * Last(times) / FRAME_RATE
  {
    hide Differences, Steps;
    DifferencesSum(times);
    DurationsSum(Differences(times));
  }

  // ---------- Durations of what is read ----------

  /** The temporal reference that stands before frame `i`. */
  function ReferenceBefore(frames: seq<Bytes>, i: nat): nat
    requires i <= |frames| && forall f :: f in frames ==> |f| >= 4
  {
    if i == 0 then 0 else Reference(frames[i - 1])
  }

  /** The durations are those that the clock gives for the differences of the temporal references. */
  ghost predicate Clocked(frames: seq<Bytes>, durations: seq<nat>, diffs: seq<nat>) {
    && |durations| == |diffs| == |frames| && (forall f :: f in frames ==> |f| >= 4)
    && (forall i :: 0 <= i < |frames| ==> Reference(frames[i]) < 0x100)
    && (forall i :: 0 <= i < |frames| ==>
          && diffs[i] == TRDifference(Reference(frames[i]), ReferenceBefore(frames, i))
          && durations[i] == Tick(TickAll(Clock(0, 0), diffs[..i]), diffs[i]).1)
  }

  lemma {:induction false} ClockedMore(frames: seq<Bytes>, durations: seq<nat>, diffs: seq<nat>, f: Bytes, d: nat, diff: nat)
    requires Clocked(frames, durations, diffs) && |f| >= 4 && Reference(f) < 0x100
    requires diff == TRDifference(Reference(f), ReferenceBefore(frames, |frames|))
    requires d == Tick(TickAll(Clock(0, 0), diffs), diff).1
    ensures Clocked(frames + [f], durations + [d], diffs + [diff])
    ensures TickAll(Clock(0, 0), diffs + [diff]) == Tick(TickAll(Clock(0, 0), diffs), diff).0
  {
    hide Tick, TRDifference, Reference;
    var frames', diffs' := frames + [f], diffs + [diff];
    assert diffs'[..|diffs|] == diffs;
    forall i | 0 <= i < |frames'|
      ensures diffs'[i] == TRDifference(Reference(frames'[i]), ReferenceBefore(frames', i))
      ensures (durations + [d])[i] == Tick(TickAll(Clock(0, 0), diffs'[..i]), diffs'[i]).1
    {
      if i < |diffs| { assert diffs'[..i] == diffs[..i]; }
    }
  }

  /** `times` are the times of the frames, in units of 1001/30000 s, whose low eight bits are their temporal references. */
  ghost predicate Dated(frames: seq<Bytes>, times: seq<nat>) {
    && |times| == |frames| && Steps(times) && 1001 * Last(times) < U32_MODULUS
    && forall i :: 0 <= i < |frames| ==> |frames[i]| >= 4 && Reference(frames[i]) == times[i] % 0x100
  }

  /** The milliseconds from the start to time `t`. */
  function Millis(t: nat): nat {
    t * 1001 / 30
  }

  /** The time from each frame to the one before it, in milliseconds. */
  function Spans(times: seq<nat>): (r: seq<int>)
    ensures |r| == |times|
  {
    seq(|times|, i requires 0 <= i < |times| => Millis(times[i]) - if i == 0 then 0 else Millis(times[i - 1]))
  }

  lemma {:induction false} StepsFront(times: seq<nat>, k: nat)
    requires Steps(times) && k <= |times|
    ensures Steps(times[..k]) && Last(times[..k]) <= Last(times)
    decreases |times|
  {
    if k < |times| {
      var front := times[..|times| - 1];
      StepsFront(front, k);
      assert front[..k] == times[..k];
    } else {
      assert times[..k] == times;
    }
  }

  lemma {:induction false} LastAt(times: seq<nat>, i: nat)
    requires i < |times|
    ensures Last(times[..i + 1]) == times[i] && Last(times[..i]) == if i == 0 then 0 else times[i - 1]
  {
  }

  lemma {:induction false} ReferenceAt(frames: seq<Bytes>, times: seq<nat>, i: nat)
    requires Dated(frames, times) && i < |times| && forall f :: f in frames ==> |f| >= 4
    ensures |times| == |frames|
    ensures Reference(frames[i]) == times[i] % 0x100
    ensures ReferenceBefore(frames, i) == (if i == 0 then 0 else times[i - 1]) % 0x100
  {
    hide Steps, Last, Reference;
  }

  lemma {:induction false} DiffAt(frames: seq<Bytes>, durations: seq<nat>, diffs: seq<nat>, times: seq<nat>, i: nat)
    requires Clocked(frames, durations, diffs) && Dated(frames, times) && i < |times|
    ensures |diffs| == |times| == |durations|
    ensures diffs[i] == TRDifference(Last(times[..i + 1]) % 0x100, Last(times[..i]) % 0x100)
    ensures durations[i] == Tick(TickAll(Clock(0, 0), diffs[..i]), diffs[i]).1
  {
    hide TRDifference, Dated, Last, Tick, TickAll, Reference, ReferenceBefore;
    ReferenceAt(frames, times, i);
    LastAt(times, i);
  }

  lemma {:induction false} DifferencesMore(times: seq<nat>, k: nat)
    requires k < |times|
    ensures Differences(times[..k + 1]) == Differences(times[..k]) + [TRDifference(Last(times[..k + 1]) % 0x100, Last(times[..k]) % 0x100)]
  {
    hide TRDifference, Last;
    assert times[..k + 1][..k] == times[..k];
  }

  lemma {:induction false} DiffsAre(frames: seq<Bytes>, durations: seq<nat>, diffs: seq<nat>, times: seq<nat>, k: nat)
    requires Clocked(frames, durations, diffs) && Dated(frames, times) && k <= |times| == |diffs|
    ensures diffs[..k] == Differences(times[..k])
    decreases k
  {
    hide Clocked, Dated, TRDifference, Differences, Last;
    if k > 0 {
      DiffsAre(frames, durations, diffs, times, k - 1);
      DiffAt(frames, durations, diffs, times, k - 1);
      DifferencesMore(times, k - 1);
      assert diffs[..k] == diffs[..k - 1] + [diffs[k - 1]];
    } else {
      NoDifferences(times[..0]);
    }
  }

  lemma {:induction false} NoDifferences(times: seq<nat>)
    requires times == []
    ensures Differences(times) == []
  {
  }

  lemma {:induction false} SpanAt(frames: seq<Bytes>, durations: seq<nat>, diffs: seq<nat>, times: seq<nat>, i: nat)
    requires Clocked(frames, durations, diffs) && Dated(frames, times) && i < |times| == |diffs| == |durations|
    ensures durations[i] == Spans(times)[i]
  {
    hide Clocked, Dated, TRDifference, Steps, Differences, Durations, Sum, Tick, TickAll;
    var before, upTo := times[..i], times[..i + 1];
    DatedSteps(frames, times);
    StepsFront(times, i);
    StepsFront(times, i + 1);
    DiffAt(frames, durations, diffs, times, i);
    DiffsAre(frames, durations, diffs, times, i);
    DiffsAre(frames, durations, diffs, times, i + 1);
    DifferencesSum(before);
    DifferencesSum(upTo);
    DurationsSum(diffs[..i]);
    assert diffs[..i + 1] == diffs[..i] + [diffs[i]];
    SumMore(diffs[..i], diffs[i]);
    ExactTick(Sum(diffs[..i]), diffs[i]);
    assert Last(upTo) == times[i] && Last(before) == if i == 0 then 0 else times[i - 1];
  }

  lemma {:induction false} DatedSteps(frames: seq<Bytes>, times: seq<nat>)
    requires Dated(frames, times)
    ensures Steps(times) && 1001 * Last(times) < U32_MODULUS && |times| == |frames|
  {
    hide Steps, Last, Reference;
  }

  /** Frames whose references are those of `times` are given the milliseconds between them for durations. */
  lemma {:induction false} SpansOfTimes(frames: seq<Bytes>, durations: seq<nat>, diffs: seq<nat>, times: seq<nat>)
    requires Clocked(frames, durations, diffs) && Dated(frames, times)
    ensures durations == Spans(times)
  {
    hide Reference, TRDifference, Steps, Tick, TickAll, Last, Spans;
    forall i | 0 <= i < |times|
      ensures durations[i] == Spans(times)[i]
    {
      SpanAt(frames, durations, diffs, times, i);
    }
  }
}
