/** The H.263 stream parser: a state table, a saved header, and the caller's buffer. */
module H263Parsers {
  import opened Options
  import Bits
  import opened H263

  class H263plusVideoStreamParser {
    var fBank: Bytes
    var fCurParserIndex: nat
    var fSavedParserIndex: nat
    const fStates: array2<int>
    const fNextHeader: array<bv8>
    /** Temporal references of the current and the next frame. */
    var fCurrentTR: nat
    var fNextInfoTR: nat
    var fnextTR: nat
    var fcurrentPT: nat

    ghost predicate Valid()
      reads this, fStates, fNextHeader
    {
      && fStates.Length0 == 3 && fStates.Length1 == 256
      && fNextHeader.Length == HEADER_SIZE
      && fSavedParserIndex <= |fBank| && fCurParserIndex <= |fBank|
    }

    /** The table has not been filled in yet, or it is that of the automaton. */
    ghost predicate Table()
      reads fStates
      requires fStates.Length0 == 3 && fStates.Length1 == 256
    {
      forall row, b :: 0 <= row < 3 && 0 <= b < 256 ==> fStates[row, b] == if fStates[0, 0] == 0 then 0 else NextNumber(row, b)
    }

    constructor ()
      ensures Valid() && Table() && fBank == [] && fCurParserIndex == fSavedParserIndex == 0
      ensures fNextHeader[..] == [0, 0, 0, 0, 0] && fNextInfoTR == 0 && (fnextTR, fcurrentPT) == (0, 0)
      ensures fresh(fStates) && fresh(fNextHeader)
    {
      fBank, fCurParserIndex, fSavedParserIndex := [], 0, 0;
      fCurrentTR, fNextInfoTR, fnextTR, fcurrentPT := 0, 0, 0, 0;
      fStates := new int[3, 256]((_, _) => 0);
      fNextHeader := new bv8[HEADER_SIZE](_ => 0);
    }

    /** Fills the table in, the first time. */
    method InitStates()
      requires Valid() && Table()
      modifies fStates
      ensures Table() && fStates[0, 0] == 1
    {
      if fStates[0, 0] == 0 {
        fStates[0, 0] := 1;
        fStates[1, 0] := 2;
        fStates[2, 0] := 2;
        fStates[2, 128] := -1;
        fStates[2, 129] := -1;
        fStates[2, 130] := -1;
        fStates[2, 131] := -1;
      }
    }

    /** The loop of parseH263Frame: copies bytes behind the saved header until a start code has been read. */
    method ReadToStartCode(to: array<bv8>, maxSize: nat) returns (outcome: Outcome, bufferIndex: nat)
      requires Valid() && Table() && fStates[0, 0] == 1 && HEADER_SIZE < maxSize <= to.Length
      modifies `fCurParserIndex, to
      ensures Valid() && outcome == OutcomeOf(fBank, old(fCurParserIndex), Room(maxSize))
      ensures to[..HEADER_SIZE] == old(to[..HEADER_SIZE])
      ensures outcome == Found ==>
                var p := old(fCurParserIndex); var c := Find(fBank, p).value;
                && bufferIndex == HEADER_SIZE + (c + START_CODE_SIZE - p) <= maxSize - 9
                && to[HEADER_SIZE..bufferIndex] == fBank[p..c + START_CODE_SIZE] && fCurParserIndex == c + START_CODE_SIZE
    {
      hide Find, CodeAt, RowAt;
      ghost var p, room := fCurParserIndex, Room(maxSize);
      var row := 0;
      bufferIndex := HEADER_SIZE;
      RowStart(fBank, p);
      while true
        invariant Valid() && p <= fCurParserIndex && bufferIndex == HEADER_SIZE + (fCurParserIndex - p)
        invariant fCurParserIndex - p <= room && RowAt(fBank, p, fCurParserIndex, row)
        invariant to[..HEADER_SIZE] == old(to[..HEADER_SIZE])
        invariant to[HEADER_SIZE..bufferIndex] == fBank[p..fCurParserIndex]
        decreases |fBank| - fCurParserIndex
      {
        NotFoundYet(fBank, p, fCurParserIndex, row);
        if fCurParserIndex + 1 > |fBank| {
          return Interrupted, bufferIndex;
        }
        GrowSlice(fBank, p, fCurParserIndex);
        PutByte(to, bufferIndex, fBank[fCurParserIndex]);
        fCurParserIndex := fCurParserIndex + 1;
        if bufferIndex + 9 >= maxSize {
          return TooSmall, bufferIndex;
        }
        RowStep(fBank, p, fCurParserIndex - 1, row);
        NumberOf(row, to[bufferIndex]);
        row := fStates[row, to[bufferIndex] as int];
        bufferIndex := bufferIndex + 1;
        if row == -1 {
          return Found, bufferIndex;
        }
      }
    }

    /** parseH263Frame */
    method ParseH263Frame(to: array<bv8>, maxSize: nat) returns (interrupted: bool, sz: nat)
      requires Valid() && Table() && HEADER_SIZE < maxSize <= to.Length && to != fNextHeader
      modifies `fCurParserIndex, fStates, fNextHeader, to
      ensures Valid() && Table()
      ensures var r := Reading(fBank, old(fCurParserIndex), Room(maxSize));
        && interrupted == (r == Interrupted)
        && (r == Found ==>
              var p := old(fCurParserIndex); var c := Find(fBank, p).value;
              && c + HEADER_SIZE <= |fBank| && sz == HEADER_SIZE + (c - p) <= to.Length
              && to[..sz] == (if c == p then fBank[c..c + HEADER_SIZE] else old(fNextHeader[..]) + fBank[p..c])
              && fNextHeader[..] == fBank[c..c + HEADER_SIZE] && fCurParserIndex == c + HEADER_SIZE)
        && (r != Found ==> sz == 0 && fNextHeader[..] == old(fNextHeader[..]))
    {
      hide Find, CodeAt;
      ghost var p, header := fCurParserIndex, fNextHeader[..];
      CopyHeader(fNextHeader[..], to, 0);
      InitStates();
      var outcome, bufferIndex := ReadToStartCode(to, maxSize);
      if outcome == TooSmall { return false, 0; }
      if outcome == Interrupted || fCurParserIndex + 2 > |fBank| { return true, 0; }
      ghost var c := fCurParserIndex - START_CODE_SIZE;
      FinishFrame(to, bufferIndex, p, header);
      sz := bufferIndex - START_CODE_SIZE;
      interrupted := false;
    }

    /** The end of parseH263Frame: reads the rest of the next header and saves it. */
    method FinishFrame(to: array<bv8>, bufferIndex: nat, ghost p: nat, ghost header: Bytes)
      requires Valid() && to != fNextHeader && fCurParserIndex + 2 <= |fBank|
      requires HEADER_SIZE + START_CODE_SIZE <= bufferIndex <= to.Length - 2 && |header| == HEADER_SIZE && to[..HEADER_SIZE] == header
      requires p + START_CODE_SIZE <= fCurParserIndex && bufferIndex == HEADER_SIZE + (fCurParserIndex - p)
      requires to[HEADER_SIZE..bufferIndex] == fBank[p..fCurParserIndex]
      modifies `fCurParserIndex, fNextHeader, to
      ensures Valid() && fCurParserIndex == old(fCurParserIndex) + 2
      ensures var c := old(fCurParserIndex) - START_CODE_SIZE;
        && fNextHeader[..] == fBank[c..c + HEADER_SIZE]
        && to[..bufferIndex - START_CODE_SIZE] == (if c == p then fBank[c..c + HEADER_SIZE] else header + fBank[p..c])
    {
      ghost var c := fCurParserIndex - START_CODE_SIZE;
      PutByte(to, bufferIndex, fBank[fCurParserIndex]);
      PutByte(to, bufferIndex + 1, fBank[fCurParserIndex + 1]);
      TwoMore(fBank, p, c);
      ghost var all := to[HEADER_SIZE..bufferIndex + 2];
      assert all == fBank[p..c + HEADER_SIZE];
      fCurParserIndex := fCurParserIndex + 2;
      var sz := bufferIndex - START_CODE_SIZE;
      Parts(fBank, p, c, to[..], header);
      CopyHeader(to[sz..sz + HEADER_SIZE], fNextHeader, 0);
      if sz == HEADER_SIZE {
        CopyHeader(to[HEADER_SIZE..HEADER_SIZE + HEADER_SIZE], to, 0);
      }
    }

    /** CalculateDuration */
    method CalculateDuration(trDiff: nat) returns (duration: nat)
      modifies `fnextTR, `fcurrentPT
      ensures (Clock(fnextTR, fcurrentPT), duration) == Tick(Clock(old(fnextTR), old(fcurrentPT)), trDiff)
    {
      fnextTR := (fnextTR + trDiff) % U32_MODULUS;
      var nextPT := (fnextTR * 1001) % U32_MODULUS / FRAME_RATE;
      duration := (nextPT - fcurrentPT) % U64_MODULUS;
      fcurrentPT := nextPT;
    }

    /** The part of parse that reads the temporal reference. */
    method TimeFrame(frame: Bytes) returns (duration: nat)
      requires |frame| >= HEADER_SIZE && fCurrentTR < 0x100
      modifies `fNextInfoTR, `fnextTR, `fcurrentPT
      ensures fNextInfoTR == Reference(frame) < 0x100
      ensures (Clock(fnextTR, fcurrentPT), duration) == Tick(Clock(old(fnextTR), old(fcurrentPT)), TRDifference(fNextInfoTR, fCurrentTR))
    {
      hide Tick, TROf, Reference, TRDifference;
      TROfIsReference(frame);
      fNextInfoTR := Bits.ByteNumber(TROf(frame));
      duration := CalculateDuration(TRDifference(fNextInfoTR, fCurrentTR));
    }

    /** parse: one frame, and the time since the one before it. */
    method Parse(to: array<bv8>, maxSize: nat) returns (interrupted: bool, frameSize: nat, duration: nat)
      requires Valid() && Table() && HEADER_SIZE < maxSize <= to.Length && to != fNextHeader
      requires fCurParserIndex == fSavedParserIndex && fNextInfoTR < 0x100
      modifies this, fStates, fNextHeader, to
      ensures Valid() && Table() && fNextInfoTR < 0x100 && fBank == old(fBank)
      ensures var r := Reading(fBank, old(fCurParserIndex), Room(maxSize));
        && interrupted == (r == Interrupted)
        && (r == Found ==>
              var p := old(fCurParserIndex); var c := Find(fBank, p).value;
              && c + HEADER_SIZE <= |fBank| && frameSize == HEADER_SIZE + (c - p) <= to.Length
              && to[..frameSize] == (if c == p then fBank[c..c + HEADER_SIZE] else old(fNextHeader[..]) + fBank[p..c])
              && fNextHeader[..] == fBank[c..c + HEADER_SIZE] && fCurParserIndex == fSavedParserIndex == c + HEADER_SIZE
              && fNextInfoTR == Reference(to[..frameSize])
              && (Clock(fnextTR, fcurrentPT), duration)
                 == Tick(Clock(old(fnextTR), old(fcurrentPT)), TRDifference(fNextInfoTR, old(fNextInfoTR))))
        && (r != Found ==>
              frameSize == 0 && fNextHeader[..] == old(fNextHeader[..]) && fSavedParserIndex == old(fSavedParserIndex)
              && fNextInfoTR == old(fNextInfoTR) && (fnextTR, fcurrentPT) == (old(fnextTR), old(fcurrentPT)))
    {
      hide Find, Tick, TROf, Reference, TRDifference, Reading, Room;
      fCurrentTR := fNextInfoTR;
      duration := 0;
      interrupted, frameSize := ParseH263Frame(to, maxSize);
      if interrupted || frameSize == 0 { return; }
      duration := TimeFrame(to[..frameSize]);
      fSavedParserIndex := fCurParserIndex;
    }
  }

  /** memcpy of a header. */
  method CopyHeader(header: Bytes, to: array<bv8>, at: nat)
    requires |header| == HEADER_SIZE && at + HEADER_SIZE <= to.Length
    modifies to
    ensures to[at..at + HEADER_SIZE] == header && to[..at] == old(to[..at]) && to[at + HEADER_SIZE..] == old(to[at + HEADER_SIZE..])
  {
    for i := 0 to HEADER_SIZE
      invariant to[at..at + i] == header[..i] && to[..at] == old(to[..at]) && to[at + HEADER_SIZE..] == old(to[at + HEADER_SIZE..])
    {
      to[at + i] := header[i];
    }
  }

  /** What parseH263Frame comes to. */
  function Reading(s: Bytes, p: nat, room: nat): Outcome {
    var o := OutcomeOf(s, p, room);
    if o == Found && Find(s, p).value + HEADER_SIZE > |s| then Interrupted else o
  }

  lemma {:induction false} TwoMore(s: Bytes, p: nat, c: nat)
    requires p <= c && c + HEADER_SIZE <= |s|
    ensures s[p..c + HEADER_SIZE] == s[p..c + START_CODE_SIZE] + [s[c + 3]] + [s[c + 4]]
  {
  }

  /** Where the frame and the next header lie in the buffer. */
  lemma {:induction false} Parts(s: Bytes, p: nat, c: nat, to: Bytes, header: Bytes)
    requires p <= c && c + HEADER_SIZE <= |s| && |header| == HEADER_SIZE
    requires HEADER_SIZE + (c - p) + HEADER_SIZE <= |to| && to[..HEADER_SIZE] == header
    requires to[HEADER_SIZE..HEADER_SIZE + (c - p) + HEADER_SIZE] == s[p..c + HEADER_SIZE]
    ensures var sz := HEADER_SIZE + (c - p);
      && to[sz..sz + HEADER_SIZE] == s[c..c + HEADER_SIZE] && to[..sz] == header + s[p..c]
  {
    var sz := HEADER_SIZE + (c - p);
    var t := to[HEADER_SIZE..sz + HEADER_SIZE];
    assert to[sz..sz + HEADER_SIZE] == t[c - p..] == s[p..c + HEADER_SIZE][c - p..] == s[c..c + HEADER_SIZE];
    assert to[HEADER_SIZE..sz] == t[..c - p] == s[p..c + HEADER_SIZE][..c - p] == s[p..c];
    assert to[..sz] == to[..HEADER_SIZE] + to[HEADER_SIZE..sz];
  }

  method PutByte(to: array<bv8>, at: nat, b: bv8)
    requires HEADER_SIZE <= at < to.Length
    modifies to
    ensures to[at] == b && to[HEADER_SIZE..at + 1] == old(to[HEADER_SIZE..at]) + [b] && to[..HEADER_SIZE] == old(to[..HEADER_SIZE])
  {
    to[at] := b;
  }

  lemma {:induction false} GrowSlice(s: Bytes, p: nat, j: nat)
    requires p <= j < |s|
    ensures s[p..j + 1] == s[p..j] + [s[j]]
  {
  }

  datatype Outcome = Found | TooSmall | Interrupted

  /** How many bytes the loop may take: the macro for the additional bytes has no parentheses, so that 5 and 3 are both
      subtracted. */
  function Room(maxSize: nat): nat {
    if maxSize > 14 then maxSize - 14 else 0
  }

  function OutcomeOf(s: Bytes, p: nat, room: nat): Outcome {
    match Find(s, p)
    case Some(c) => if c + START_CODE_SIZE <= p + room then Found else TooSmall
    case None => if p + room < |s| then TooSmall else Interrupted
  }

  lemma {:induction false} RowStart(s: Bytes, p: nat)
    requires p <= |s|
    ensures RowAt(s, p, p, 0)
  {
  }

  /** No start code ends before `j`. */
  lemma {:induction false} NotFoundYet(s: Bytes, p: nat, j: nat, row: int)
    requires p <= j <= |s| && RowAt(s, p, j, row)
    ensures Find(s, p).Some? ==> Find(s, p).value + START_CODE_SIZE > j
    ensures j == |s| ==> Find(s, p) == None
    ensures 0 <= row <= 2
  {
    hide Find;
  }

  function NextNumber(row: int, b: int): int {
    if row == 0 then (if b == 0 then 1 else 0)
    else if row == 1 then (if b == 0 then 2 else 0)
    else if b == 0 then 2
    else if 128 <= b <= 131 then -1
    else 0
  }

  lemma {:induction false} NumberOf(row: int, b: bv8)
    ensures NextNumber(row, b as int) == Next(row, b)
  {
  }

  /** There is room for every frame from `c` on, and for what follows the last one. */
  predicate Roomy(s: Bytes, c: nat, room: nat)
    decreases |s| - c
  {
    var p := c + HEADER_SIZE;
    if Ended(s, c) then
      var d := Find(s, p).value;
      d + START_CODE_SIZE <= p + room && Roomy(s, d, room)
    else |s| <= p + room
  }

  /** With room for it, a frame is read just when it has ended. */
  lemma {:induction false} ReadingEnded(s: Bytes, c: nat, room: nat)
    requires c + HEADER_SIZE <= |s| && Roomy(s, c, room)
    ensures Reading(s, c + HEADER_SIZE, room) == Found <==> Ended(s, c)
    ensures Reading(s, c + HEADER_SIZE, room) != Found ==> Reading(s, c + HEADER_SIZE, room) == Interrupted
    ensures Ended(s, c) ==> Roomy(s, Find(s, c + HEADER_SIZE).value, room)
  {
    hide Find;
  }

  lemma {:induction false} ReadingFirst(s: Bytes, room: nat)
    requires |s| >= HEADER_SIZE && CodeAt(s, 0) && room >= START_CODE_SIZE
    ensures Find(s, 0) == Some(0) && Reading(s, 0, room) == Found
  {
    hide Find;
    FindIs(s, 0, 0);
  }

  lemma {:induction false} HeaderAndRest(s: Bytes, c: nat, d: nat, header: Bytes)
    requires c + HEADER_SIZE <= d && d + HEADER_SIZE <= |s| && header == s[c..c + HEADER_SIZE]
    ensures FrameAt(s, c, d) == if d == c + HEADER_SIZE then s[d..d + HEADER_SIZE] else header + s[c + HEADER_SIZE..d]
  {
    assert s[c..d] == s[c..c + HEADER_SIZE] + s[c + HEADER_SIZE..d];
  }

  /** The frames from `c` on, one more of them read. */
  lemma {:induction false} FramesGo(s: Bytes, c: nat, frames: seq<Bytes>, all: seq<Bytes>)
    requires all == frames + Frames(s, c)
    ensures Ended(s, c) ==>
              var d := Find(s, c + HEADER_SIZE).value; all == frames + [FrameAt(s, c, d)] + Frames(s, d)
    ensures !Ended(s, c) ==> all == frames
  {
    hide Find;
  }

  /** A stream that begins with a start code: the first call gives out the first header alone, and the others the frames; each with
      the milliseconds from the one before it, for whatever times the temporal references stand. */
  method ReadAll(s: Bytes, maxSize: nat) returns (frames: seq<Bytes>, durations: seq<nat>)
    requires |s| >= HEADER_SIZE && CodeAt(s, 0) && maxSize >= 17 && Roomy(s, 0, maxSize - 14)
    ensures frames == [s[..HEADER_SIZE]] + Frames(s, 0)
    ensures forall times :: Dated(frames, times) ==> durations == Spans(times)
  {
    hide Find, CodeAt, Frames, FrameAt, Reading, Roomy, Clocked, Dated, Tick, TickAll, Reference, TRDifference;
    var parser := new H263plusVideoStreamParser();
    var to := new bv8[maxSize];
    parser.fBank := s;
    ReadingFirst(s, Room(maxSize));
    var interrupted, frameSize, duration := parser.Parse(to, maxSize);
    frames, durations := [to[..frameSize]], [duration];
    ghost var diffs := [TRDifference(parser.fNextInfoTR, 0)];
    ClockedFirst(to[..frameSize], duration);
    ghost var all, c := frames + Frames(s, 0), 0;
    while true
      invariant parser.Valid() && parser.Table() && parser.fBank == s && fresh(parser) && fresh(parser.fStates) && fresh(parser.fNextHeader)
      invariant to != parser.fNextHeader && parser.fNextInfoTR < 0x100
      invariant c + HEADER_SIZE <= |s| && parser.fCurParserIndex == parser.fSavedParserIndex == c + HEADER_SIZE
      invariant parser.fNextHeader[..] == s[c..c + HEADER_SIZE]
      invariant all == frames + Frames(s, c) && Roomy(s, c, Room(maxSize))
      invariant frames != [] && |frames[|frames| - 1]| >= 4 && parser.fNextInfoTR == Reference(frames[|frames| - 1])
      invariant Clocked(frames, durations, diffs) && Clock(parser.fnextTR, parser.fcurrentPT) == TickAll(Clock(0, 0), diffs)
      decreases |s| - c
    {
      ReadingEnded(s, c, Room(maxSize));
      FramesGo(s, c, frames, all);
      ghost var tr := parser.fNextInfoTR;
      interrupted, frameSize, duration := parser.Parse(to, maxSize);
      if interrupted { break; }
      ghost var d := Find(s, c + HEADER_SIZE).value;
      HeaderAndRest(s, c, d, s[c..c + HEADER_SIZE]);
      ClockedNext(frames, durations, diffs, to[..frameSize], duration, tr, parser.fNextInfoTR);
      diffs := diffs + [TRDifference(parser.fNextInfoTR, tr)];
      frames, durations := frames + [to[..frameSize]], durations + [duration];
      c := d;
    }
    forall times | Dated(frames, times) ensures durations == Spans(times) { SpansOfTimes(frames, durations, diffs, times); }
  }

  lemma {:induction false} ClockedFirst(f: Bytes, d: nat)
    requires |f| >= 4 && Reference(f) < 0x100 && d == Tick(Clock(0, 0), TRDifference(Reference(f), 0)).1
    ensures var diffs := [TRDifference(Reference(f), 0)];
      Clocked([f], [d], diffs) && TickAll(Clock(0, 0), diffs) == Tick(Clock(0, 0), diffs[0]).0
  {
    hide Tick, TRDifference, Reference;
    var diff := TRDifference(Reference(f), 0);
    assert TickAll(Clock(0, 0), []) == Clock(0, 0);
    ClockedMore([], [], [], f, d, diff);
    assert [] + [f] == [f] && [] + [d] == [d] && [] + [diff] == [diff];
  }

  lemma {:induction false} ClockedNext(frames: seq<Bytes>, durations: seq<nat>, diffs: seq<nat>, f: Bytes, d: nat, tr: nat, next: nat)
    requires Clocked(frames, durations, diffs) && |f| >= 4 && next == Reference(f) < 0x100 && tr < 0x100
    requires frames != [] && |frames[|frames| - 1]| >= 4 && tr == Reference(frames[|frames| - 1])
    requires d == Tick(TickAll(Clock(0, 0), diffs), TRDifference(next, tr)).1
    ensures var diff := TRDifference(next, tr);
      && Clocked(frames + [f], durations + [d], diffs + [diff])
      && TickAll(Clock(0, 0), diffs + [diff]) == Tick(TickAll(Clock(0, 0), diffs), diff).0
  {
    hide Tick, TRDifference, Reference, TickAll;
    ClockedMore(frames, durations, diffs, f, d, TRDifference(next, tr));
  }
}
