/** The stream parser that cuts a byte stream into NAL units, and that can be interrupted anywhere for want of input. */
module NalParsers {
  import opened Codecs
  import opened Options
  import opened StartCodes

  /** What has been saved of `image` when there is room for `limit` bytes: all of it if it fits, and otherwise something is
      counted as truncated. */
  predicate Holds(saved: Bytes, truncated: nat, limit: nat, image: Bytes) {
    if |image| <= limit then saved == image && truncated == 0 else truncated > 0
  }

  lemma {:induction false} HoldsOne(saved: Bytes, truncated: nat, limit: nat, image: Bytes, b: bv8)
    requires Holds(saved, truncated, limit, image) && |saved| <= limit
    ensures |saved| < limit ==> Holds(saved + [b], truncated, limit, image + [b])
    ensures |saved| >= limit ==> Holds(saved, truncated + 1, limit, image + [b])
  {
  }

  lemma {:induction false} HoldsFour(saved: Bytes, truncated: nat, limit: nat, image: Bytes, four: Bytes)
    requires Holds(saved, truncated, limit, image) && |saved| <= limit && |four| == 4
    ensures |saved| + 4 <= limit ==> Holds(saved + four, truncated, limit, image + four)
    ensures |saved| + 4 > limit ==> Holds(saved, truncated + 4, limit, image + four)
  {
  }

  lemma {:induction false} NextPiece(s: Bytes, start: nat, i: nat, j: nat)
    requires start <= i <= j <= |s|
    ensures s[start..j] == s[start..i] + s[i..j]
  {
  }

  lemma {:induction false} OneFurther(saved: Bytes, s: Bytes, i: nat)
    requires i < |s|
    ensures saved + s[i..] == (saved + [s[i]]) + s[i + 1..]
  {
  }

  class H264or5VideoStreamParser {
    const fHNumber: Codec
    const fOutputStartCodeSize: nat
    /** The bytes read so far; the parser's two banks are one sequence here. */
    var fBank: Bytes
    var fCurParserIndex: nat
    var fSavedParserIndex: nat
    var fStartOfFrame: array<bv8>
    var fTo: nat
    var fSavedTo: nat
    var fNumTruncatedBytes: nat
    var fSavedNumTruncatedBytes: nat
    var fHaveSeenFirstStartCode: bool
    var fHaveSeenFirstByteOfNALUnit: bool
    var fFirstByteOfNALUnit: bv8
    /** Where the unit that is being read begins, and what should have been saved of it when the state was saved. */
    ghost var start: nat
    ghost var kept: Bytes

    function Prefix(): Bytes {
      OutputPrefix(fOutputStartCodeSize)
    }

    /** No start code has been passed over. */
    ghost predicate Placed()
      reads `fBank, `fSavedParserIndex, `fHaveSeenFirstStartCode, `fHaveSeenFirstByteOfNALUnit, `fFirstByteOfNALUnit, `start
    {
      && fSavedParserIndex <= |fBank|
      && (!fHaveSeenFirstStartCode ==> fSavedParserIndex == 0 || fSavedParserIndex + 3 <= |fBank|)
      && (!fHaveSeenFirstStartCode ==> forall i :: 0 <= i < fSavedParserIndex ==> !LongCodeAt(fBank, i))
      && (fHaveSeenFirstStartCode ==> start <= fSavedParserIndex)
      && (fHaveSeenFirstByteOfNALUnit ==> fHaveSeenFirstStartCode && start < |fBank| && fFirstByteOfNALUnit == fBank[start])
      && (!fHaveSeenFirstByteOfNALUnit && fHaveSeenFirstStartCode ==> fSavedParserIndex == start)
      && (fHaveSeenFirstStartCode ==> forall i :: start <= i < fSavedParserIndex ==> NeverCode(fBank, i))
    }

    /** The unit has been saved up to the place where the parser may begin again. */
    ghost predicate Kept()
      reads this, fStartOfFrame
      requires Placed()
    {
      && fSavedTo <= fStartOfFrame.Length
      && Holds(fStartOfFrame[..fSavedTo], fSavedNumTruncatedBytes, fStartOfFrame.Length, kept)
      && (kept == [] || (fHaveSeenFirstStartCode && kept == Prefix() + fBank[start..fSavedParserIndex]))
      && (kept == [] ==> !fHaveSeenFirstStartCode || fSavedParserIndex == start)
    }

    /** Parsing goes on from the saved state. */
    ghost predicate Resumed()
      reads this, fStartOfFrame
    {
      && Placed() && Kept()
      && fCurParserIndex == fSavedParserIndex && fTo == fSavedTo && fNumTruncatedBytes == fSavedNumTruncatedBytes
    }

    /** Where the next unit begins, if that is known. */
    ghost function StartOf(): Option<nat>
      reads `fHaveSeenFirstStartCode, `start, `fBank
    {
      if fHaveSeenFirstStartCode then Some(start)
      else match FindLong(fBank, 0) { case None => None case Some(i) => Some(i + 4) }
    }

    constructor (hNumber: Codec, outputStartCodeSize: nat, to: array<bv8>)
      ensures Resumed() && fBank == [] && !fHaveSeenFirstStartCode && fStartOfFrame == to
      ensures fHNumber == hNumber && fOutputStartCodeSize == outputStartCodeSize
    {
      fHNumber, fOutputStartCodeSize, fBank, fStartOfFrame := hNumber, outputStartCodeSize, [], to;
      fCurParserIndex, fSavedParserIndex, fTo, fSavedTo, fNumTruncatedBytes, fSavedNumTruncatedBytes := 0, 0, 0, 0, 0, 0;
      fHaveSeenFirstStartCode, fHaveSeenFirstByteOfNALUnit, fFirstByteOfNALUnit, start, kept := false, false, 0, 0, [];
    }

    method SaveByte(b: bv8, ghost image: Bytes)
      requires fTo <= fStartOfFrame.Length && Holds(fStartOfFrame[..fTo], fNumTruncatedBytes, fStartOfFrame.Length, image)
      modifies `fTo, `fNumTruncatedBytes, fStartOfFrame
      ensures old(fTo) <= fTo <= fStartOfFrame.Length && fStartOfFrame[..old(fTo)] == old(fStartOfFrame[..fTo])
      ensures Holds(fStartOfFrame[..fTo], fNumTruncatedBytes, fStartOfFrame.Length, image + [b])
    {
      hide Holds;
      HoldsOne(fStartOfFrame[..fTo], fNumTruncatedBytes, fStartOfFrame.Length, image, b);
      if fTo >= fStartOfFrame.Length {
        fNumTruncatedBytes := fNumTruncatedBytes + 1;
        return;
      }
      ghost var saved := fStartOfFrame[..fTo];
      fStartOfFrame[fTo] := b;
      fTo := fTo + 1;
      assert fStartOfFrame[..fTo] == saved + [b];
    }

    method Save4Bytes(four: Bytes, ghost image: Bytes)
      requires |four| == 4
      requires fTo <= fStartOfFrame.Length && Holds(fStartOfFrame[..fTo], fNumTruncatedBytes, fStartOfFrame.Length, image)
      modifies `fTo, `fNumTruncatedBytes, fStartOfFrame
      ensures old(fTo) <= fTo <= fStartOfFrame.Length && fStartOfFrame[..old(fTo)] == old(fStartOfFrame[..fTo])
      ensures Holds(fStartOfFrame[..fTo], fNumTruncatedBytes, fStartOfFrame.Length, image + four)
    {
      hide Holds;
      HoldsFour(fStartOfFrame[..fTo], fNumTruncatedBytes, fStartOfFrame.Length, image, four);
      if fTo + 4 > fStartOfFrame.Length {
        fNumTruncatedBytes := fNumTruncatedBytes + 4;
        return;
      }
      ghost var saved := fStartOfFrame[..fTo];
      fStartOfFrame[fTo] := four[0];
      fStartOfFrame[fTo + 1] := four[1];
      fStartOfFrame[fTo + 2] := four[2];
      fStartOfFrame[fTo + 3] := four[3];
      fTo := fTo + 4;
      assert fStartOfFrame[..fTo] == saved + four;
    }

    /** Skips the bytes before the first start code. */
    method SkipToFirstCode() returns (interrupted: bool)
      requires Resumed() && !fHaveSeenFirstStartCode
      modifies `fCurParserIndex, `fSavedParserIndex, `fHaveSeenFirstStartCode, `start
      ensures Placed() && Kept() && kept == old(kept) && interrupted == FindLong(fBank, 0).None?
      ensures fHaveSeenFirstStartCode == !interrupted
      ensures !interrupted ==> Resumed() && start == FindLong(fBank, 0).value + 4 == fSavedParserIndex
    {
      hide FindLong, Holds, LongCodeAt, NeverCode;
      while true
        invariant Resumed() && !fHaveSeenFirstStartCode && kept == old(kept)
        decreases |fBank| - fCurParserIndex
      {
        if fCurParserIndex + 4 > |fBank| {
          NoLongCode(fBank, fCurParserIndex);
          return true;
        }
        if LongCodeAt(fBank, fCurParserIndex) { break; }
        fCurParserIndex := fCurParserIndex + 1;
        fSavedParserIndex := fCurParserIndex;
      }
      FindLongIs(fBank, 0, fCurParserIndex);
      fCurParserIndex := fCurParserIndex + 4;
      start := fCurParserIndex;
      fSavedParserIndex := fCurParserIndex;
      fHaveSeenFirstStartCode := true;
      return false;
    }

    /** setParseState */
    method SetParseState(ghost image: Bytes)
      modifies `fSavedParserIndex, `fSavedTo, `fSavedNumTruncatedBytes, `kept
      ensures fSavedParserIndex == fCurParserIndex && fSavedTo == fTo && fSavedNumTruncatedBytes == fNumTruncatedBytes && kept == image
    {
      fSavedTo, fSavedNumTruncatedBytes, fSavedParserIndex, kept := fTo, fNumTruncatedBytes, fCurParserIndex, image;
    }

    /** The common case: no start code begins at any of the next four bytes. */
    method SaveFour(ghost image: Bytes)
      requires fHaveSeenFirstStartCode && Placed() && start <= fCurParserIndex && fCurParserIndex + 4 <= |fBank|
      requires fTo <= fStartOfFrame.Length && Holds(fStartOfFrame[..fTo], fNumTruncatedBytes, fStartOfFrame.Length, image)
      requires image == Prefix() + fBank[start..fCurParserIndex] && !CodeAt(fBank, fCurParserIndex)
      requires fHaveSeenFirstByteOfNALUnit && forall i :: start <= i < fCurParserIndex ==> NeverCode(fBank, i)
      requires fBank[fCurParserIndex + 3] > 1
      modifies `fCurParserIndex, `fSavedParserIndex, `fTo, `fSavedTo, `fNumTruncatedBytes, `fSavedNumTruncatedBytes, `kept, fStartOfFrame
      ensures Resumed() && old(fCurParserIndex) < fCurParserIndex
      ensures kept == Prefix() + fBank[start..fCurParserIndex]
    {
      hide Holds, CodeAt, NeverCode;
      ghost var i := fCurParserIndex;
      FourAtOnce(fBank, i);
      NextPiece(fBank, start, i, i + 4);
      Save4Bytes(fBank[fCurParserIndex..fCurParserIndex + 4], image);
      fCurParserIndex := fCurParserIndex + 4;
      Longer(Prefix(), fBank[start..i], fBank[i..i + 4]);
      SetParseState(Prefix() + fBank[start..fCurParserIndex]);
    }

    /** The other case: saves the first byte, and goes on to test the rest. */
    method SaveOne(ghost image: Bytes)
      requires fHaveSeenFirstStartCode && Placed() && start <= fCurParserIndex && fCurParserIndex + 4 <= |fBank|
      requires fTo <= fStartOfFrame.Length && Holds(fStartOfFrame[..fTo], fNumTruncatedBytes, fStartOfFrame.Length, image)
      requires image == Prefix() + fBank[start..fCurParserIndex] && !CodeAt(fBank, fCurParserIndex)
      requires fHaveSeenFirstByteOfNALUnit && forall i :: start <= i < fCurParserIndex ==> NeverCode(fBank, i)
      modifies `fCurParserIndex, `fSavedParserIndex, `fTo, `fSavedTo, `fNumTruncatedBytes, `fSavedNumTruncatedBytes, `kept, fStartOfFrame
      ensures Resumed() && old(fCurParserIndex) < fCurParserIndex
      ensures kept == Prefix() + fBank[start..fCurParserIndex]
    {
      hide Holds, CodeAt, NeverCode;
      ghost var i := fCurParserIndex;
      OneAtATime(fBank, i);
      NextPiece(fBank, start, i, i + 1);
      SaveByte(fBank[fCurParserIndex], image);
      fCurParserIndex := fCurParserIndex + 1;
      assert fBank[i..i + 1] == [fBank[i]];
      Longer(Prefix(), fBank[start..i], fBank[i..i + 1]);
      SetParseState(Prefix() + fBank[start..fCurParserIndex]);
    }

    /** Saves everything up to the next start code. */
    method Scan(ghost image: Bytes) returns (interrupted: bool)
      requires fHaveSeenFirstStartCode && Placed() && Kept() && start <= fCurParserIndex == fSavedParserIndex
      requires fSavedTo <= fTo <= fStartOfFrame.Length && Holds(fStartOfFrame[..fTo], fNumTruncatedBytes, fStartOfFrame.Length, image)
      requires image == Prefix() + fBank[start..fCurParserIndex]
      modifies `fCurParserIndex, `fSavedParserIndex, `fTo, `fSavedTo, `fNumTruncatedBytes, `fSavedNumTruncatedBytes,
               `fHaveSeenFirstByteOfNALUnit, `fFirstByteOfNALUnit, `kept, fStartOfFrame
      ensures (!interrupted ==> fHaveSeenFirstByteOfNALUnit) && Placed() && Kept() && interrupted == Find(fBank, start).None?
      ensures !interrupted ==>
                fCurParserIndex == Find(fBank, start).value && fTo <= fStartOfFrame.Length
                && Holds(fStartOfFrame[..fTo], fNumTruncatedBytes, fStartOfFrame.Length, Prefix() + fBank[start..fCurParserIndex])
    {
      hide Holds, CodeAt, NeverCode, Find;
      ghost var im := image;
      NotPassed(fBank, start, fCurParserIndex);
      if fCurParserIndex + 4 > |fBank| {
        return true;
      }
      if !fHaveSeenFirstByteOfNALUnit {
        fFirstByteOfNALUnit := fBank[fCurParserIndex];
        fHaveSeenFirstByteOfNALUnit := true;
      }
      while true
        invariant fHaveSeenFirstByteOfNALUnit && Placed() && Kept() && start <= fCurParserIndex == fSavedParserIndex
        invariant fTo <= fStartOfFrame.Length && Holds(fStartOfFrame[..fTo], fNumTruncatedBytes, fStartOfFrame.Length, im)
        invariant im == Prefix() + fBank[start..fCurParserIndex]
        decreases |fBank| - fCurParserIndex
      {
        NotPassed(fBank, start, fCurParserIndex);
        if fCurParserIndex + 4 > |fBank| {
          return true;
        }
        if CodeAt(fBank, fCurParserIndex) {
          FindIs(fBank, start, fCurParserIndex);
          return false;
        }
        if fBank[fCurParserIndex + 3] > 1 {
          SaveFour(im);
        } else {
          SaveOne(im);
        }
        im := kept;
      }
    }

    /** Includes a start code in the output, if one is wanted and has not been put there already. */
    method BeginOutput() returns (ghost image: Bytes)
      requires Resumed() && fHaveSeenFirstStartCode
      modifies `fTo, `fNumTruncatedBytes, fStartOfFrame
      ensures Placed() && Kept() && image == Prefix() + fBank[start..fCurParserIndex]
      ensures fSavedTo <= fTo <= fStartOfFrame.Length && Holds(fStartOfFrame[..fTo], fNumTruncatedBytes, fStartOfFrame.Length, image)
    {
      hide NeverCode, LongCodeAt;
      image := kept;
      if fOutputStartCodeSize > 0 && fTo == 0 {
        ghost var saved, truncated := fStartOfFrame[..fTo], fNumTruncatedBytes;
        assert fStartOfFrame[..fSavedTo] == [];
        Save4Bytes([0, 0, 0, 1], image);
        if kept == [] {
          assert fBank[start..fCurParserIndex] == [];
          image := Prefix() + [];
        }
      } else if kept == [] {
        assert fBank[start..fCurParserIndex] == [];
      }
    }

    /** What parse does behind the unit: skips the start code, and looks at the next unit if it must. */
    method FinishUnit() returns (interrupted: bool, endsAccessUnit: bool)
      requires fHaveSeenFirstStartCode && fHaveSeenFirstByteOfNALUnit && Placed()
      requires Find(fBank, start) == Some(fCurParserIndex)
      modifies `fCurParserIndex, `fSavedParserIndex, `fSavedTo, `fSavedNumTruncatedBytes, `fHaveSeenFirstByteOfNALUnit, `start, `kept
      ensures interrupted == !Complete(fHNumber, fBank, old(start))
      ensures interrupted ==> start == old(start) && fHaveSeenFirstByteOfNALUnit
      ensures interrupted ==> fSavedParserIndex == old(fSavedParserIndex) && fSavedTo == old(fSavedTo)
      ensures interrupted ==> fSavedNumTruncatedBytes == old(fSavedNumTruncatedBytes) && kept == old(kept)
      ensures !interrupted ==> Placed() && start == NextStart(fHNumber, fBank, old(start)) == fCurParserIndex == fSavedParserIndex
      ensures !interrupted ==> endsAccessUnit == EndsAccessUnit(fHNumber, fBank[old(start)], fBank, start)
    {
      hide Find, LooksAhead, EndsAccessUnit, CodeLength, NeverCode;
      fCurParserIndex := fCurParserIndex + CodeLength(fBank, fCurParserIndex);
      var first := fFirstByteOfNALUnit;
      if LooksAhead(fHNumber, first) && fCurParserIndex + 3 > |fBank| {
        return true, false;
      }
      interrupted, endsAccessUnit := false, EndsAccessUnit(fHNumber, first, fBank, fCurParserIndex);
      fHaveSeenFirstByteOfNALUnit := false;
      start := fCurParserIndex;
      SetParseState([]);
    }

    /** parse: cuts the next unit off, unless it is interrupted for want of input. */
    method Parse() returns (interrupted: bool, size: nat, endsAccessUnit: bool)
      requires Resumed()
      modifies `fCurParserIndex, `fSavedParserIndex, `fTo, `fSavedTo, `fNumTruncatedBytes, `fSavedNumTruncatedBytes,
               `fHaveSeenFirstStartCode, `fHaveSeenFirstByteOfNALUnit, `fFirstByteOfNALUnit, `start, `kept, fStartOfFrame
      ensures Placed() && (interrupted ==> Kept() && StartOf() == old(StartOf()))
      ensures interrupted <==> old(StartOf()).None? || !Complete(fHNumber, fBank, old(StartOf()).value)
      ensures !interrupted ==>
                fHaveSeenFirstStartCode && StartOf() == Some(NextStart(fHNumber, fBank, old(StartOf()).value)) && fCurParserIndex == fSavedParserIndex == start
      ensures !interrupted ==> endsAccessUnit == EndsAccessUnit(fHNumber, fBank[old(StartOf()).value], fBank, start)
      ensures !interrupted ==>
                size == fTo <= fStartOfFrame.Length
                && Holds(fStartOfFrame[..size], fNumTruncatedBytes, fStartOfFrame.Length, Prefix() + Unit(fHNumber, fBank, old(StartOf()).value))
    {
      hide Holds, CodeAt, NeverCode, Find, FindLong, LongCodeAt, LooksAhead, EndsAccessUnit, NextStart;
      if !fHaveSeenFirstStartCode {
        interrupted := SkipToFirstCode();
        if interrupted { return true, 0, false; }
      }
      ghost var image := BeginOutput();
      interrupted := Scan(image);
      if interrupted { return true, 0, false; }
      interrupted, endsAccessUnit := FinishUnit();
      size := if interrupted then 0 else fTo;
    }

    /** afterGettingBytes1: new input is at hand, and parsing begins again from the saved state. */
    method AfterGettingBytes(data: Bytes)
      requires Placed() && Kept()
      modifies `fBank, `fCurParserIndex, `fTo, `fNumTruncatedBytes
      ensures Resumed() && fBank == old(fBank) + data
      ensures old(StartOf()).Some? ==> StartOf() == old(StartOf())
    {
      hide Holds, NeverCode, LongCodeAt, CodeAt, FindLong;
      ghost var was, now := fBank, fBank + data;
      MoreInput(was, now, fSavedParserIndex, fHaveSeenFirstStartCode, start);
      if !fHaveSeenFirstStartCode && FindLong(was, 0).Some? { FindLongStays(was, now, 0); }
      fBank := fBank + data;
      fCurParserIndex, fTo, fNumTruncatedBytes := fSavedParserIndex, fSavedTo, fSavedNumTruncatedBytes;
    }

    /** registerReadInterest: the next unit goes to a buffer of the client's. */
    method RegisterReadInterest(to: array<bv8>)
      requires Placed() && fCurParserIndex == fSavedParserIndex == start && fHaveSeenFirstStartCode
      modifies `fStartOfFrame, `fTo, `fSavedTo, `fNumTruncatedBytes, `fSavedNumTruncatedBytes, `kept
      ensures Resumed() && fStartOfFrame == to && StartOf() == old(StartOf())
    {
      hide NeverCode;
      fStartOfFrame, fTo, fSavedTo, fNumTruncatedBytes, fSavedNumTruncatedBytes, kept := to, 0, 0, 0, 0, [];
    }

    /** The loop of parse that saves all that remains. */
    method SaveRest(ghost image: Bytes)
      requires fCurParserIndex <= |fBank| && fTo <= fStartOfFrame.Length
      requires Holds(fStartOfFrame[..fTo], fNumTruncatedBytes, fStartOfFrame.Length, image)
      modifies `fCurParserIndex, `fTo, `fNumTruncatedBytes, `fHaveSeenFirstByteOfNALUnit, `fFirstByteOfNALUnit, fStartOfFrame
      ensures fCurParserIndex == |fBank| && fTo <= fStartOfFrame.Length
      ensures Holds(fStartOfFrame[..fTo], fNumTruncatedBytes, fStartOfFrame.Length, image + fBank[old(fCurParserIndex)..])
    {
      hide Holds;
      var remainingDataSize := |fBank| - fCurParserIndex;
      ghost var saved := image;
      while remainingDataSize > 0
        invariant 0 <= remainingDataSize == |fBank| - fCurParserIndex && fTo <= fStartOfFrame.Length
        invariant saved + fBank[fCurParserIndex..] == image + fBank[old(fCurParserIndex)..]
        invariant Holds(fStartOfFrame[..fTo], fNumTruncatedBytes, fStartOfFrame.Length, saved)
        decreases remainingDataSize
      {
        var nextByte := fBank[fCurParserIndex];
        OneFurther(saved, fBank, fCurParserIndex);
        fCurParserIndex := fCurParserIndex + 1;
        if !fHaveSeenFirstByteOfNALUnit {
          fFirstByteOfNALUnit := nextByte;
          fHaveSeenFirstByteOfNALUnit := true;
        }
        SaveByte(nextByte, saved);
        saved := saved + [nextByte];
        remainingDataSize := remainingDataSize - 1;
      }
      assert saved + fBank[|fBank|..] == saved;
    }

    /** parse when the end of the input has been seen: all that remains is saved, but as one more byte is asked for, the call
        is interrupted all the same, and the last unit is never delivered. */
    method ParseAtEnd() returns (interrupted: bool)
      requires Resumed() && fTo <= fStartOfFrame.Length
      modifies `fCurParserIndex, `fSavedParserIndex, `fTo, `fNumTruncatedBytes,
               `fHaveSeenFirstStartCode, `fHaveSeenFirstByteOfNALUnit, `fFirstByteOfNALUnit, `start, fStartOfFrame
      ensures interrupted && fHaveSeenFirstStartCode == old(StartOf()).Some?
      ensures fHaveSeenFirstStartCode ==>
                var from := if old(fHaveSeenFirstStartCode) then old(fCurParserIndex) else old(StartOf()).value;
                && fCurParserIndex == |fBank| && from <= |fBank| && fTo <= fStartOfFrame.Length
                && Holds(fStartOfFrame[..fTo], fNumTruncatedBytes, fStartOfFrame.Length, old(kept) + fBank[from..])
    {
      hide Holds, NeverCode, LongCodeAt, FindLong;
      if !fHaveSeenFirstStartCode {
        interrupted := SkipToFirstCode();
        if interrupted { return true; }
      }
      SaveRest(kept);
      interrupted := fCurParserIndex + 1 > |fBank|;
    }
  }

  lemma {:induction false} MoreInput(s: Bytes, t: Bytes, saved: nat, seen: bool, start: nat)
    requires s <= t
    requires !seen ==> (saved == 0 || saved + 3 <= |s|) && forall i :: 0 <= i < saved ==> !LongCodeAt(s, i)
    requires seen ==> forall i :: start <= i < saved ==> NeverCode(s, i)
    ensures !seen ==> forall i :: 0 <= i < saved ==> !LongCodeAt(t, i)
    ensures seen ==> forall i :: start <= i < saved ==> NeverCode(t, i)
  {
    hide LongCodeAt, NeverCode;
    forall i | !seen && 0 <= i < saved
      ensures !LongCodeAt(t, i)
    {
      CodeStays(s, t, i);
    }
    forall i | seen && start <= i < saved
      ensures NeverCode(t, i)
    {
      NeverStays(s, t, i);
    }
  }

  lemma {:induction false} Longer(a: Bytes, b: Bytes, c: Bytes)
    ensures a + (b + c) == a + b + c
  {
  }

  lemma {:induction false} NotPassed(s: Bytes, start: nat, p: nat)
    requires start <= p <= |s| && forall i :: start <= i < p ==> NeverCode(s, i)
    ensures forall i :: start <= i < p ==> !CodeAt(s, i)
    ensures p + 4 > |s| ==> Find(s, start) == None
  {
    hide Find;
    forall i | start <= i < p
      ensures !CodeAt(s, i)
    {
      NeverStays(s, s, i);
    }
    if p + 4 > |s| { FindNone(s, start); }
  }

  lemma {:induction false} NoLongCode(s: Bytes, p: nat)
    requires p <= |s| < p + 4 && forall i :: 0 <= i < p ==> !LongCodeAt(s, i)
    ensures FindLong(s, 0) == None
  {
    hide FindLong;
    var r := FindLong(s, 0);
  }

  // ---------- A whole session ----------

  function Concat(chunks: seq<Bytes>): Bytes {
    if chunks == [] then [] else Concat(chunks[..|chunks| - 1]) + chunks[|chunks| - 1]
  }

  function Prefixed(prefix: Bytes, units: seq<Bytes>): seq<Bytes> {
    seq(|units|, i requires 0 <= i < |units| => prefix + units[i])
  }

  lemma {:induction false} PrefixedMore(prefix: Bytes, units: seq<Bytes>, u: Bytes)
    ensures Prefixed(prefix, units + [u]) == Prefixed(prefix, units) + [prefix + u]
    ensures Prefixed(prefix, []) == []
  {
  }

  /** `units` have been cut off what has been read, and the next one begins at `at`, if that is known. */
  predicate CaughtAt(h: Codec, s: Bytes, at: Option<nat>, units: seq<Bytes>) {
    match at
    case None => units == [] && FindLong(s, 0).None?
    case Some(start) => FindLong(s, 0).Some? && Cut(h, s, FindLong(s, 0).value + 4, units, start)
  }

  ghost predicate Caught(parser: H264or5VideoStreamParser, units: seq<Bytes>)
    reads parser
  {
    CaughtAt(parser.fHNumber, parser.fBank, parser.StartOf(), units)
  }

  /** The client's buffer has room for every unit, and the start code in front of it. */
  predicate Fit(units: seq<Bytes>, prefix: Bytes, limit: nat) {
    forall u :: u in units ==> |prefix| + |u| <= limit
  }

  lemma {:induction false} UnitFits(units: seq<Bytes>, prefix: Bytes, limit: nat, u: Bytes)
    requires Fit(units, prefix, limit) && u in units
    ensures |prefix + u| <= limit && (prefix + u == [] ==> u == [])
  {
  }

  function OutputPrefix(outputStartCodeSize: nat): Bytes {
    if outputStartCodeSize > 0 then [0, 0, 0, 1] else []
  }

  /** What doGetNextFrame and the parser do together with the input at hand: every unit that is cut off is given out, and a
      new buffer is registered for the next one. A unit of size 0 would be taken for a want of input. */
  method CatchUp(parser: H264or5VideoStreamParser, limit: nat, ghost units: seq<Bytes>) returns (frames: seq<Bytes>, ghost more: seq<Bytes>)
    requires parser.Resumed() && Caught(parser, units) && parser.fStartOfFrame.Length == limit
    requires Fit(UnitsIn(parser.fHNumber, parser.fBank), parser.Prefix(), limit)
    requires parser.fOutputStartCodeSize > 0 || [] !in UnitsIn(parser.fHNumber, parser.fBank)
    modifies parser, parser.fStartOfFrame
    ensures parser.Placed() && parser.Kept() && parser.fBank == old(parser.fBank) && parser.fStartOfFrame.Length == limit
    ensures parser.fStartOfFrame == old(parser.fStartOfFrame) || fresh(parser.fStartOfFrame)
    ensures Caught(parser, units + more) && units + more == UnitsIn(parser.fHNumber, parser.fBank)
    ensures frames == Prefixed(parser.Prefix(), more)
  {
    hide Holds, FindLong, Complete, Unit, NextStart, Units, Cut, NeverCode, LongCodeAt, EndsAccessUnit, Fit, UnitsIn, CaughtAt;
    frames, more := [], [];
    PrefixedMore(parser.Prefix(), [], []);
    assert units + [] == units;
    while true
      invariant parser.Resumed() && parser.fBank == old(parser.fBank) && parser.fStartOfFrame.Length == limit
      invariant parser.fStartOfFrame == old(parser.fStartOfFrame) || fresh(parser.fStartOfFrame)
      invariant Caught(parser, units + more) && frames == Prefixed(parser.Prefix(), more)
      decreases match parser.StartOf() { case None => |parser.fBank| + 1 case Some(start) => |parser.fBank| - start }
    {
      ghost var at := parser.StartOf();
      CaughtStart(parser.fHNumber, parser.fBank, at, units + more);
      var interrupted, size, endsAccessUnit := parser.Parse();
      if interrupted {
        CaughtAll(parser.fHNumber, parser.fBank, at, units + more);
        return;
      }
      ghost var unit := Unit(parser.fHNumber, parser.fBank, at.value);
      UnitTaken(parser.fHNumber, parser.fBank, at.value, units + more);
      UnitFits(UnitsIn(parser.fHNumber, parser.fBank), parser.Prefix(), limit, unit);
      FrameTaken(parser.fStartOfFrame[..size], parser.fNumTruncatedBytes, limit, parser.Prefix() + unit);
      if size == 0 {
        assert false;
      }
      PrefixedMore(parser.Prefix(), more, unit);
      assert units + more + [unit] == units + (more + [unit]);
      frames, more := frames + [parser.fStartOfFrame[..size]], more + [unit];
      var to := new bv8[limit];
      parser.RegisterReadInterest(to);
    }
  }

  lemma {:induction false} CaughtStart(h: Codec, s: Bytes, at: Option<nat>, units: seq<Bytes>)
    requires CaughtAt(h, s, at, units)
    ensures at.None? ==> FindLong(s, 0) == None
  {
    hide Cut;
  }

  lemma {:induction false} FrameTaken(saved: Bytes, truncated: nat, limit: nat, image: Bytes)
    requires Holds(saved, truncated, limit, image) && |image| <= limit
    ensures saved == image && truncated == 0
  {
  }

  lemma {:induction false} CaughtAll(h: Codec, s: Bytes, at: Option<nat>, units: seq<Bytes>)
    requires at.None? || !Complete(h, s, at.value)
    requires CaughtAt(h, s, at, units)
    ensures units == UnitsIn(h, s)
  {
    hide Complete, FindLong, Unit, NextStart, Cut;
    if at.Some? {
      CutUnits(h, s, FindLong(s, 0).value + 4, units, at.value);
      assert units + [] == units;
    }
  }

  lemma {:induction false} UnitTaken(h: Codec, s: Bytes, start: nat, units: seq<Bytes>)
    requires Complete(h, s, start)
    requires CaughtAt(h, s, Some(start), units)
    ensures CaughtAt(h, s, Some(NextStart(h, s, start)), units + [Unit(h, s, start)])
    ensures Unit(h, s, start) in UnitsIn(h, s)
  {
    hide FindLong, Cut, Units, NextStart, Complete;
    var first, u := FindLong(s, 0).value + 4, Unit(h, s, start);
    CutMore(h, s, first, units, start);
    CutUnits(h, s, first, units + [u], NextStart(h, s, start));
    assert (units + [u] + Units(h, s, NextStart(h, s, start)))[|units|] == u;
  }

  lemma {:induction false} NothingRead(h: Codec)
    ensures CaughtAt(h, [], None, []) && UnitsIn(h, []) == [] && Concat([]) == []
  {
  }

  lemma {:induction false} StillCaught(h: Codec, was: Bytes, now: Bytes, units: seq<Bytes>, at: Option<nat>, at': Option<nat>)
    requires was <= now && CaughtAt(h, was, at, units)
    requires at.Some? ==> at' == at
    requires at.None? ==> at' == if FindLong(now, 0).Some? then Some(FindLong(now, 0).value + 4) else None
    ensures CaughtAt(h, now, at', units)
  {
    hide FindLong;
    if at.Some? {
      FindLongStays(was, now, 0);
      CutStays(h, was, now, FindLong(was, 0).value + 4, units, at.value);
    }
  }

  lemma {:induction false} ConcatNext(chunks: seq<Bytes>, k: nat)
    requires k < |chunks|
    ensures Concat(chunks[..k + 1]) == Concat(chunks[..k]) + chunks[k]
  {
    assert chunks[..k + 1][..k] == chunks[..k];
  }

  lemma {:induction false} ChunksWithin(chunks: seq<Bytes>, k: nat)
    requires k <= |chunks|
    ensures Concat(chunks[..k]) <= Concat(chunks)
    decreases |chunks|
  {
    if k < |chunks| {
      var front := chunks[..|chunks| - 1];
      ChunksWithin(front, k);
      assert front[..k] == chunks[..k];
    } else {
      assert chunks[..k] == chunks;
    }
  }

  /** More input does not make a unit empty. */
  lemma {:induction false} StreamsWithin(h: Codec, s: Bytes, t: Bytes)
    requires s <= t
    ensures UnitsIn(h, s) <= UnitsIn(h, t)
  {
    hide FindLong, Units;
    if FindLong(s, 0).Some? {
      FindLongStays(s, t, 0);
      UnitsGrow(h, s, t, FindLong(s, 0).value + 4);
    }
  }

  lemma {:induction false} PrefixedAppend(prefix: Bytes, units: seq<Bytes>, more: seq<Bytes>)
    ensures Prefixed(prefix, units + more) == Prefixed(prefix, units) + Prefixed(prefix, more)
  {
  }

  lemma {:induction false} FitWithin(s: seq<Bytes>, t: seq<Bytes>, prefix: Bytes, limit: nat)
    requires s <= t && Fit(t, prefix, limit)
    ensures Fit(s, prefix, limit)
  {
    forall u | u in s ensures |prefix| + |u| <= limit {
      var i :| 0 <= i < |s| && s[i] == u;
      assert t[i] == u;
    }
  }

  lemma {:induction false} InPrefix(s: seq<Bytes>, t: seq<Bytes>, u: Bytes)
    requires s <= t && u !in t
    ensures u !in s
  {
    assert forall i :: 0 <= i < |s| ==> s[i] == t[i];
  }

  /** However the input is cut into chunks, what is given out are the units of the whole stream. */
  method ReadStream(h: Codec, outputStartCodeSize: nat, chunks: seq<Bytes>, limit: nat) returns (frames: seq<Bytes>)
    requires Fit(UnitsIn(h, Concat(chunks)), OutputPrefix(outputStartCodeSize), limit)
    requires outputStartCodeSize > 0 || [] !in UnitsIn(h, Concat(chunks))
    ensures frames == Prefixed(if outputStartCodeSize > 0 then [0, 0, 0, 1] else [], UnitsIn(h, Concat(chunks)))
  {
    hide Holds, FindLong, Complete, Unit, NextStart, Units, Cut, NeverCode, LongCodeAt, Prefixed, CaughtAt, UnitsIn, Concat, Fit;
    var to := new bv8[limit];
    var parser := new H264or5VideoStreamParser(h, outputStartCodeSize, to);
    ghost var units: seq<Bytes> := [];
    frames := [];
    NothingRead(h);
    PrefixedMore(parser.Prefix(), [], []);
    for k := 0 to |chunks|
      invariant parser.Placed() && parser.Kept() && fresh(parser) && fresh(parser.fStartOfFrame) && parser.fStartOfFrame.Length == limit
      invariant parser.fBank == Concat(chunks[..k])
      invariant Caught(parser, units) && units == UnitsIn(h, parser.fBank)
      invariant frames == Prefixed(parser.Prefix(), units)
    {
      ConcatNext(chunks, k);
      ChunksWithin(chunks, k + 1);
      StreamsWithin(h, Concat(chunks[..k + 1]), Concat(chunks));
      FitWithin(UnitsIn(h, Concat(chunks[..k + 1])), UnitsIn(h, Concat(chunks)), parser.Prefix(), limit);
      if outputStartCodeSize == 0 { InPrefix(UnitsIn(h, Concat(chunks[..k + 1])), UnitsIn(h, Concat(chunks)), []); }
      ghost var was, at := parser.fBank, parser.StartOf();
      parser.AfterGettingBytes(chunks[k]);
      StillCaught(h, was, parser.fBank, units, at, parser.StartOf());
      var next;
      ghost var more;
      next, more := CatchUp(parser, limit, units);
      PrefixedAppend(parser.Prefix(), units, more);
      frames, units := frames + next, units + more;
    }
    assert chunks[..|chunks|] == chunks;
  }
}
