/** The fragmenter, which overwrites bytes it has already sent with the headers of the next packet, and the
    receivers, which rebuild the NAL header inside the packet. */
module Fragmenters {
  import opened Codecs
  import opened NalFragments
  import opened Slices

  /** The bytes not yet sent are still in the buffer and, once a fragment was sent, so are its headers. */
  ghost predicate Loaded(buffer: seq<bv8>, c: Codec, nal: seq<bv8>, off: nat) {
    && 1 <= off <= |nal| + 1 <= |buffer|
    && buffer[off..|nal| + 1] == nal[off - 1..]
    && (off > 1 ==> |nal| >= FuLength(c) && buffer[..FuLength(c)] == FuPrefix(c, nal, true, false))
  }

  class H264or5Fragmenter {
    const codec: Codec
    const fMaxOutputPacketSize: nat
    const fInputBuffer: array<bv8>
    var fNumValidDataBytes: nat
    var fCurDataOffset: nat
    var fLastFragmentCompletedNALUnit: bool
    ghost var nal: seq<bv8> // the unit being sent; empty when a new one is needed

    ghost predicate Valid()
      reads this, fInputBuffer
    {
      && fMaxOutputPacketSize >= MinLimit(codec)
      && fNumValidDataBytes == |nal| + 1 <= fInputBuffer.Length
      && 1 <= fCurDataOffset <= fNumValidDataBytes
      && (fCurDataOffset == fNumValidDataBytes ==> fCurDataOffset == 1)
      && (fCurDataOffset > 1 ==> fCurDataOffset >= MinLimit(codec))
      && Loaded(fInputBuffer[..], codec, nal, fCurDataOffset)
    }

    constructor (codec: Codec, inputBufferMax: nat, maxOutputPacketSize: nat)
      requires maxOutputPacketSize >= MinLimit(codec)
      ensures Valid() && nal == [] && fCurDataOffset == 1 && fLastFragmentCompletedNALUnit
      ensures this.codec == codec && fMaxOutputPacketSize == maxOutputPacketSize && fInputBuffer.Length == inputBufferMax + 1
    {
      this.codec, fMaxOutputPacketSize := codec, maxOutputPacketSize;
      fInputBuffer := new bv8[inputBufferMax + 1];
      new;
      Reset();
    }

    /** A new unit arrives behind the byte reserved for the FU indicator. */
    method AfterGettingFrame(unit: seq<bv8>)
      requires Valid() && nal == []
      requires |unit| < fInputBuffer.Length
      modifies this`fNumValidDataBytes, this`nal, fInputBuffer
      ensures Valid() && nal == unit && fCurDataOffset == 1
    {
      forall i | 0 <= i < |unit| {
        fInputBuffer[1 + i] := unit[i];
      }
      fNumValidDataBytes := fNumValidDataBytes + |unit|;
      nal := unit;
      assert fInputBuffer[..][1..fNumValidDataBytes] == unit;
    }

    /** Nothing is left to be sent. */
    method Reset()
      requires fMaxOutputPacketSize >= MinLimit(codec) && fInputBuffer.Length > 0
      modifies this`fNumValidDataBytes, this`fCurDataOffset, this`fLastFragmentCompletedNALUnit, this`nal
      ensures Valid() && nal == [] && fCurDataOffset == 1 && fLastFragmentCompletedNALUnit
    {
      fNumValidDataBytes, fCurDataOffset, fLastFragmentCompletedNALUnit := 1, 1, true;
      nal := [];
    }

    /** Case 1: the whole unit fits. */
    method SendWhole() returns (to: seq<bv8>)
      requires Valid() && nal != [] && fCurDataOffset == 1
      modifies this`fCurDataOffset
      ensures to == nal && fCurDataOffset == fNumValidDataBytes
    {
      to := fInputBuffer[..][1..fNumValidDataBytes];
      fCurDataOffset := fNumValidDataBytes;
      assert nal[0..] == nal;
    }

    /** The headers of the first fragment, written over the unit's own. */
    method WriteFirstHeaders()
      requires |nal| >= FuLength(codec) && fInputBuffer.Length > |nal|
      requires forall i :: 1 <= i <= |nal| ==> fInputBuffer[i] == nal[i - 1]
      modifies fInputBuffer
      ensures fInputBuffer[..] == FuPrefix(codec, nal, true, false) + old(fInputBuffer[..])[FuLength(codec)..]
    {
      hide FuHeader, NalType;
      FirstHeader(codec, nal);
      if codec.H264? {
        fInputBuffer[0] := (fInputBuffer[1] & 0xE0) | 28;
        fInputBuffer[1] := 0x80 | (fInputBuffer[1] & 0x1F);
      } else {
        var nalUnitType := (fInputBuffer[1] & 0x7E) >> 1;
        fInputBuffer[0] := (fInputBuffer[1] & 0x81) | (49 << 1);
        fInputBuffer[1] := fInputBuffer[2];
        fInputBuffer[2] := 0x80 | nalUnitType;
      }
    }

    /** Case 2: the first fragment. */
    method SendFirst(maxSize: nat) returns (to: seq<bv8>)
      requires Valid() && |nal| > maxSize >= MinLimit(codec) && fCurDataOffset == 1
      modifies this`fCurDataOffset, fInputBuffer
      ensures Valid() && fCurDataOffset == maxSize
      ensures to == FuPrefix(codec, nal, true, false) + nal[FuLength(codec) - 1..maxSize - 1]
    {
      ghost var before := fInputBuffer[..];
      UnsentAt(before, codec, nal);
      WriteFirstHeaders();
      hide FuPrefix, Loaded;
      HeaderInFront(before, fInputBuffer[..], codec, nal, FuPrefix(codec, nal, true, false), maxSize);
      to := fInputBuffer[..][..maxSize];
      fCurDataOffset := fCurDataOffset + (maxSize - 1);
    }

    /** The headers of a continuation, written over bytes that were sent before: the saved ones without the start
        bit, and with the end bit on the last fragment. */
    method WriteContinuation264(last: bool)
      requires 4 <= fCurDataOffset <= fInputBuffer.Length
      modifies fInputBuffer
      ensures fInputBuffer[..] == Overwritten264(old(fInputBuffer[..]), fCurDataOffset, last)
    {
      fInputBuffer[fCurDataOffset - 2] := fInputBuffer[0];
      fInputBuffer[fCurDataOffset - 1] := fInputBuffer[1] & !0x80;
      if last {
        fInputBuffer[fCurDataOffset - 1] := fInputBuffer[fCurDataOffset - 1] | 0x40;
      }
    }

    method WriteContinuation265(last: bool)
      requires 6 <= fCurDataOffset <= fInputBuffer.Length
      modifies fInputBuffer
      ensures fInputBuffer[..] == Overwritten265(old(fInputBuffer[..]), fCurDataOffset, last)
    {
      fInputBuffer[fCurDataOffset - 3] := fInputBuffer[0];
      fInputBuffer[fCurDataOffset - 2] := fInputBuffer[1];
      fInputBuffer[fCurDataOffset - 1] := fInputBuffer[2] & !0x80;
      if last {
        fInputBuffer[fCurDataOffset - 1] := fInputBuffer[fCurDataOffset - 1] | 0x40;
      }
    }

    method WriteContinuationHeaders(last: bool)
      requires Loaded(fInputBuffer[..], codec, nal, fCurDataOffset) && fCurDataOffset >= MinLimit(codec)
      modifies fInputBuffer
      ensures fInputBuffer[..] == old(fInputBuffer[..])[..fCurDataOffset - FuLength(codec)] + FuPrefix(codec, nal, false, last)
                                  + old(fInputBuffer[..])[fCurDataOffset..]
    {
      hide FuPrefix, Overwritten264, Overwritten265;
      LoadedHeaders(fInputBuffer[..], codec, nal, fCurDataOffset, last);
      if codec.H264? { WriteContinuation264(last); } else { WriteContinuation265(last); }
    }

    /** Case 3: a continuation. */
    method SendContinuation(maxSize: nat) returns (to: seq<bv8>)
      requires Valid() && nal != [] && maxSize >= MinLimit(codec) && fCurDataOffset > 1
      modifies this`fCurDataOffset, this`fLastFragmentCompletedNALUnit, fInputBuffer
      ensures to == Packet(codec, nal, old(fCurDataOffset), maxSize)
      ensures fCurDataOffset == NextOffset(codec, nal, old(fCurDataOffset), maxSize)
      ensures fCurDataOffset < fNumValidDataBytes ==> Valid()
      ensures fLastFragmentCompletedNALUnit == (old(fLastFragmentCompletedNALUnit) && fCurDataOffset == fNumValidDataBytes)
    {
      hide FuPrefix, Packet, NextOffset, Loaded;
      ghost var before, off, h := fInputBuffer[..], fCurDataOffset, FuLength(codec);
      var numExtraHeaderBytes := if codec.H264? then 2 else 3;
      var numBytesToSend := numExtraHeaderBytes + (fNumValidDataBytes - fCurDataOffset);
      var last := numBytesToSend <= maxSize;
      WriteContinuationHeaders(last);
      if !last {
        // not all of the remaining data can be sent this time
        numBytesToSend := maxSize;
        fLastFragmentCompletedNALUnit := false;
      }
      ghost var k := numBytesToSend - h;
      ContinuationPacket(codec, nal, off, maxSize, k, last);
      HeaderInside(before, fInputBuffer[..], codec, nal, off, FuPrefix(codec, nal, false, last), k);
      var start := fCurDataOffset - numExtraHeaderBytes;
      assert start == off - h && start + numBytesToSend == off + k;
      to := fInputBuffer[..][start..start + numBytesToSend];
      fCurDataOffset := fCurDataOffset + (numBytesToSend - numExtraHeaderBytes);
      assert fCurDataOffset == off + k;
    }

    /** Delivers the next packet, within the smaller of the sink's size and the configured one. */
    method DoGetNextFrame(fMaxSize: nat) returns (to: seq<bv8>)
      requires Valid() && nal != [] && fMaxSize >= MinLimit(codec)
      modifies this, fInputBuffer
      ensures Valid()
      ensures var m := if fMaxSize < fMaxOutputPacketSize then fMaxSize else fMaxOutputPacketSize;
        var next := NextOffset(codec, old(nal), old(fCurDataOffset), m);
        && to == Packet(codec, old(nal), old(fCurDataOffset), m)
        && fLastFragmentCompletedNALUnit == (next == |old(nal)| + 1)
        && if next == |old(nal)| + 1 then nal == [] && fCurDataOffset == 1 else nal == old(nal) && fCurDataOffset == next
    {
      hide FuPrefix, Packet, NextOffset, Loaded;
      var maxSize := if fMaxSize < fMaxOutputPacketSize then fMaxSize else fMaxOutputPacketSize;
      FirstPacket(codec, nal, maxSize);
      fLastFragmentCompletedNALUnit := true;
      if fCurDataOffset == 1 {
        if fNumValidDataBytes - 1 <= maxSize {
          to := SendWhole();
        } else {
          to := SendFirst(maxSize);
          fLastFragmentCompletedNALUnit := false;
        }
      } else {
        to := SendContinuation(maxSize);
      }
      if fCurDataOffset >= fNumValidDataBytes {
        fNumValidDataBytes, fCurDataOffset := 1, 1;
        nal := [];
        NothingLoaded(fInputBuffer[..], codec);
      }
    }

    /** Delivers packets until the unit is complete. */
    method SendUnit(unit: seq<bv8>, fMaxSize: nat) returns (packets: seq<seq<bv8>>)
      requires Valid() && nal == [] && fMaxSize >= MinLimit(codec) && |unit| < fInputBuffer.Length
      modifies this, fInputBuffer
      ensures Valid() && nal == []
      ensures packets == Packets(codec, unit, 1, if fMaxSize < fMaxOutputPacketSize then fMaxSize else fMaxOutputPacketSize)
    {
      hide Packet, Packets, NextOffset, Loaded;
      ghost var m := if fMaxSize < fMaxOutputPacketSize then fMaxSize else fMaxOutputPacketSize;
      AfterGettingFrame(unit);
      packets := [];
      ghost var off := 1;
      while fNumValidDataBytes > 1
        invariant Valid() && (nal == [] || nal == unit) && 1 <= off <= |unit| + 1
        invariant off == if nal == [] then |unit| + 1 else fCurDataOffset
        invariant packets + Packets(codec, unit, off, m) == Packets(codec, unit, 1, m)
        decreases |unit| + 1 - off
      {
        PacketsStep(codec, unit, off, m, packets);
        var packet := DoGetNextFrame(fMaxSize);
        packets := packets + [packet];
        off := NextOffset(codec, unit, off, m);
      }
      NoMorePackets(codec, unit, m);
    }
  }

  lemma {:induction false} PacketsStep(c: Codec, nal: seq<bv8>, off: nat, m: nat, sent: seq<seq<bv8>>)
    requires m >= MinLimit(c) && 1 <= off <= |nal|
    ensures sent + Packets(c, nal, off, m) == (sent + [Packet(c, nal, off, m)]) + Packets(c, nal, NextOffset(c, nal, off, m), m)
  {
    hide Packet, NextOffset;
  }

  lemma {:induction false} NoMorePackets(c: Codec, nal: seq<bv8>, m: nat)
    requires m >= MinLimit(c)
    ensures Packets(c, nal, |nal| + 1, m) == []
  {
  }

  lemma {:induction false} UnsentAt(buffer: seq<bv8>, c: Codec, nal: seq<bv8>)
    requires Loaded(buffer, c, nal, 1)
    ensures forall i :: 1 <= i <= |nal| ==> buffer[i] == nal[i - 1]
  {
    forall i | 1 <= i <= |nal|
      ensures buffer[i] == nal[i - 1]
    {
      assert buffer[1..|nal| + 1][i - 1] == nal[0..][i - 1];
    }
  }

  /** The first packet, read off the buffer once the headers stand at its front. */
  lemma {:induction false} HeaderInFront(before: seq<bv8>, after: seq<bv8>, c: Codec, nal: seq<bv8>, prefix: seq<bv8>, m: nat)
    requires MinLimit(c) <= m < |nal| < |before| && prefix == FuPrefix(c, nal, true, false)
    requires after == prefix + before[FuLength(c)..]
    requires forall i :: 1 <= i <= |nal| ==> before[i] == nal[i - 1]
    ensures after[..m] == prefix + nal[FuLength(c) - 1..m - 1]
    ensures Loaded(after, c, nal, m)
  {
    hide FuPrefix;
    var h := FuLength(c);
    assert forall i :: h <= i <= |nal| ==> after[i] == before[i] == nal[i - 1];
    assert after[m..|nal| + 1] == nal[m - 1..];
    assert after[..h] == prefix;
    assert after[h..m] == nal[h - 1..m - 1];
    assert after[..m] == after[..h] + after[h..m];
  }

  function ContinuationFu(fu: bv8, last: bool): bv8 {
    if last then (fu & !0x80) | 0x40 else fu & !0x80
  }

  function Overwritten264(b: seq<bv8>, off: nat, last: bool): seq<bv8>
    requires 4 <= off <= |b|
  {
    b[off - 2 := b[0]][off - 1 := ContinuationFu(b[1], last)]
  }

  function Overwritten265(b: seq<bv8>, off: nat, last: bool): seq<bv8>
    requires 6 <= off <= |b|
  {
    b[off - 3 := b[0]][off - 2 := b[1]][off - 1 := ContinuationFu(b[2], last)]
  }

  /** The overwritten buffer has the headers of a continuation in front of the unsent bytes. */
  lemma {:induction false} LoadedHeaders(b: seq<bv8>, c: Codec, nal: seq<bv8>, off: nat, last: bool)
    requires Loaded(b, c, nal, off) && off >= MinLimit(c)
    ensures var prefix := FuPrefix(c, nal, false, last);
      (if c.H264? then Overwritten264(b, off, last) else Overwritten265(b, off, last))
      == b[..off - FuLength(c)] + prefix + b[off..]
  {
    hide FuPrefix, ContinuationFu;
    var first, prefix := FuPrefix(c, nal, true, false), FuPrefix(c, nal, false, last);
    assert forall i :: 0 <= i < FuLength(c) ==> b[i] == b[..FuLength(c)][i] == first[i];
    ContinuationPrefix(c, nal, last);
    match c {
      case H264 => assert prefix == [b[0], ContinuationFu(b[1], last)];
      case H265 => assert prefix == [b[0], b[1], ContinuationFu(b[2], last)];
    }
  }

  lemma {:induction false} ContinuationPrefix(c: Codec, nal: seq<bv8>, last: bool)
    requires |nal| >= FuLength(c)
    ensures var first, prefix := FuPrefix(c, nal, true, false), FuPrefix(c, nal, false, last);
      && prefix[0] == first[0] && (c.H265? ==> prefix[1] == first[1])
      && prefix[FuLength(c) - 1] == ContinuationFu(first[FuLength(c) - 1], last)
  {
    hide FuHeader;
    FlagBits(NalType(c, nal));
  }

  /** A continuation packet, read off the buffer once its headers stand in front of the unsent bytes. */
  lemma {:induction false} HeaderInside(before: seq<bv8>, after: seq<bv8>, c: Codec, nal: seq<bv8>, off: nat, prefix: seq<bv8>, k: nat)
    requires Loaded(before, c, nal, off) && MinLimit(c) <= off <= off + k <= |nal| + 1 && |prefix| == FuLength(c)
    requires after == before[..off - FuLength(c)] + prefix + before[off..]
    ensures after[off - FuLength(c)..off + k] == prefix + nal[off - 1..off - 1 + k]
    ensures Loaded(after, c, nal, off + k)
  {
    hide FuPrefix;
    var h := FuLength(c);
    var n := |nal| + 1;
    assert after[off..n] == before[off..n] == nal[off - 1..|nal|];
    SliceOfSlice(after, off, n, 0, k);
    SliceOfSlice(after, off, n, k, n - off);
    SliceOfSlice(nal, off - 1, |nal|, 0, k);
    SliceOfSlice(nal, off - 1, |nal|, k, n - off);
    assert after[..h] == before[..h];
    assert after[off - h..off + k] == after[off - h..off] + after[off..off + k];
  }

  lemma {:induction false} NothingLoaded(buffer: seq<bv8>, c: Codec)
    requires buffer != []
    ensures Loaded(buffer, c, [], 1)
  {
  }

  lemma {:induction false} FirstPacket(c: Codec, nal: seq<bv8>, m: nat)
    requires m >= MinLimit(c) && nal != []
    ensures |nal| <= m ==> Packet(c, nal, 1, m) == nal && NextOffset(c, nal, 1, m) == |nal| + 1
    ensures |nal| > m ==> Packet(c, nal, 1, m) == FuPrefix(c, nal, true, false) + nal[FuLength(c) - 1..m - 1]
    ensures |nal| > m ==> NextOffset(c, nal, 1, m) == m
  {
    hide FuPrefix;
  }

  lemma {:induction false} ContinuationPacket(c: Codec, nal: seq<bv8>, off: nat, m: nat, k: nat, last: bool)
    requires m >= MinLimit(c) && |nal| >= FuLength(c) - 1 && 1 < off <= |nal|
    requires var rest := |nal| + 1 - off; last == (FuLength(c) + rest <= m) && k == if last then rest else m - FuLength(c)
    ensures Packet(c, nal, off, m) == FuPrefix(c, nal, false, last) + nal[off - 1..off - 1 + k]
    ensures NextOffset(c, nal, off, m) == off + k
  {
    hide FuPrefix;
    assert last ==> nal[off - 1..off - 1 + k] == nal[off - 1..];
  }

  lemma {:induction false} FirstHeader(c: Codec, nal: seq<bv8>)
    requires |nal| >= FuLength(c) - 1
    ensures FuPrefix(c, nal, true, false) ==
            if c.H264? then [(nal[0] & 0xE0) | 28, 0x80 | (nal[0] & 0x1F)]
            else [(nal[0] & 0x81) | (49 << 1), nal[1], 0x80 | ((nal[0] & 0x7E) >> 1)]
  {
  }

  lemma {:induction false} FlagBits(t: bv8)
    requires t < 64
    ensures forall last :: FuHeader(false, last, t) == ContinuationFu(FuHeader(true, false, t), last)
  {
  }
}
