/** Emulation prevention bytes: their insertion (section 7.4.1 of ITU-T H.264), and their removal into a limited buffer. */
module EmulationBytes {
  import opened StartCodes

  // ---------- Insertion ----------

  /** What is written for a payload after `zeros` zero bytes (at most two) have just been written. */
  function Inserted(payload: Bytes, zeros: nat): Bytes {
    if payload == [] then (if zeros == 2 then [3] else [])
    else if zeros == 2 && payload[0] <= 3 then
      [3, payload[0]] + Inserted(payload[1..], if payload[0] == 0 then 1 else 0)
    else
      [payload[0]] + Inserted(payload[1..], if payload[0] == 0 && zeros < 2 then zeros + 1 else 0)
  }

  // ---------- Removal ----------

  /** 00 00 03 begins at `i`. */
  predicate EmulationAt(s: Bytes, i: nat) {
    i + 2 < |s| && s[i] == 0 && s[i + 1] == 0 && s[i + 2] == 3
  }

  function Removed(s: Bytes): Bytes {
    if s == [] then []
    else if EmulationAt(s, 0) then [0, 0] + Removed(s[3..])
    else [s[0]] + Removed(s[1..])
  }

  function Zeros(n: nat): Bytes {
    seq(n, _ => 0)
  }

  lemma {:induction false} RemovedOne(b: bv8, rest: Bytes)
    requires !EmulationAt([b] + rest, 0)
    ensures Removed([b] + rest) == [b] + Removed(rest)
  {
    assert ([b] + rest)[1..] == rest;
  }

  lemma {:induction false} RemovedThree(rest: Bytes)
    ensures Removed([0, 0, 3] + rest) == [0, 0] + Removed(rest)
  {
    assert ([0, 0, 3] + rest)[3..] == rest;
  }

  lemma {:induction false} RemoveInverts(payload: Bytes, zeros: nat)
    requires zeros <= 2
    ensures Removed(Zeros(zeros) + Inserted(payload, zeros)) == Zeros(zeros) + payload
    decreases |payload|
  {
    hide Removed;
    if payload == [] {
      RemoveAtEnd(zeros);
    } else {
      var b, rest := payload[0], payload[1..];
      var next := if b == 0 then (if zeros == 2 then 1 else zeros + 1) else 0;
      RemoveInverts(rest, next);
      assert payload == [b] + rest;
      InsertedStep(payload, zeros);
      RemoveStep(b, rest, zeros, Inserted(rest, next));
    }
  }

  lemma {:induction false} InsertedStep(payload: Bytes, zeros: nat)
    requires zeros <= 2 && payload != []
    ensures var b := payload[0];
      var next := if b == 0 then (if zeros == 2 then 1 else zeros + 1) else 0;
      Inserted(payload, zeros) == (if zeros == 2 && b <= 3 then [3, b] else [b]) + Inserted(payload[1..], next)
  {
  }

  lemma {:induction false} RemoveAtEnd(zeros: nat)
    requires zeros <= 2
    ensures Removed(Zeros(zeros) + Inserted([], zeros)) == Zeros(zeros)
  {
    if zeros == 1 {
      assert Zeros(1) + [] == [0] + [];
      RemovedOne(0, []);
    } else if zeros == 2 {
      assert Zeros(2) + [3] == [0, 0, 3] + [];
      RemovedThree([]);
    } else {
      assert Zeros(0) + [] == [];
    }
  }

  /** One byte of the payload, with the removal under way. */
  lemma {:induction false} RemoveStep(b: bv8, rest: Bytes, zeros: nat, tail: Bytes)
    requires zeros <= 2
    requires var next := if b == 0 then (if zeros == 2 then 1 else zeros + 1) else 0;
      Removed(Zeros(next) + tail) == Zeros(next) + rest
    ensures Removed(Zeros(zeros) + ((if zeros == 2 && b <= 3 then [3, b] else [b]) + tail)) == Zeros(zeros) + ([b] + rest)
  {
    hide Removed;
    if zeros == 2 && b <= 3 {
      RemovedThree([b] + tail);
      assert Zeros(2) + ([3, b] + tail) == [0, 0, 3] + ([b] + tail);
      RemoveByte(b, rest, 0, tail);
      assert Zeros(0) + ([b] + tail) == [b] + tail && Zeros(0) + ([b] + rest) == [b] + rest;
      assert [0, 0] + ([b] + rest) == Zeros(2) + ([b] + rest);
    } else {
      RemoveByte(b, rest, zeros, tail);
    }
  }

  lemma {:induction false} RemoveByte(b: bv8, rest: Bytes, zeros: nat, tail: Bytes)
    requires zeros <= 2 && (zeros == 2 ==> b > 3)
    requires var next := if b == 0 then zeros + 1 else 0; Removed(Zeros(next) + tail) == Zeros(next) + rest
    ensures Removed(Zeros(zeros) + ([b] + tail)) == Zeros(zeros) + ([b] + rest)
  {
    hide Removed;
    if b == 0 {
      assert Zeros(zeros) + ([b] + tail) == Zeros(zeros + 1) + tail;
      assert Zeros(zeros) + ([b] + rest) == Zeros(zeros + 1) + rest;
    } else {
      assert Zeros(0) + tail == tail && Zeros(0) + rest == rest;
      RemovedOne(b, tail);
      if zeros >= 1 { RemovedOne(0, [b] + tail); }
      if zeros == 2 {
        RemovedOne(0, [0] + ([b] + tail));
        assert Zeros(2) + ([b] + tail) == [0] + ([0] + ([b] + tail));
      } else if zeros == 1 {
        assert Zeros(1) + ([b] + tail) == [0] + ([b] + tail);
      } else {
        assert Zeros(0) + ([b] + tail) == [b] + tail;
      }
    }
  }

  /** Removal gives back every payload. */
  lemma {:induction false} RemovalInvertsInsertion(payload: Bytes)
    ensures Removed(Inserted(payload, 0)) == payload
  {
    hide Removed, Inserted;
    RemoveInverts(payload, 0);
    assert Zeros(0) + Inserted(payload, 0) == Inserted(payload, 0) && Zeros(0) + payload == payload;
  }

  // ---------- Written payloads are clean ----------

  function NextZeros(b: bv8, zeros: nat): nat {
    if b == 0 then (if zeros == 2 then 1 else zeros + 1) else 0
  }

  /** How many zeros have just been written at the end of a payload. */
  function EndZeros(payload: Bytes, zeros: nat): nat {
    if payload == [] then zeros else EndZeros(payload[1..], NextZeros(payload[0], zeros))
  }

  predicate Free(w: Bytes) {
    forall i :: 0 <= i < |w| - 2 && w[i] == 0 && w[i + 1] == 0 ==> w[i + 2] > 1
  }

  lemma {:induction false} FreeAfter(a: Bytes, w: Bytes)
    requires Free(a) && Free(w) && a != [] && a[|a| - 1] != 0
    ensures Free(a + w)
  {
  }

  lemma {:induction false} LastOf(a: Bytes, w: Bytes)
    requires a + w != []
    ensures (a + w)[|a + w| - 1] == if w == [] then a[|a| - 1] else w[|w| - 1]
  {
  }

  /** No start code is written, and the last byte is a zero only after an odd zero of the payload. */
  lemma {:induction false} WrittenFree(payload: Bytes, zeros: nat)
    requires zeros <= 2
    ensures var w := Zeros(zeros) + Inserted(payload, zeros);
      && Free(w) && (w == [] <==> zeros == 0 && payload == [])
      && (w != [] ==> (w[|w| - 1] == 0 <==> EndZeros(payload, zeros) == 1))
    decreases |payload|
  {
    hide Free;
    if payload == [] {
      FreeAtEnd(zeros);
    } else {
      var b, rest := payload[0], payload[1..];
      var next := NextZeros(b, zeros);
      WrittenFree(rest, next);
      InsertedStep(payload, zeros);
      FreeStep(b, zeros, Inserted(rest, next));
    }
  }

  lemma {:induction false} FreeAtEnd(zeros: nat)
    requires zeros <= 2
    ensures var w := Zeros(zeros) + Inserted([], zeros); Free(w) && |w| == (if zeros == 2 then 3 else zeros)
    ensures zeros == 2 ==> (Zeros(zeros) + Inserted([], zeros))[2] == 3
  {
  }

  lemma {:induction false} FreeStep(b: bv8, zeros: nat, tail: Bytes)
    requires zeros <= 2 && Free(Zeros(NextZeros(b, zeros)) + tail)
    ensures var w := Zeros(zeros) + ((if zeros == 2 && b <= 3 then [3, b] else [b]) + tail);
      && Free(w) && |w| > 0
      && var v := Zeros(NextZeros(b, zeros)) + tail;
         (if v == [] then w[|w| - 1] != 0 else w[|w| - 1] == v[|v| - 1])
  {
    hide Free;
    if zeros == 2 && b <= 3 {
      FreeEmulated(b, tail);
    } else if b == 0 {
      assert Zeros(zeros) + ([b] + tail) == Zeros(zeros + 1) + tail;
    } else {
      FreePlain(b, zeros, tail);
    }
  }

  lemma {:induction false} FreeEmulated(b: bv8, tail: Bytes)
    requires b <= 3 && Free(Zeros(NextZeros(b, 2)) + tail)
    ensures var w := Zeros(2) + ([3, b] + tail);
      var v := Zeros(NextZeros(b, 2)) + tail;
      && Free(w) && |w| > 0
      && (if v == [] then w[|w| - 1] != 0 else w[|w| - 1] == v[|v| - 1])
  {
    hide Free;
    if b == 0 {
      var v := Zeros(1) + tail;
      SmallFree([0, 0, 3]);
      FreeAfter([0, 0, 3], v);
      LastOf([0, 0, 3], v);
      assert Zeros(2) + ([3, b] + tail) == [0, 0, 3] + v;
    } else {
      assert Zeros(0) + tail == tail;
      SmallFree([0, 0, 3, b]);
      FreeAfter([0, 0, 3, b], tail);
      LastOf([0, 0, 3, b], tail);
      assert Zeros(2) + ([3, b] + tail) == [0, 0, 3, b] + tail;
    }
  }

  lemma {:induction false} FreePlain(b: bv8, zeros: nat, tail: Bytes)
    requires b != 0 && zeros <= 2 && (zeros == 2 ==> b > 3) && Free(Zeros(0) + tail)
    ensures var w := Zeros(zeros) + ([b] + tail);
      var v := Zeros(0) + tail;
      && Free(w) && |w| > 0
      && (if v == [] then w[|w| - 1] != 0 else w[|w| - 1] == v[|v| - 1])
  {
    hide Free;
    assert Zeros(0) + tail == tail;
    var a := Zeros(zeros) + [b];
    SmallFree(a);
    FreeAfter(a, tail);
    LastOf(a, tail);
    assert Zeros(zeros) + ([b] + tail) == a + tail;
  }

  lemma {:induction false} SmallFree(w: Bytes)
    requires 0 < |w| <= 4 && w[|w| - 1] != 0 && (|w| == 3 && w[0] == 0 && w[1] == 0 ==> w[2] > 1)
    requires |w| == 4 ==> w[..3] == [0, 0, 3]
    ensures Free(w)
  {
    if |w| == 4 { assert w[0] == w[..3][0] && w[1] == w[..3][1] && w[2] == w[..3][2]; }
  }

  /** A NAL unit made of a clean header and a payload can be put between start codes exactly when the payload does not end
      in an odd zero. */
  lemma {:induction false} InsertedIsCleanIff(header: Bytes, payload: Bytes)
    requires Clean(header)
    ensures Clean(header + Inserted(payload, 0)) <==> EndZeros(payload, 0) != 1
  {
    hide Inserted;
    WrittenFree(payload, 0);
    var w := Inserted(payload, 0);
    assert Zeros(0) + w == w;
    FreeAfter(header, w);
    LastOf(header, w);
    if w == [] { assert payload == []; }
  }

  // ---------- The loop ----------

  lemma {:induction false} RemovedNext(s: Bytes, i: nat)
    requires i < |s|
    ensures Removed(s[i..]) == if EmulationAt(s, i) then [0, 0] + Removed(s[i + 3..]) else [s[i]] + Removed(s[i + 1..])
  {
    assert s[i..][1..] == s[i + 1..];
    if EmulationAt(s, i) { assert s[i..][3..] == s[i + 3..]; }
  }

  lemma {:induction false} JoinPieces(all: Bytes, a: Bytes, b: Bytes, c: Bytes)
    requires all == a + (b + c)
    ensures all == (a + b) + c && a + b <= all && |all| == |a| + |b| + |c|
  {
  }

  lemma {:induction false} RemovedAtEnd(s: Bytes, i: nat, all: Bytes, done: Bytes)
    requires i <= |s| && all == done + Removed(s[i..])
    ensures done <= all && (i == |s| ==> done == all)
  {
    if i == |s| { assert s[i..] == []; }
  }

  predicate NoEmulation(s: Bytes) {
    forall i :: 0 <= i < |s| ==> !EmulationAt(s, i)
  }

  /** Something is removed just when an emulation prevention byte is there. */
  lemma {:induction false} RemovedSize(s: Bytes)
    ensures |Removed(s)| <= |s| && (NoEmulation(s) ==> Removed(s) == s)
    ensures !NoEmulation(s) ==> |Removed(s)| < |s|
    decreases |s|
  {
    if s != [] {
      if EmulationAt(s, 0) {
        RemovedSize(s[3..]);
      } else {
        RemovedSize(s[1..]);
        assert forall i :: 0 <= i < |s| - 1 ==> (EmulationAt(s[1..], i) <==> EmulationAt(s, i + 1));
        if !NoEmulation(s) {
          var i :| 0 <= i < |s| && EmulationAt(s, i);
          assert EmulationAt(s[1..], i - 1);
        }
      }
    }
  }

  /** Removal also leaves a NAL unit header as it is. */
  lemma {:induction false} RemovedBehindHeader(header: Bytes, payload: Bytes)
    requires header != [] && header[|header| - 1] != 0 && NoEmulation(header)
    ensures Removed(header + Inserted(payload, 0)) == header + payload
  {
    hide Inserted;
    RemovedBehind(header, 0, Inserted(payload, 0), payload);
    assert header[0..] == header;
  }

  lemma {:induction false} RemovedBehind(header: Bytes, i: nat, written: Bytes, payload: Bytes)
    requires i <= |header| && header != [] && header[|header| - 1] != 0 && NoEmulation(header)
    requires written == Inserted(payload, 0)
    ensures Removed(header[i..] + written) == header[i..] + payload
    decreases |header| - i
  {
    hide Inserted, Removed, NoEmulation;
    if i == |header| {
      RemovalInvertsInsertion(payload);
      assert header[i..] + written == written && header[i..] + payload == payload;
    } else {
      RemovedBehind(header, i + 1, written, payload);
      assert header[i..] + written == [header[i]] + (header[i + 1..] + written);
      assert header[i..] + payload == [header[i]] + (header[i + 1..] + payload);
      NotAcross(header, i, written);
      RemovedOne(header[i], header[i + 1..] + written);
    }
  }

  lemma {:induction false} NotAcross(header: Bytes, i: nat, written: Bytes)
    requires i < |header| && header[|header| - 1] != 0 && NoEmulation(header)
    ensures !EmulationAt([header[i]] + (header[i + 1..] + written), 0)
  {
    assert !EmulationAt(header, i);
  }

  method Put(to: array<bv8>, at: nat, data: Bytes)
    requires 0 < |data| <= 2 && at + |data| <= to.Length
    modifies to
    ensures to[..at + |data|] == old(to[..at]) + data
  {
    ghost var done := to[..at];
    to[at] := data[0];
    if |data| == 2 { to[at + 1] := data[1]; }
    assert to[..at] == done;
    assert to[at..at + |data|] == data;
    assert to[..at + |data|] == to[..at] + to[at..at + |data|];
  }

  /** removeH264or5EmulationBytes: everything if the buffer has a byte to spare, and otherwise what fits. */
  method RemoveH264or5EmulationBytes(to: array<bv8>, toMaxSize: nat, from: Bytes) returns (toSize: nat)
    requires toMaxSize <= to.Length
    modifies to
    ensures toSize <= toMaxSize && to[..toSize] <= Removed(from)
    ensures toMaxSize > |Removed(from)| ==> to[..toSize] == Removed(from)
    ensures toMaxSize > 0 && toMaxSize <= |Removed(from)| ==> toSize >= toMaxSize - 1
    ensures NoEmulation(from) && toMaxSize > 0 ==> toSize < toMaxSize
  {
    hide Removed, NoEmulation;
    toSize := 0;
    var i := 0;
    assert from[0..] == from;
    ghost var all := Removed(from);
    assert all == to[..0] + Removed(from[0..]);
    while i < |from| && toSize + 1 < toMaxSize
      invariant i <= |from| && toSize <= toMaxSize
      invariant all == to[..toSize] + Removed(from[i..])
      invariant NoEmulation(from) && toMaxSize > 0 ==> toSize < toMaxSize
    {
      RemovedNext(from, i);
      ghost var done := to[..toSize];
      if EmulationAt(from, i) {
        HasEmulation(from, i);
        JoinPieces(all, done, [0, 0], Removed(from[i + 3..]));
        Put(to, toSize, [0, 0]);
        toSize := toSize + 2;
        i := i + 3;
      } else {
        JoinPieces(all, done, [from[i]], Removed(from[i + 1..]));
        Put(to, toSize, [from[i]]);
        toSize := toSize + 1;
        i := i + 1;
      }
    }
    RemovedAtEnd(from, i, all, to[..toSize]);
  }

  lemma {:induction false} HasEmulation(s: Bytes, i: nat)
    requires EmulationAt(s, i)
    ensures !NoEmulation(s)
  {
    hide EmulationAt;
    EmulationInside(s, i);
  }

  lemma {:induction false} EmulationInside(s: Bytes, i: nat)
    requires EmulationAt(s, i)
    ensures i < |s|
  {
  }

  /** removeEmulationBytes, which passes the size of the source as the size of the destination: the payload is complete
      exactly when there is something to remove (or nothing at all); otherwise its last byte is missing. */
  method RemoveEmulationBytes(dst: array<bv8>, src: Bytes) returns (dstSize: nat)
    requires |src| <= dst.Length
    modifies dst
    ensures dstSize <= dst.Length
    ensures dst[..dstSize] == Removed(src) <==> src == [] || !NoEmulation(src)
    ensures src != [] && NoEmulation(src) ==> dst[..dstSize] == src[..|src| - 1]
  {
    hide Removed, NoEmulation;
    RemovedSize(src);
    dstSize := RemoveH264or5EmulationBytes(dst, |src|, src);
  }
}
