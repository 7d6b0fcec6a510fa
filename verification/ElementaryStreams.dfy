/** From payloads to a byte stream and back: emulation prevention, start codes, the stream parser, and the removal of emulation
    prevention bytes, one behind the other. */
module ElementaryStreams {
  import opened Codecs
  import opened Options
  import opened Bits
  import opened BitReading
  import opened StartCodes
  import opened EmulationBytes
  import opened NalParsers

  /** A NAL unit to be written, behind a start code of either length. */
  datatype Nal = Nal(long: bool, header: Bytes, payload: Bytes)

  function Escaped(n: Nal): Element {
    Element(n.long, n.header + Inserted(n.payload, 0))
  }

  function EscapedAll(nals: seq<Nal>): (es: seq<Element>)
    ensures |es| == |nals| && forall i :: 0 <= i < |es| ==> es[i] == Escaped(nals[i])
  {
    seq(|nals|, i requires 0 <= i < |nals| => Escaped(nals[i]))
  }

  /** The header must not look like a start code or an escaped byte, and the payload must not end in an odd number of zeros. */
  predicate Writable(n: Nal) {
    Clean(n.header) && NoEmulation(n.header) && EndZeros(n.payload, 0) != 1
  }

  /** The first start code is a long one, and the parser looks at three bytes of the last unit. */
  predicate WritableAll(nals: seq<Nal>) {
    && nals != [] && nals[0].long
    && (forall i :: 0 <= i < |nals| ==> Writable(nals[i]))
    && |Escaped(nals[|nals| - 1]).unit| >= 3
  }

  lemma {:induction false} EscapedClean(nals: seq<Nal>)
    requires WritableAll(nals)
    ensures AllClean(EscapedAll(nals))
  {
    hide Clean, Inserted, NoEmulation;
    forall i | 0 <= i < |nals| ensures Clean(EscapedAll(nals)[i].unit) {
      assert Writable(nals[i]);
      InsertedIsCleanIff(nals[i].header, nals[i].payload);
    }
  }

  lemma {:induction false} LongFirst(s: Bytes, rest: Bytes)
    requires s == Code(true) + rest
    ensures FindLong(s, 0) == Some(0) && s[4..] == rest
  {
    FindLongIs(s, 0, 0);
  }

  /** What the parser tells apart in a written stream are the escaped units, all but the last. */
  lemma {:induction false} WrittenUnits(h: Codec, nals: seq<Nal>)
    requires WritableAll(nals)
    ensures nals != [] && UnitsIn(h, Written(EscapedAll(nals))) == UnitsOf(EscapedAll(nals)[..|nals| - 1])
  {
    hide FindLong, Units, Written, Code, AllClean, Escaped;
    var es := EscapedAll(nals);
    EscapedClean(nals);
    WrittenStep(es);
    assert es[0].long by { FirstIsLong(nals); }
    var s := Written(es);
    LongFirst(s, es[0].unit + Written(es[1..]));
    UnitsOfWritten(h, s, 4, es);
  }

  lemma {:induction false} FirstIsLong(nals: seq<Nal>)
    requires WritableAll(nals)
    ensures Escaped(nals[0]).long
  {
  }

  /** The bytes of a unit as they were before it was escaped. */
  function Plain(n: Nal): Bytes {
    n.header + n.payload
  }

  lemma {:induction false} EscapedGivesPlain(n: Nal)
    requires Writable(n)
    ensures Removed(Escaped(n).unit) == Plain(n) && Escaped(n).unit != []
  {
    hide Removed, Inserted, NoEmulation;
    RemovedBehindHeader(n.header, n.payload);
  }

  lemma {:induction false} NoneEmpty(nals: seq<Nal>)
    requires WritableAll(nals)
    ensures [] !in UnitsOf(EscapedAll(nals)[..|nals| - 1])
  {
    hide Escaped, Removed;
    var units := UnitsOf(EscapedAll(nals)[..|nals| - 1]);
    forall i | 0 <= i < |units| ensures units[i] != [] { EscapedGivesPlain(nals[i]); }
  }

  lemma {:induction false} PlainPrefix(units: seq<Bytes>)
    ensures Prefixed(OutputPrefix(0), units) == units
  {
    assert forall i :: 0 <= i < |units| ==> [] + units[i] == units[i];
  }

  /** However a written stream is cut into chunks, reading it and removing the emulation prevention bytes gives back the headers and
      payloads of all units but the last. */
  method ReadWritten(h: Codec, ghost nals: seq<Nal>, chunks: seq<Bytes>, limit: nat) returns (plain: seq<Bytes>)
    requires WritableAll(nals) && Concat(chunks) == Written(EscapedAll(nals))
    requires forall i :: 0 <= i < |nals| - 1 ==> |Escaped(nals[i]).unit| <= limit
    ensures |plain| == |nals| - 1 && forall i :: 0 <= i < |plain| ==> plain[i] == Plain(nals[i])
  {
    hide Written, Concat, Removed, Escaped, UnitsIn, WritableAll, Fit, Writable;
    WrittenUnits(h, nals);
    NoneEmpty(nals);
    UnitsFit(nals, limit);
    PlainPrefix(UnitsIn(h, Written(EscapedAll(nals))));
    var frames := ReadStream(h, 0, chunks, limit);
    plain := [];
    for k := 0 to |frames|
      invariant |plain| == k && forall i :: 0 <= i < k ==> plain[i] == Plain(nals[i])
    {
      var to := new bv8[|frames[k]| + 1];
      OneWritable(nals, k);
      EscapedGivesPlain(nals[k]);
      RemovedSize(frames[k]);
      var size := RemoveH264or5EmulationBytes(to, to.Length, frames[k]);
      plain := plain + [to[..size]];
    }
  }

  lemma {:induction false} OneWritable(nals: seq<Nal>, k: nat)
    requires WritableAll(nals) && k < |nals|
    ensures Writable(nals[k])
  {
  }

  lemma {:induction false} UnitsFit(nals: seq<Nal>, limit: nat)
    requires nals != [] && forall i :: 0 <= i < |nals| - 1 ==> |Escaped(nals[i]).unit| <= limit
    ensures Fit(UnitsOf(EscapedAll(nals)[..|nals| - 1]), OutputPrefix(0), limit)
  {
    hide Escaped;
  }

  // ---------- Where access units end ----------

  /** In H.264 the slice that follows begins with the number of its first macroblock. Between two slices an access unit ends exactly
      where that number is 0. */
  lemma {:induction false} PictureStartsAt(first: bv8, s: Bytes, next: nat, firstMb: nat)
    requires next + 3 <= |s| && first & 0x1F in {1, 2, 3, 4, 5} && s[next] & 0x1F in {1, 2, 3, 4, 5}
    requires firstMb + 1 < U32_MODULUS && Has(BitsOf(s[next..]), 8, Golomb(firstMb))
    ensures EndsAccessUnit(H264, first, s, next) <==> firstMb == 0
  {
    hide BitsOf, Golomb, EndsAccessUnit, ByteBits;
    EndsAccessUnit264(first, s, next);
    GolombZeroIff(BitsOf(s[next..]), 8, firstMb);
    BitOfByte(s[next..], 1, 0, 8);
    TopBit(s[next + 1]);
  }
}
