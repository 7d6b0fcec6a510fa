/** RTP sequence numbers. */
module SequenceNumbers {
  const U16_MODULUS := 0x1_0000

  /** seqNumLT: the order of 16-bit numbers that are less than half of their range apart. */
  predicate SeqNumLT(s1: nat, s2: nat) {
    var diff := s2 as int - s1 as int;
    if diff > 0 then diff < 0x8000 else if diff < 0 then diff < -0x8000 else false
  }
}
