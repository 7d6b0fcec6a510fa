module Slices {
  /** A slice of a slice is a slice. */
  lemma {:induction false} SliceOfSlice<T>(a: seq<T>, i: nat, j: nat, k: nat, l: nat)
    requires i <= j <= |a| && k <= l <= j - i
    ensures a[i..j][k..l] == a[i + k..i + l]
  {
    forall p | 0 <= p < l - k
      ensures a[i..j][k..l][p] == a[i + k..i + l][p]
    {
      assert a[i..j][k..l][p] == a[i..j][k + p] == a[i + (k + p)];
    }
  }
}
