/** Facts about sequences that the proofs use in several places. */
module Seqs {
  /** Moving the first element of xs onto the end of acc keeps the concatenation. */
  lemma ShiftFirst<T>(acc: seq<T>, xs: seq<T>)
    requires xs != []
    ensures acc + [xs[0]] + xs[1..] == acc + xs
  {
    assert xs == [xs[0]] + xs[1..];
  }

  /** Moving the front part a of the rest onto the end of acc keeps the concatenation. */
  lemma ShiftPrefix<T>(acc: seq<T>, a: seq<T>, rest: seq<T>, whole: seq<T>)
    requires acc + rest == whole && |a| <= |rest| && rest[..|a|] == a
    ensures (acc + a) + rest[|a|..] == whole
  {
    assert rest == a + rest[|a|..];
  }
}
