/** Reading a sequence back to front (`iter().rev()`). */
module Seqs {
  /** `s` read back to front. */
  function Reversed<X>(s: seq<X>): (r: seq<X>)
    ensures |r| == |s|
  {
    seq(|s|, i requires 0 <= i < |s| => s[|s| - 1 - i])
  }

  lemma ReversedTwice<X>(s: seq<X>)
    ensures Reversed(Reversed(s)) == s
  {
  }

  /** Distinct elements stay distinct when read back to front. */
  lemma ReversedDistinct<X>(s: seq<X>)
    requires forall i, j :: 0 <= i < j < |s| ==> s[i] != s[j]
    ensures forall i, j :: 0 <= i < j < |s| ==> Reversed(s)[i] != Reversed(s)[j]
  {
  }

  lemma ReversedAppend<X>(s: seq<X>, x: X)
    ensures Reversed(s + [x]) == [x] + Reversed(s)
  {
  }
}
