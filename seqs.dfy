/** Positions in sequences, shared by the map model and the string helpers. */
module Seqs {

  /** The position of the first occurrence of `x` in `s`. */
  function IndexOf<T(==)>(s: seq<T>, x: T): (i: nat)
    requires x in s
    ensures i < |s| && s[i] == x
    ensures forall j :: 0 <= j < i ==> s[j] != x
  {
    if s[0] == x then 0 else 1 + IndexOf(s[1..], x)
  }

  /** Any position that holds `x` with no `x` before it is `IndexOf`. */
  lemma IndexOfIs<T>(s: seq<T>, x: T, i: nat)
    requires i < |s| && s[i] == x
    requires forall j :: 0 <= j < i ==> s[j] != x
    ensures IndexOf(s, x) == i
  {
  }

  lemma IndexOfPrefix<T>(a: seq<T>, b: seq<T>, x: T)
    requires x in a
    ensures x in a + b && IndexOf(a + b, x) == IndexOf(a, x)
  {
    IndexOfIs(a + b, x, IndexOf(a, x));
  }
}
