/** Small facts about sequence concatenation, proved once in a context free of other definitions. */
module Sequences {

  lemma ConcatAssoc<T>(a: seq<T>, b: seq<T>, c: seq<T>)
    ensures a + (b + c) == a + b + c
  {
  }

  lemma SliceSnoc<T>(p: seq<T>, t: T, i: nat)
    requires i <= |p|
    ensures (p + [t])[i..] == p[i..] + [t]
  {
  }

  lemma InitOfSnoc<T>(p: seq<T>, t: T)
    ensures (p + [t])[..|p|] == p
    ensures (p + [t])[|p|] == t
  {
  }
}
