/** Sets. */
module Sets {
  /** The blocks of a list. */
  ghost function SeqSet(s: seq<nat>): (r: set<nat>)
    ensures forall b: nat :: b in r <==> b in s
  {
    set b | b in s
  }

  lemma SubsetSize<T>(a: set<T>, b: set<T>)
    requires a <= b
    ensures |a| <= |b|
  {
    assert b == a + (b - a);
  }
}
