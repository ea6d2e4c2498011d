/** A fact about sets that the solver does not look for by itself. */
module Sets {
  lemma Inhabited<T>(s: set<T>)
    ensures s != {} ==> exists x :: x in s
  {
    if forall x :: x !in s {
      assert s == {};
    }
  }

  /** The same for integers, which the solver represents differently. */
  lemma InhabitedInts(s: set<int>)
    ensures s != {} ==> exists x :: x in s
  {
    if forall x :: x !in s {
      assert s == {};
    }
  }
}
