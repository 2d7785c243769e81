/** The update the panels make on a copy of a `Set` before handing it on:
    delete the element if present, add it otherwise. */
module Sets {

  /** The set with the membership of `x` flipped. */
  function Toggled<T(!new)>(s: set<T>, x: T): (r: set<T>)
    ensures x in r <==> x !in s
    ensures forall y | y != x :: y in r <==> y in s
  {
    if x in s then s - {x} else s + {x}
  }

  /** Toggling twice gives the set back. */
  lemma ToggleTwice<T(!new)>(s: set<T>, x: T)
    ensures Toggled(Toggled(s, x), x) == s
  {
  }
}
