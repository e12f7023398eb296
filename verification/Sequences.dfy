/** Sequences without repetition and the sets of what sequences hold. */
module Sequences {
  ghost predicate Distinct<T(!new)>(xs: seq<T>) {
    forall i, j :: 0 <= i < j < |xs| ==> xs[i] != xs[j]
  }

  ghost function Elements<T(!new)>(xs: seq<T>): set<T> {
    set x | x in xs
  }
}
