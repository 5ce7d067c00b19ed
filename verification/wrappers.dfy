/** Values that may be missing - SQL NULLs and failed lookups - and facts about finite sets and maps. */
module Wrappers {

  datatype Option<+T> = None | Some(value: T)

  lemma SomeElement(elements: set<int>)
    requires elements != {}
    ensures exists x :: x in elements
  {
    if forall x :: x !in elements {
    }
  }

  lemma SubsetSize<T>(a: set<T>, b: set<T>)
    requires a <= b
    ensures |a| <= |b|
  {
    assert b == a + (b - a);
  }

  lemma SameMaps<T, U>(a: map<T, U>, b: map<T, U>)
    requires a.Keys == b.Keys && forall x | x in a.Keys :: a[x] == b[x]
    ensures a == b
  {
  }
}
