/** Datatypes and small facts about finite collections that the other modules share. */
module Prelude {
  datatype Option<+T> = None | Some(value: T)

  // Adding one new element to a finite set makes it one larger.
  lemma AddOne<T>(s: set<T>, x: T)
    requires x !in s
    ensures |s + {x}| == |s| + 1
  {
  }

  lemma SubsetSize<T>(a: set<T>, b: set<T>)
    requires a <= b
    ensures |a| <= |b|
  {
    assert b == a + (b - a);
    assert |b| == |a| + |b - a|;
  }
}
