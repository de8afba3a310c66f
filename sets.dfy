/** Facts about finite sets that the termination arguments of the model rest on. */
module Sets {
  /** A subset has no more elements than the set that contains it. */
  lemma {:induction false} SubsetCard<T>(a: set<T>, b: set<T>)
    requires a <= b
    ensures |a| <= |b|
    decreases |b|
  {
    if b != {} {
      var x :| x in b;
      SubsetCard(a - {x}, b - {x});
    }
  }

  /** Adding x to b takes x out of a - b: one element fewer exactly when x is in a and not yet in b. */
  lemma AddCard<T>(a: set<T>, b: set<T>, x: T)
    ensures |a - (b + {x})| == if x in a && x !in b then |a - b| - 1 else |a - b|
  {
    if x in a && x !in b {
      assert a - (b + {x}) == (a - b) - {x};
    } else {
      assert a - (b + {x}) == a - b;
    }
  }
}
