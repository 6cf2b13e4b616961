/** Cardinality facts about finite sets. */
module Sets {

  lemma {:induction false} SubsetSize<T>(a: set<T>, b: set<T>)
    requires a <= b
    ensures |a| <= |b|
  {
    if a != {} {
      var x :| x in a;
      SubsetSize(a - {x}, b - {x});
    }
  }

  /** A set that trades `x` for at most one new element does not grow. */
  lemma TradeSize<T>(a: set<T>, b: set<T>, x: T, y: T)
    requires a <= b - {x} + {y}
    requires y in a ==> x in b
    ensures |a| <= |b|
  {
    if y in a {
      SubsetSize(a, b - {x} + {y});
    } else {
      SubsetSize(a, b);
    }
  }
}
