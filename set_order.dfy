/**
 * Iterating over a Python `set` (`list(subcategories)`, `for parent_category in parent_categories`)
 * visits its elements in an order the program does not fix. The model picks one such order.
 */
module SetOrder {

  /** Some listing of the elements of `s`, each once. */
  method ToSeq<T(==)>(s: set<T>) returns (r: seq<T>)
    ensures |r| == |s|
    ensures forall x :: x in r <==> x in s
  {
    r := [];
    var rest := s;
    while rest != {}
      invariant rest <= s
      invariant forall x :: x in r <==> x in s && x !in rest
      invariant |r| + |rest| == |s|
      decreases |rest|
    {
      var x :| x in rest;
      r := r + [x];
      rest := rest - {x};
    }
  }
}
