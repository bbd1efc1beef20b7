/** Python iterates a `set` in an order the program does not control. The
    model represents that order explicitly: an enumeration lists every member
    exactly once, and methods that write a set out return the enumeration they
    used. */
module Sets {

  predicate Distinct<T(==)>(xs: seq<T>) {
    forall i, j :: 0 <= i < j < |xs| ==> xs[i] != xs[j]
  }

  function Elems<T(==)>(xs: seq<T>): set<T> {
    set x | x in xs
  }

  /** `order` is one iteration order of the set `s`. */
  predicate IsEnumeration<T(==)>(order: seq<T>, s: set<T>) {
    Distinct(order) && Elems(order) == s
  }

  /** A list with no repeats has as many members as elements. */
  lemma {:induction false} DistinctCard<T>(xs: seq<T>)
    requires Distinct(xs)
    ensures |Elems(xs)| == |xs|
    decreases |xs|
  {
    if xs != [] {
      var init := xs[..|xs| - 1];
      DistinctCard(init);
      assert Elems(xs) == Elems(init) + {xs[|xs| - 1]};
      assert xs[|xs| - 1] !in Elems(init);
    }
  }

  /** Building a set from a list never gains members. */
  lemma {:induction false} ElemsCard<T>(xs: seq<T>)
    ensures |Elems(xs)| <= |xs|
    decreases |xs|
  {
    if xs != [] {
      var init := xs[..|xs| - 1];
      ElemsCard(init);
      assert Elems(xs) == Elems(init) + {xs[|xs| - 1]};
    }
  }

  /** Iterating a set: some order in which every member comes exactly once. */
  method Enumerate<T(==)>(s: set<T>) returns (order: seq<T>)
    ensures IsEnumeration(order, s)
    ensures |order| == |s|
  {
    order := [];
    var rest := s;
    while rest != {}
      invariant rest <= s
      invariant Distinct(order)
      invariant Elems(order) == s - rest
      decreases |rest|
    {
      var x :| x in rest;
      EnumerateStep(order, x, s, rest);
      order := order + [x];
      rest := rest - {x};
    }
    DistinctCard(order);
  }

  lemma EnumerateStep<T>(order: seq<T>, x: T, s: set<T>, rest: set<T>)
    requires Distinct(order) && Elems(order) == s - rest && x in rest && rest <= s
    ensures Distinct(order + [x]) && Elems(order + [x]) == s - (rest - {x})
  {
    assert Elems(order + [x]) == Elems(order) + {x};
  }
}
