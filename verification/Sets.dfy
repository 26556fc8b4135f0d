/** Facts about finite sets that the solver needs to be told, and iteration in no particular order. */
module Sets {

  lemma SubsetCard<T>(a: set<T>, b: set<T>)
    requires a <= b
    ensures |a| <= |b|
    ensures |a| == |b| ==> a == b
  {
    assert b == a + (b - a);
  }

  /** Tables with the same keys and the same entries are the same. */
  lemma SameTable<V>(m: map<int, V>, n: map<int, V>)
    requires m.Keys == n.Keys && forall t :: t in m.Keys ==> m[t] == n[t]
    ensures m == n
  {
    assert forall t | t in m.Keys :: m[t] == n[t];
  }

  /** The element a hash container happens to yield next. */
  method Pick<T(==)>(s: set<T>) returns (x: T)
    requires s != {}
    ensures x in s
  {
    x :| x in s;
  }

  /** Some element, always the same one for the same set. */
  ghost function Choose<T>(s: set<T>): (x: T)
    requires s != {}
    ensures x in s
  {
    var x :| x in s; x
  }

  function Interval(lo: int, hi: int): (r: set<int>)
    ensures forall x :: x in r <==> lo <= x < hi
    decreases hi - lo
  {
    if lo >= hi then {} else {lo} + Interval(lo + 1, hi)
  }
}
