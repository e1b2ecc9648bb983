/**
 * Enumerating a finite set. The sources iterate over dictionaries and sets in an order that their results do
 * not depend on; here every element is listed once, in an order about which nothing is known to the caller.
 */
module Sets {

  method ListSet<T(==)>(s: set<T>) returns (listed: seq<T>)
    ensures forall x :: x in listed <==> x in s
    ensures forall i, j :: 0 <= i < j < |listed| ==> listed[i] != listed[j]
  {
    listed := [];
    var left := s;
    while left != {}
      invariant forall x :: x in s <==> x in listed || x in left
      invariant forall x :: x in listed ==> x !in left
      invariant forall i, j :: 0 <= i < j < |listed| ==> listed[i] != listed[j]
    {
      var x :| x in left;
      listed, left := listed + [x], left - {x};
    }
  }
}
