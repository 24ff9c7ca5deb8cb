/** Iterating a set whose iteration order the model leaves open. */
module Enumerations {
  /** o lists the members of s, each once. */
  ghost predicate IsEnumeration<T(!new)>(o: seq<T>, s: set<T>) {
    && (forall x :: x in o <==> x in s)
    && (forall i, j :: 0 <= i < j < |o| ==> o[i] != o[j])
  }

  /** Iterating a set: its members in an order the model leaves open. */
  method Enumerate<T(!new)>(s: set<T>) returns (o: seq<T>)
    ensures IsEnumeration(o, s) && |o| == |s|
  {
    o := [];
    var rest := s;
    while rest != {}
      invariant rest <= s
      invariant forall x :: x in o <==> x in s - rest
      invariant forall i, j :: 0 <= i < j < |o| ==> o[i] != o[j]
      invariant |o| + |rest| == |s|
      decreases rest
    {
      var x :| x in rest;
      o := o + [x];
      rest := rest - {x};
    }
  }
}
