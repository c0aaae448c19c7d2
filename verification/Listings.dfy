/** Listings of names whose order nothing may depend on. */
module Listings {

  ghost predicate ListsExactly(names: seq<string>, s: set<string>) {
    && (forall x :: x in names <==> x in s)
    && (forall i, j :: 0 <= i < j < |names| ==> names[i] != names[j])
  }

  /** The elements of a set in some order that nothing else may depend on. */
  method Listing(s: set<string>) returns (names: seq<string>)
    ensures ListsExactly(names, s)
  {
    names := [];
    var rest := s;
    while rest != {}
      invariant rest <= s
      invariant forall x :: x in names <==> x in s - rest
      invariant forall i, j :: 0 <= i < j < |names| ==> names[i] != names[j]
      decreases rest
    {
      var x :| x in rest;
      assert forall i | 0 <= i < |names| :: names[i] in names;
      assert x !in names;
      names := names + [x];
      rest := rest - {x};
    }
  }
}
