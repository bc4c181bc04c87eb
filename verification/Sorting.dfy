/** sort.Slice on fids, as insertion into an ascending sequence. */
module Sorting {

  predicate Ascending(s: seq<nat>) {
    forall i, j :: 0 <= i < j < |s| ==> s[i] <= s[j]
  }

  predicate StrictlyAscending(s: seq<nat>) {
    forall i, j :: 0 <= i < j < |s| ==> s[i] < s[j]
  }

  function Insert(s: seq<nat>, x: nat): (r: seq<nat>)
    ensures multiset(r) == multiset(s) + multiset{x}
  {
    if s == [] then [x]
    else if x <= s[0] then [x] + s
    else
      assert s == [s[0]] + s[1..];
      [s[0]] + Insert(s[1..], x)
  }

  lemma InsertMember(s: seq<nat>, x: nat, y: nat)
    ensures y in Insert(s, x) <==> y == x || y in s
  {
    assert y in Insert(s, x) <==> y in multiset(Insert(s, x));
    assert y in s <==> y in multiset(s);
  }

  lemma {:induction false} InsertAscending(s: seq<nat>, x: nat)
    requires Ascending(s)
    ensures Ascending(Insert(s, x))
  {
    if s != [] && x > s[0] {
      InsertAscending(s[1..], x);
      var rest := Insert(s[1..], x);
      forall j | 0 <= j < |rest|
        ensures s[0] <= rest[j]
      {
        InsertMember(s[1..], x, rest[j]);
      }
    }
  }

  lemma {:induction false} InsertStrict(s: seq<nat>, x: nat)
    requires StrictlyAscending(s) && x !in s
    ensures StrictlyAscending(Insert(s, x))
  {
    if s != [] && x > s[0] {
      InsertStrict(s[1..], x);
      var rest := Insert(s[1..], x);
      forall j | 0 <= j < |rest|
        ensures s[0] < rest[j]
      {
        InsertMember(s[1..], x, rest[j]);
      }
    }
  }

  /** The elements of a set, smallest first. */
  method Sorted(elements: set<nat>) returns (r: seq<nat>)
    ensures StrictlyAscending(r) && forall x :: x in r <==> x in elements
  {
    r := [];
    var rest := elements;
    while rest != {}
      invariant rest <= elements && StrictlyAscending(r)
      invariant forall x :: x in r <==> x in elements - rest
      decreases rest
    {
      var x :| x in rest;
      InsertStrict(r, x);
      forall y
        ensures y in Insert(r, x) <==> y == x || y in r
      {
        InsertMember(r, x, y);
      }
      r := Insert(r, x);
      rest := rest - {x};
    }
  }

  /** sort.Slice on a list that may hold a fid more than once. */
  method SortAll(s: seq<nat>) returns (r: seq<nat>)
    ensures Ascending(r) && multiset(r) == multiset(s)
  {
    r := [];
    var i := 0;
    while i < |s|
      invariant 0 <= i <= |s| && Ascending(r) && multiset(r) == multiset(s[..i])
    {
      InsertAscending(r, s[i]);
      assert s[..i + 1] == s[..i] + [s[i]];
      r := Insert(r, s[i]);
      i := i + 1;
    }
    assert s[..i] == s;
  }
}
