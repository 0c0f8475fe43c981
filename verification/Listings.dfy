/** Sequences without repetition as listings of sets, and taking one element out of a
    sequence. */
module Listings {

  predicate Distinct<T(==)>(s: seq<T>) {
    forall i, j :: 0 <= i < j < |s| ==> s[i] != s[j]
  }

  /** The sequence names every element of the set once, in some order. */
  ghost predicate Lists<T(!new)>(s: seq<T>, elements: set<T>) {
    Distinct(s) && forall x :: x in s <==> x in elements
  }

  lemma {:induction false} Enumerate<T(!new)>(elements: set<T>) returns (s: seq<T>)
    ensures Lists(s, elements)
  {
    if elements == {} {
      s := [];
    } else {
      var x :| x in elements;
      var rest := Enumerate(elements - {x});
      s := [x] + rest;
    }
  }

  function Without<T>(s: seq<T>, i: nat): seq<T>
    requires i < |s|
  {
    s[..i] + s[i + 1..]
  }

  /** Taking one element out of a sequence takes one occurrence out of its multiset. */
  lemma WithoutOne<T>(s: seq<T>, i: nat)
    requires i < |s|
    ensures multiset(s) == multiset(Without(s, i)) + multiset{s[i]}
  {
    assert s == s[..i] + [s[i]] + s[i + 1..];
  }

  lemma ListsWithout<T(!new)>(s: seq<T>, i: nat, elements: set<T>)
    requires i < |s| && Lists(s, elements)
    ensures Lists(Without(s, i), elements - {s[i]})
  {
    var rest := Without(s, i);
    forall x | x in elements && x != s[i]
      ensures x in rest
    {
      var k :| 0 <= k < |s| && s[k] == x;
      assert rest[if k < i then k else k - 1] == x;
    }
  }

  lemma {:induction false} ListsLength<T(!new)>(s: seq<T>, elements: set<T>)
    requires Lists(s, elements)
    ensures |s| == |elements|
    decreases |s|
  {
    if s == [] {
      assert elements == {};
    } else {
      ListsWithout(s, 0, elements);
      ListsLength(Without(s, 0), elements - {s[0]});
      assert s[0] in elements;
    }
  }
}
