/** Shapes every other module uses: optional values, results, and the two
    facts about finite enumerations of a key set. */
module Basics {

  datatype Option<+T> = None | Some(value: T)

  datatype Result<+T, +E> = Ok(value: T) | Err(error: E)

  /** `order` lists every element of `keys` once: what one `range` loop over a Go
      map visits, in an order the runtime chooses. */
  ghost predicate Enumerates<T(!new)>(order: seq<T>, keys: set<T>) {
    && (forall i, j :: 0 <= i < j < |order| ==> order[i] != order[j])
    && (forall k :: k in order <==> k in keys)
  }

  /** Every finite set has an enumeration that starts with a chosen member. */
  lemma {:induction false} EnumerationStartingWith<T(!new)>(keys: set<T>, first: T) returns (order: seq<T>)
    requires first in keys
    ensures Enumerates(order, keys) && |order| > 0 && order[0] == first
  {
    var rest := EnumerationOf(keys - {first});
    order := [first] + rest;
    assert forall k :: k in order <==> k == first || k in rest;
  }

  lemma {:induction false} EnumerationOf<T(!new)>(keys: set<T>) returns (order: seq<T>)
    ensures Enumerates(order, keys)
    decreases keys
  {
    if keys == {} {
      order := [];
    } else {
      var k :| k in keys;
      var rest := EnumerationOf(keys - {k});
      order := [k] + rest;
      assert forall x :: x in order <==> x == k || x in rest;
    }
  }

  /** Two places of a sequence hold two of its elements, equal or not. */
  lemma TwoPlaces<T>(s: seq<T>, i: nat, j: nat)
    requires i < j < |s|
    ensures multiset{s[i], s[j]} <= multiset(s)
  {
    assert s == s[..i] + [s[i]] + s[i + 1..j] + [s[j]] + s[j + 1..];
  }

  lemma PlacesOfTwo<T>(s: seq<T>, a: T, b: T) returns (i: nat, j: nat)
    requires multiset{a, b} <= multiset(s)
    ensures i < |s| && j < |s| && i != j && s[i] == a && s[j] == b
  {
    assert a in multiset{a, b};
    i :| i < |s| && s[i] == a;
    var rest := s[..i] + s[i + 1..];
    assert s == s[..i] + [s[i]] + s[i + 1..];
    assert multiset(rest) == multiset(s) - multiset{a};
    assert b in rest;
    var k: nat :| k < |rest| && rest[k] == b;
    j := if k < i then k else k + 1;
  }
}
