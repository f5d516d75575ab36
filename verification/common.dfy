/**
  Small shared vocabulary: the Option type standing in for Java's nullable
  references and Reactor's empty Mono, and an enumeration of a finite set of
  identifiers in ascending order (the order an SQL `ORDER BY id` produces).
 */
module Common {

  /** A value that may be absent: Java `null`, or a `Mono` that completes empty. */
  datatype Option<+T> = None | Some(value: T)

  /** Strictly ascending sequence of naturals (no duplicates). */
  predicate Ascending(xs: seq<nat>) {
    forall i, j :: 0 <= i < j < |xs| ==> xs[i] < xs[j]
  }

  /** Every non-empty finite set of naturals has a least element. */
  lemma {:induction false} MinimumExists(s: set<nat>)
    requires s != {}
    ensures exists m :: IsLeast(m, s)
  {
    var x :| x in s;
    var rest := s - {x};
    if rest == {} {
      forall y | y in s ensures x <= y {
        assert y !in rest;
      }
      assert IsLeast(x, s);
    } else {
      MinimumExists(rest);
      var m :| IsLeast(m, rest);
      var least := if x < m then x else m;
      forall y | y in s ensures least <= y {
        if y != x {
          assert y in rest;
        }
      }
      assert IsLeast(least, s);
    }
  }

  /** `m` is an element of `s` no larger than any other. */
  predicate IsLeast(m: nat, s: set<nat>) {
    m in s && forall y :: y in s ==> m <= y
  }

  /** The least element of a non-empty finite set. */
  function Least(s: set<nat>): (m: nat)
    requires s != {}
    ensures m in s
    ensures forall y :: y in s ==> m <= y
  {
    MinimumExists(s);
    var m :| IsLeast(m, s);
    m
  }

  /** The elements of `s`, each exactly once, in ascending order. */
  function SortedElements(s: set<nat>): (r: seq<nat>)
    ensures |r| == |s|
    ensures forall i :: 0 <= i < |r| ==> r[i] in s
    ensures forall x :: x in s ==> x in r
    ensures Ascending(r)
    decreases s
  {
    if s == {} then []
    else
      var m := Least(s);
      var rest := SortedElements(s - {m});
      LeastThenRest(s, m, rest);
      [m] + rest
  }

  /** The least element of `s` followed by an ascending enumeration of the others enumerates `s`. */
  lemma LeastThenRest(s: set<nat>, m: nat, rest: seq<nat>)
    requires IsLeast(m, s)
    requires |rest| == |s - {m}| && Ascending(rest)
    requires forall i :: 0 <= i < |rest| ==> rest[i] in s - {m}
    requires forall x :: x in s - {m} ==> x in rest
    ensures |[m] + rest| == |s| && Ascending([m] + rest)
    ensures forall i :: 0 <= i < |[m] + rest| ==> ([m] + rest)[i] in s
    ensures forall x :: x in s ==> x in [m] + rest
  {
    assert |s - {m}| == |s| - 1;
    assert forall i :: 0 <= i < |rest| ==> m < rest[i];
  }
}
