/** The two lodash array helpers the literals and query code call:
    `intersection(a, b)` (unique values of `a` that occur in `b`, in `a`'s order) and
    `difference(a, b)` (values of `a` that do not occur in `b`, in `a`'s order, repeats kept). */
module Lodash {

  predicate Distinct<T(==,!new)>(s: seq<T>) {
    forall i, j :: 0 <= i < j < |s| ==> s[i] != s[j]
  }

  /** `difference(a, b)`: a filter, so it keeps every value of `a` outside `b`
      as often as `a` holds it. */
  function Difference<T(==,!new)>(a: seq<T>, b: seq<T>): (r: seq<T>)
    ensures forall x :: x in r <==> x in a && x !in b
    ensures |r| <= |a|
    decreases |a|
  {
    if a == [] then []
    else
      assert a == [a[0]] + a[1..];
      (if a[0] in b then [] else [a[0]]) + Difference(a[1..], b)
  }

  /** `difference` keeps `a`'s order: it distributes over concatenation. */
  lemma {:induction false} DifferenceAppend<T(!new)>(a: seq<T>, c: seq<T>, b: seq<T>)
    ensures Difference(a + c, b) == Difference(a, b) + Difference(c, b)
    decreases |a|
  {
    if a == [] {
      assert a + c == c;
    } else {
      assert (a + c)[0] == a[0] && (a + c)[1..] == a[1..] + c;
      DifferenceAppend(a[1..], c, b);
      var h: seq<T> := if a[0] in b then [] else [a[0]];
      calc {
        Difference(a + c, b);
        h + Difference(a[1..] + c, b);
        h + (Difference(a[1..], b) + Difference(c, b));
        (h + Difference(a[1..], b)) + Difference(c, b);
      }
    }
  }

  /** `intersection(a, b)`: walks `a` and pushes each value that occurs in `b` and is
      not yet in the result. */
  function Intersection<T(==,!new)>(a: seq<T>, b: seq<T>): (r: seq<T>)
    ensures forall x :: x in r <==> x in a && x in b
    ensures Distinct(r)
    ensures |r| <= |a|
    decreases |a|
  {
    if a == [] then []
    else
      var p := Intersection(a[..|a| - 1], b);
      var x := a[|a| - 1];
      assert a == a[..|a| - 1] + [x];
      if x in b && x !in p then p + [x] else p
  }

  /** On a list without repeats, `intersection` is the order-preserving filter that
      `difference` against the complement would give: exactly the values of `a` in `b`,
      in `a`'s order. */
  lemma {:induction false} IntersectionOfDistinct<T(!new)>(a: seq<T>, b: seq<T>)
    requires Distinct(a)
    ensures Intersection(a, b) == Kept(a, b)
    decreases |a|
  {
    if a != [] {
      var init, x := a[..|a| - 1], a[|a| - 1];
      assert a == init + [x];
      assert Distinct(init);
      IntersectionOfDistinct(init, b);
      assert x !in Kept(init, b) by {
        assert forall i :: 0 <= i < |init| ==> init[i] == a[i];
      }
      KeptAppend(init, [x], b);
      assert [x][1..] == [];
      assert Kept([x], b) == if x in b then [x] else [];
    }
  }

  /** `s` with every value kept only where it first occurs, in `s`'s order. */
  function Dedup<T(==,!new)>(s: seq<T>): (r: seq<T>)
    ensures forall x :: x in r <==> x in s
    ensures Distinct(r)
    decreases |s|
  {
    if s == [] then []
    else
      var p := Dedup(s[..|s| - 1]);
      var x := s[|s| - 1];
      assert s == s[..|s| - 1] + [x];
      if x in p then p else p + [x]
  }

  /** `intersection` keeps `a`'s order even when `a` repeats values: it is the values of
      `a` found in `b`, each at its first occurrence. */
  lemma {:induction false} IntersectionIsDedupKept<T(!new)>(a: seq<T>, b: seq<T>)
    ensures Intersection(a, b) == Dedup(Kept(a, b))
    decreases |a|
  {
    if a != [] {
      var init, x := a[..|a| - 1], a[|a| - 1];
      assert a == init + [x];
      IntersectionIsDedupKept(init, b);
      KeptAppend(init, [x], b);
      assert [x][1..] == [];
      var k := Kept(init, b);
      if x in b {
        assert Kept(a, b) == k + [x];
        assert (k + [x])[..|k + [x]| - 1] == k;
      } else {
        assert Kept(a, b) == k;
      }
    }
  }

  /** The values of `a` that occur in `b`, in `a`'s order, repeats kept. */
  function Kept<T(==,!new)>(a: seq<T>, b: seq<T>): (r: seq<T>)
    ensures forall x :: x in r <==> x in a && x in b
    decreases |a|
  {
    if a == [] then []
    else
      assert a == [a[0]] + a[1..];
      (if a[0] in b then [a[0]] else []) + Kept(a[1..], b)
  }

  lemma {:induction false} KeptAppend<T(!new)>(a: seq<T>, c: seq<T>, b: seq<T>)
    ensures Kept(a + c, b) == Kept(a, b) + Kept(c, b)
    decreases |a|
  {
    if a == [] {
      assert a + c == c;
    } else {
      assert (a + c)[0] == a[0] && (a + c)[1..] == a[1..] + c;
      KeptAppend(a[1..], c, b);
      var h: seq<T> := if a[0] in b then [a[0]] else [];
      calc {
        Kept(a + c, b);
        h + Kept(a[1..] + c, b);
        h + (Kept(a[1..], b) + Kept(c, b));
        (h + Kept(a[1..], b)) + Kept(c, b);
      }
    }
  }
}
