/** Selecting the elements of a list that satisfy a predicate, in order. */
module Selections {

  function Select<T(!new)>(xs: seq<T>, p: T -> bool): (r: seq<T>)
    ensures forall x :: x in r <==> x in xs && p(x)
    ensures |r| <= |xs|
  {
    if xs == [] then []
    else (if p(xs[0]) then [xs[0]] else []) + Select(xs[1..], p)
  }

  lemma SelectCons<T(!new)>(x: T, xs: seq<T>, p: T -> bool)
    ensures Select([x] + xs, p) == (if p(x) then [x] else []) + Select(xs, p)
  {
  }

  lemma {:induction false} SelectConcat<T(!new)>(a: seq<T>, b: seq<T>, p: T -> bool)
    ensures Select(a + b, p) == Select(a, p) + Select(b, p)
  {
    if a == [] {
      assert a + b == b;
    } else {
      assert (a + b)[1..] == a[1..] + b;
      SelectConcat(a[1..], b, p);
    }
  }

  /** One more element at the end. */
  lemma SelectSnoc<T(!new)>(xs: seq<T>, i: nat, p: T -> bool)
    requires i < |xs|
    ensures Select(xs[..i + 1], p) == Select(xs[..i], p) + if p(xs[i]) then [xs[i]] else []
  {
    assert xs[..i + 1] == xs[..i] + [xs[i]];
    SelectConcat(xs[..i], [xs[i]], p);
  }

  lemma {:induction false} SelectAgain<T(!new)>(xs: seq<T>, p: T -> bool, q: T -> bool, r: T -> bool)
    requires forall x :: x in xs ==> (r(x) <==> p(x) && q(x))
    ensures Select(Select(xs, p), q) == Select(xs, r)
  {
    if xs != [] {
      assert xs == [xs[0]] + xs[1..];
      SelectAgain(xs[1..], p, q, r);
      SelectCons(xs[0], Select(xs[1..], p), q);
      assert [] + Select(xs[1..], p) == Select(xs[1..], p);
    }
  }

  lemma {:induction false} SelectAlike<T(!new)>(xs: seq<T>, p: T -> bool, q: T -> bool)
    requires forall x :: x in xs ==> (p(x) <==> q(x))
    ensures Select(xs, p) == Select(xs, q)
  {
    if xs != [] {
      assert xs == [xs[0]] + xs[1..];
      SelectAlike(xs[1..], p, q);
    }
  }

  lemma {:induction false} SelectAll<T(!new)>(xs: seq<T>, p: T -> bool)
    requires forall x :: x in xs ==> p(x)
    ensures Select(xs, p) == xs
  {
    if xs != [] {
      assert xs == [xs[0]] + xs[1..];
      SelectAll(xs[1..], p);
    }
  }

  lemma SelectNone<T(!new)>(xs: seq<T>, p: T -> bool)
    requires forall x :: x in xs ==> !p(x)
    ensures Select(xs, p) == []
  {
  }
}
