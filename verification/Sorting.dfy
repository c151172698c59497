/** Texts in code-point order, and the ordered list of a set of texts or of a list of them. */
module Sorting {

  /** a < b. */
  predicate Before(a: string, b: string) {
    if b == "" then false
    else if a == "" then true
    else a[0] < b[0] || (a[0] == b[0] && Before(a[1..], b[1..]))
  }

  lemma {:induction false} BeforeTotal(a: string, b: string)
    ensures a == b || Before(a, b) || Before(b, a)
    ensures !(Before(a, b) && Before(b, a)) && !Before(a, a)
  {
    if a != "" && b != "" {
      BeforeTotal(a[1..], b[1..]);
      if a[0] == b[0] && a[1..] == b[1..] {
        assert a == [a[0]] + a[1..] && b == [b[0]] + b[1..];
      }
    }
    if a != "" {
      BeforeTotal(a[1..], a[1..]);
    }
  }

  lemma {:induction false} BeforeTransitive(a: string, b: string, c: string)
    requires Before(a, b) && Before(b, c)
    ensures Before(a, c)
  {
    if a != "" && b != "" && c != "" && a[0] == b[0] == c[0] {
      BeforeTransitive(a[1..], b[1..], c[1..]);
    }
  }

  predicate Ascending(s: seq<string>) {
    forall i, j :: 0 <= i < j < |s| ==> Before(s[i], s[j])
  }

  /** `x` put in its place, unless it is there already. */
  function Insert(x: string, s: seq<string>): (r: seq<string>)
    requires Ascending(s)
    ensures Ascending(r)
    ensures forall y :: y in r <==> y == x || y in s
  {
    if s == [] then [x]
    else if x == s[0] then s
    else
      BeforeTotal(x, s[0]);
      assert s == [s[0]] + s[1..];
      if Before(x, s[0]) then
        AscendingCons(x, s);
        [x] + s
      else
        var rest := Insert(x, s[1..]);
        AscendingCons(s[0], rest);
        [s[0]] + rest
  }

  lemma AscendingCons(x: string, s: seq<string>)
    requires Ascending(s)
    requires forall y :: y in s ==> Before(x, y) || (s != [] && Before(x, s[0]))
    ensures Ascending([x] + s)
  {
    var r := [x] + s;
    forall i, j | 0 <= i < j < |r| ensures Before(r[i], r[j]) {
      if i == 0 {
        var y := s[j - 1];
        assert y in s;
        if !Before(x, y) {
          assert j - 1 > 0;
          BeforeTransitive(x, s[0], y);
        }
      }
    }
  }

  /** The elements of the list, in order, each once. */
  function SortedSet(xs: seq<string>): (r: seq<string>)
    ensures Ascending(r)
    ensures forall x :: x in r <==> x in xs
  {
    if xs == [] then []
    else
      assert xs == [xs[0]] + xs[1..];
      Insert(xs[0], SortedSet(xs[1..]))
  }

  /** An ascending list is determined by its elements. */
  lemma {:induction false} AscendingIsUnique(a: seq<string>, b: seq<string>)
    requires Ascending(a) && Ascending(b) && forall x :: x in a <==> x in b
    ensures a == b
    decreases |a|
  {
    if a != [] {
      assert a[0] in b;
    }
    if b != [] {
      assert b[0] in a;
      HeadIsLeast(a, b);
      assert a == [a[0]] + a[1..] && b == [b[0]] + b[1..];
      TailLacksHead(a);
      TailLacksHead(b);
      forall x ensures x in a[1..] <==> x in b[1..] {
        assert x in a <==> x in b;
      }
      AscendingIsUnique(a[1..], b[1..]);
    }
  }

  lemma HeadIsLeast(a: seq<string>, b: seq<string>)
    requires a != [] && b != [] && Ascending(a) && Ascending(b) && forall x :: x in a <==> x in b
    ensures a[0] == b[0]
  {
    assert a[0] in b && b[0] in a;
    var i :| 0 <= i < |b| && b[i] == a[0];
    var j :| 0 <= j < |a| && a[j] == b[0];
    BeforeTotal(a[0], b[0]);
  }

  lemma TailLacksHead(a: seq<string>)
    requires a != [] && Ascending(a)
    ensures a[0] !in a[1..]
    ensures forall x :: x in a[1..] <==> x in a && x != a[0]
  {
    assert a == [a[0]] + a[1..];
    if a[0] in a[1..] {
      var i :| 0 <= i < |a[1..]| && a[1..][i] == a[0];
      assert Before(a[0], a[i + 1]);
      BeforeTotal(a[0], a[0]);
    }
  }

  // ---- sorting a list, duplicates kept ---------------------------------------------------------------

  function Place(x: string, s: seq<string>): seq<string> {
    if s == [] || x == s[0] || Before(x, s[0]) then [x] + s else [s[0]] + Place(x, s[1..])
  }

  function Sorted(xs: seq<string>): seq<string> {
    if xs == [] then [] else Place(xs[0], Sorted(xs[1..]))
  }

  predicate InOrder(s: seq<string>) {
    forall i, j :: 0 <= i < j < |s| ==> s[i] == s[j] || Before(s[i], s[j])
  }

  lemma {:induction false} PlaceKeeps(x: string, s: seq<string>)
    ensures multiset(Place(x, s)) == multiset([x] + s)
    ensures InOrder(s) ==> InOrder(Place(x, s))
  {
    if s != [] {
      assert s == [s[0]] + s[1..];
      BeforeTotal(x, s[0]);
      if x == s[0] || Before(x, s[0]) {
        if InOrder(s) {
          InOrderCons(x, s);
        }
      } else {
        PlaceKeeps(x, s[1..]);
        if InOrder(s) {
          var rest := Place(x, s[1..]);
          forall y | y in rest ensures y == s[0] || Before(s[0], y) {
            assert y in multiset(rest);
            assert y == x || y in s[1..];
          }
          InOrderCons(s[0], rest);
        }
      }
    }
  }

  lemma InOrderCons(x: string, s: seq<string>)
    requires InOrder(s) && (s == [] || x == s[0] || Before(x, s[0]) || forall y :: y in s ==> y == x || Before(x, y))
    ensures InOrder([x] + s)
  {
    var r := [x] + s;
    forall i, j | 0 <= i < j < |r| ensures r[i] == r[j] || Before(r[i], r[j]) {
      if i == 0 {
        var y := s[j - 1];
        assert y in s;
        if Before(x, s[0]) && Before(s[0], y) {
          BeforeTransitive(x, s[0], y);
        }
      }
    }
  }

  /** The same elements as often, in order. */
  lemma {:induction false} SortedHasSame(xs: seq<string>)
    ensures multiset(Sorted(xs)) == multiset(xs) && InOrder(Sorted(xs))
    ensures forall x :: x in Sorted(xs) <==> x in xs
  {
    if xs != [] {
      assert xs == [xs[0]] + xs[1..];
      SortedHasSame(xs[1..]);
      PlaceKeeps(xs[0], Sorted(xs[1..]));
    }
    forall x ensures x in Sorted(xs) <==> x in xs {
      assert x in Sorted(xs) <==> x in multiset(Sorted(xs));
    }
  }
}
