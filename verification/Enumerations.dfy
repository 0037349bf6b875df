/** Iteration orders of a hash map, and sums that do not depend on them. */
module Enumerations {

  /** `order` visits every element of `s` exactly once: one possible iteration order. */
  ghost predicate Enumerates<T(!new)>(order: seq<T>, s: set<T>) {
    && (forall x :: x in order <==> x in s)
    && (forall i, j :: 0 <= i < j < |order| ==> order[i] != order[j])
  }

  /** Some order of the elements. */
  ghost function AnyOrder<T>(s: set<T>): seq<T> {
    if s == {} then []
    else
      var x :| x in s;
      [x] + AnyOrder(s - {x})
  }

  lemma {:induction false} AnyOrderEnumerates<T(!new)>(s: set<T>)
    ensures Enumerates(AnyOrder(s), s)
  {
    if s != {} {
      var order := AnyOrder(s);
      var x := order[0];
      assert order[1..] == AnyOrder(s - {x});
      AnyOrderEnumerates(s - {x});
      forall y ensures y in order <==> y in s {
        assert y in order <==> y == x || y in order[1..];
      }
      forall i, j | 0 <= i < j < |order| ensures order[i] != order[j] {
        assert order[j] == order[1..][j - 1];
        if i == 0 {
          assert order[1..][j - 1] in order[1..];
        } else {
          assert order[i] == order[1..][i - 1];
        }
      }
    }
  }

  function Sum<T>(f: T -> nat, xs: seq<T>): nat {
    if xs == [] then 0 else f(xs[0]) + Sum(f, xs[1..])
  }

  lemma {:induction false} SumSplit<T>(f: T -> nat, a: seq<T>, b: seq<T>)
    ensures Sum(f, a + b) == Sum(f, a) + Sum(f, b)
  {
    if a == [] {
      assert a + b == b;
    } else {
      assert (a + b)[1..] == a[1..] + b;
      SumSplit(f, a[1..], b);
    }
  }

  lemma SumTakeOut<T>(f: T -> nat, xs: seq<T>, i: nat)
    requires i < |xs|
    ensures Sum(f, xs) == f(xs[i]) + Sum(f, xs[..i] + xs[i + 1..])
  {
    SumSplit(f, xs[..i], xs[i..]);
    SumSplit(f, xs[..i], xs[i + 1..]);
    assert xs == xs[..i] + xs[i..];
    assert xs[i..][1..] == xs[i + 1..];
  }

  lemma EnumerationTail<T(!new)>(order: seq<T>, s: set<T>, i: nat)
    requires Enumerates(order, s) && i < |order|
    ensures Enumerates(order[..i] + order[i + 1..], s - {order[i]})
  {
  }

  lemma {:induction false} EnumerationSize<T(!new)>(order: seq<T>, s: set<T>)
    requires Enumerates(order, s)
    ensures |order| == |s|
  {
    if order == [] {
      assert s == {} by {
        assert forall x :: x in s ==> x in order;
      }
    } else {
      assert order[0] in order;
      EnumerationTail(order, s, 0);
      assert order[..0] + order[1..] == order[1..];
      EnumerationSize(order[1..], s - {order[0]});
    }
  }

  /** Two iteration orders of one set give the same sum. */
  lemma {:induction false} SumOrderFree<T(!new)>(f: T -> nat, a: seq<T>, b: seq<T>, s: set<T>)
    requires Enumerates(a, s) && Enumerates(b, s)
    ensures Sum(f, a) == Sum(f, b)
  {
    EnumerationSize(a, s);
    EnumerationSize(b, s);
    if a != [] {
      assert a[0] in a;
      assert a[0] in b;
      var i :| 0 <= i < |b| && b[i] == a[0];
      EnumerationTail(a, s, 0);
      EnumerationTail(b, s, i);
      assert a[..0] + a[1..] == a[1..];
      SumOrderFree(f, a[1..], b[..i] + b[i + 1..], s - {a[0]});
      SumTakeOut(f, b, i);
    }
  }

  lemma {:induction false} SumBound<T>(f: T -> nat, xs: seq<T>, bound: nat)
    requires forall x :: x in xs ==> f(x) <= bound
    ensures Sum(f, xs) <= |xs| * bound
  {
    if xs != [] {
      SumBound(f, xs[1..], bound);
    }
  }
}
