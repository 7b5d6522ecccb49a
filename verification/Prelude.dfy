/** Small vocabulary shared by all the models: optional values and Python list operations. */
module Prelude {

  datatype Option<+T> = None | Some(value: T)

  /** No element occurs twice. */
  ghost predicate NoDup<T>(xs: seq<T>) {
    forall i, j :: 0 <= i < j < |xs| ==> xs[i] != xs[j]
  }

  /** Python's `xs.remove(x)` when `x in xs`: drops the first occurrence only. */
  function RemoveFirst<T(==)>(xs: seq<T>, x: T): seq<T> {
    if xs == [] then []
    else if xs[0] == x then xs[1..]
    else [xs[0]] + RemoveFirst(xs[1..], x)
  }

  /** Python's `[y for y in xs if y != x]`: drops every occurrence. */
  function RemoveAll<T(==)>(xs: seq<T>, x: T): seq<T> {
    if xs == [] then []
    else if xs[0] == x then RemoveAll(xs[1..], x)
    else [xs[0]] + RemoveAll(xs[1..], x)
  }

  /** On a duplicate-free list, removing takes out exactly `x` and keeps the rest in order. */
  lemma {:induction false} RemoveFirstNoDup<T>(xs: seq<T>, x: T)
    requires NoDup(xs)
    ensures NoDup(RemoveFirst(xs, x))
    ensures forall y :: y in RemoveFirst(xs, x) <==> y in xs && y != x
    ensures RemoveAll(xs, x) == RemoveFirst(xs, x)
  {
    if xs != [] {
      RemoveFirstNoDup(xs[1..], x);
      if xs[0] == x {
        RemoveAbsent(xs[1..], x);
      } else {
        var rest := RemoveFirst(xs[1..], x);
        assert forall y :: y in xs <==> y == xs[0] || y in xs[1..];
        assert xs[0] !in rest;
      }
    }
  }

  lemma {:induction false} RemoveAbsent<T>(xs: seq<T>, x: T)
    requires x !in xs
    ensures RemoveFirst(xs, x) == xs && RemoveAll(xs, x) == xs
  {
    if xs != [] {
      assert xs[0] in xs;
      RemoveAbsent(xs[1..], x);
    }
  }

  /** Removing at a known first position splits the list around it. */
  lemma {:induction false} RemoveFirstAt<T>(xs: seq<T>, x: T, k: nat)
    requires k < |xs| && xs[k] == x && x !in xs[..k]
    ensures RemoveFirst(xs, x) == xs[..k] + xs[k + 1..]
  {
    if k > 0 {
      assert xs[..k][0] == xs[0];
      assert xs[1..][..k - 1] == xs[..k][1..];
      RemoveFirstAt(xs[1..], x, k - 1);
      assert xs[..k] + xs[k + 1..] == [xs[0]] + (xs[1..][..k - 1] + xs[1..][k..]);
    }
  }

  lemma AppendNoDup<T>(xs: seq<T>, x: T)
    requires NoDup(xs) && x !in xs
    ensures NoDup(xs + [x])
  {
  }
}
