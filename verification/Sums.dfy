/** Sums over sequences, and how they react to a change of one or two terms. */
module Sums {
  import opened Common

  function Sum<T>(xs: seq<T>, f: T -> int): int {
    if xs == [] then 0 else f(xs[0]) + Sum(xs[1..], f)
  }

  lemma {:induction false} SumSame<T>(xs: seq<T>, f: T -> int, g: T -> int)
    requires forall x | x in xs :: f(x) == g(x)
    ensures Sum(xs, f) == Sum(xs, g)
  {
    if xs != [] {
      SumSame(xs[1..], f, g);
    }
  }

  /** Replacing one element changes the sum by the difference of the two terms. */
  lemma {:induction false} SumUpdate<T>(xs: seq<T>, i: nat, x: T, f: T -> int)
    requires i < |xs|
    ensures Sum(xs[i := x], f) == Sum(xs, f) - f(xs[i]) + f(x)
  {
    if i == 0 {
      assert xs[i := x][1..] == xs[1..];
    } else {
      assert xs[i := x][1..] == xs[1..][i - 1 := x];
      SumUpdate(xs[1..], i - 1, x, f);
    }
  }

  /** Two functions that agree except at s and d differ in their sums by those two terms. */
  lemma {:induction false} SumMoved<T>(xs: seq<T>, f: T -> int, g: T -> int, s: T, d: T)
    requires Distinct(xs) && s != d
    requires forall x | x in xs && x != s && x != d :: f(x) == g(x)
    ensures Sum(xs, g) - Sum(xs, f)
         == (if s in xs then g(s) - f(s) else 0) + (if d in xs then g(d) - f(d) else 0)
  {
    if xs != [] {
      assert Distinct(xs[1..]);
      assert xs[0] !in xs[1..];
      assert forall x :: x in xs <==> x == xs[0] || x in xs[1..];
      SumMoved(xs[1..], f, g, s, d);
    }
  }

  lemma {:induction false} SumChangedAt<T>(xs: seq<T>, f: T -> int, g: T -> int, s: T)
    requires Distinct(xs) && s in xs
    requires forall x | x in xs && x != s :: f(x) == g(x)
    ensures Sum(xs, g) - Sum(xs, f) == g(s) - f(s)
  {
    assert forall x :: x in xs <==> x == xs[0] || x in xs[1..];
    if s == xs[0] {
      assert s !in xs[1..];
      SumSame(xs[1..], f, g);
    } else {
      assert Distinct(xs[1..]);
      SumChangedAt(xs[1..], f, g, s);
    }
  }

  lemma {:induction false} SumNonNegative<T>(xs: seq<T>, f: T -> int)
    requires forall x | x in xs :: 0 <= f(x)
    ensures 0 <= Sum(xs, f)
  {
    if xs != [] {
      SumNonNegative(xs[1..], f);
    }
  }

  lemma {:induction false} SumAppend<T>(xs: seq<T>, ys: seq<T>, f: T -> int)
    ensures Sum(xs + ys, f) == Sum(xs, f) + Sum(ys, f)
  {
    if xs == [] {
      assert xs + ys == ys;
    } else {
      assert (xs + ys)[1..] == xs[1..] + ys;
      SumAppend(xs[1..], ys, f);
    }
  }

  lemma {:induction false} SumWithout<T>(xs: seq<T>, i: nat, f: T -> int)
    requires i < |xs|
    ensures Sum(xs, f) == f(xs[i]) + Sum(xs[..i] + xs[i + 1..], f)
  {
    assert xs == xs[..i] + ([xs[i]] + xs[i + 1..]);
    SumAppend(xs[..i], [xs[i]] + xs[i + 1..], f);
    SumAppend(xs[..i], xs[i + 1..], f);
    assert ([xs[i]] + xs[i + 1..])[1..] == xs[i + 1..];
  }

  lemma TakeOut<T>(xs: seq<T>, i: nat)
    requires i < |xs|
    ensures multiset(xs) == multiset{xs[i]} + multiset(xs[..i] + xs[i + 1..])
  {
    assert xs == xs[..i] + ([xs[i]] + xs[i + 1..]);
  }

  /** Two permutations of one another stay so when one occurrence of an element is taken out of each. */
  lemma PermutationWithout<T>(xs: seq<T>, ys: seq<T>) returns (i: nat)
    requires xs != [] && multiset(xs) == multiset(ys)
    ensures i < |ys| && ys[i] == xs[0] && multiset(xs[1..]) == multiset(ys[..i] + ys[i + 1..])
  {
    assert xs[0] in multiset(ys);
    i :| 0 <= i < |ys| && ys[i] == xs[0];
    TakeOut(ys, i);
    TakeOut(xs, 0);
    assert xs[..0] + xs[1..] == xs[1..];
    Cancel(xs[0], multiset(xs[1..]), multiset(ys[..i] + ys[i + 1..]));
  }

  /** A sum only depends on which elements occur how often, not on their order. */
  lemma {:induction false} SumOfPermutation<T>(xs: seq<T>, ys: seq<T>, f: T -> int)
    requires multiset(xs) == multiset(ys)
    ensures Sum(xs, f) == Sum(ys, f)
    decreases |xs|
  {
    if xs == [] {
      assert |ys| == |multiset(ys)| == 0;
    } else {
      var i := PermutationWithout(xs, ys);
      SumWithout(ys, i, f);
      SumOfPermutation(xs[1..], ys[..i] + ys[i + 1..], f);
    }
  }

  lemma Cancel<T>(x: T, a: multiset<T>, b: multiset<T>)
    requires multiset{x} + a == multiset{x} + b
    ensures a == b
  {
    assert a == (multiset{x} + a) - multiset{x};
    assert b == (multiset{x} + b) - multiset{x};
  }
}
