/**
 Sums of a weight over the elements of a sequence. The pool protocol counts its threads this way: an indicator
 function (weight 0 or 1) gives the number of threads at a program point, a larger weight gives a termination measure.
 */
module Sums {

  function Sum<T>(s: seq<T>, f: T -> nat): nat {
    if s == [] then 0 else Sum(s[..|s| - 1], f) + f(s[|s| - 1])
  }

  lemma SumAppend<T>(s: seq<T>, x: T, f: T -> nat)
    ensures Sum(s + [x], f) == Sum(s, f) + f(x)
  {
    assert (s + [x])[..|s|] == s;
  }

  /** Replacing one element exchanges its weight. */
  lemma {:induction false} SumUpdate<T>(s: seq<T>, i: nat, x: T, f: T -> nat)
    requires i < |s|
    ensures Sum(s[i := x], f) + f(s[i]) == Sum(s, f) + f(x)
  {
    var n := |s| - 1;
    if i == n {
      assert s[i := x][..n] == s[..n];
    } else {
      assert s[i := x][..n] == s[..n][i := x];
      SumUpdate(s[..n], i, x, f);
    }
  }

  /** The sum is positive exactly when some element has a positive weight. */
  lemma {:induction false} SumPositive<T>(s: seq<T>, f: T -> nat)
    ensures Sum(s, f) > 0 <==> exists i :: 0 <= i < |s| && f(s[i]) > 0
  {
    if s != [] {
      var n := |s| - 1;
      SumPositive(s[..n], f);
      assert forall i :: 0 <= i < n ==> s[..n][i] == s[i];
      if Sum(s[..n], f) > 0 {
        var i :| 0 <= i < n && f(s[..n][i]) > 0;
        assert f(s[i]) > 0;
      }
    }
  }

  /** One element weighs no more than the whole. */
  lemma {:induction false} SumAtLeast<T>(s: seq<T>, i: nat, f: T -> nat)
    requires i < |s|
    ensures f(s[i]) <= Sum(s, f)
  {
    if i < |s| - 1 {
      SumAtLeast(s[..|s| - 1], i, f);
    }
  }

  /** Sums of two sequences whose weights differ by at most d at each position. */
  lemma {:induction false} SumCompare<T>(s: seq<T>, t: seq<T>, f: T -> nat, d: nat)
    requires |s| == |t|
    requires forall i :: 0 <= i < |s| ==> f(t[i]) <= f(s[i]) + d
    ensures Sum(t, f) <= Sum(s, f) + d * |s|
  {
    if s != [] {
      var n := |s| - 1;
      SumCompare(s[..n], t[..n], f, d);
    }
  }

  lemma {:induction false} SumMonotone<T>(s: seq<T>, f: T -> nat, g: T -> nat)
    requires forall i :: 0 <= i < |s| ==> f(s[i]) <= g(s[i])
    ensures Sum(s, f) <= Sum(s, g)
  {
    if s != [] {
      SumMonotone(s[..|s| - 1], f, g);
    }
  }

  lemma {:induction false} SumSame<T>(s: seq<T>, t: seq<T>, f: T -> nat)
    requires |s| == |t|
    requires forall i :: 0 <= i < |s| ==> f(t[i]) == f(s[i])
    ensures Sum(t, f) == Sum(s, f)
  {
    if s != [] {
      SumSame(s[..|s| - 1], t[..|t| - 1], f);
    }
  }

  /** If only position k may carry weight, the sum is its weight. */
  lemma {:induction false} SumSingle<T>(s: seq<T>, k: nat, f: T -> nat)
    requires k < |s|
    requires forall i :: 0 <= i < |s| && i != k ==> f(s[i]) == 0
    ensures Sum(s, f) == f(s[k])
  {
    var n := |s| - 1;
    if k == n {
      SumPositive(s[..n], f);
    } else {
      SumSingle(s[..n], k, f);
    }
  }
}
