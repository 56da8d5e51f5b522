/** Sums over sequences, used to count rows and requests. */
module Sums {

  function Sum<T>(f: T -> nat, s: seq<T>): nat {
    if s == [] then 0 else f(s[0]) + Sum(f, s[1..])
  }

  lemma {:induction false} SumConcat<T>(f: T -> nat, s: seq<T>, t: seq<T>)
    ensures Sum(f, s + t) == Sum(f, s) + Sum(f, t)
  {
    if s == [] {
      assert s + t == t;
    } else {
      SumConcat(f, s[1..], t);
      assert (s + t)[1..] == s[1..] + t;
    }
  }

  lemma SumSnoc<T>(f: T -> nat, s: seq<T>, x: T)
    ensures Sum(f, s + [x]) == Sum(f, s) + f(x)
  {
    SumConcat(f, s, [x]);
  }

  lemma SumRemove<T>(f: T -> nat, s: seq<T>, i: nat)
    requires i < |s|
    ensures Sum(f, s[..i] + s[i + 1..]) + f(s[i]) == Sum(f, s)
  {
    SumConcat(f, s[..i], s[i + 1..]);
    SumConcat(f, s[..i], [s[i]]);
    SumConcat(f, s[..i] + [s[i]], s[i + 1..]);
    assert s == s[..i] + [s[i]] + s[i + 1..];
  }

  lemma {:induction false} SumLeq<T>(f: T -> nat, g: T -> nat, c: nat, s: seq<T>)
    requires forall x :: x in s ==> f(x) <= c * g(x)
    ensures Sum(f, s) <= c * Sum(g, s)
  {
    if s != [] {
      SumLeq(f, g, c, s[1..]);
    }
  }
}
