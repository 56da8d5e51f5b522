/** Member lists: adding absent members, removing members. */
module Members {
  import opened Numbers

  ghost predicate NoDuplicates<T>(s: seq<T>) {
    forall i, j :: 0 <= i < j < |s| ==> s[i] != s[j]
  }

  function Add<T(==)>(s: seq<T>, x: T): seq<T> {
    if x in s then s else s + [x]
  }

  function AddAll<T(==)>(s: seq<T>, xs: seq<T>): seq<T>
    decreases |xs|
  {
    if xs == [] then s else Add(AddAll(s, xs[..|xs| - 1]), xs[|xs| - 1])
  }

  /** Every occurrence of `x` dropped. */
  function Retain<T(==)>(s: seq<T>, x: T): seq<T> {
    if s == [] then [] else Kept(s[0], x) + Retain(s[1..], x)
  }

  function Kept<T(==)>(y: T, x: T): seq<T> {
    if y == x then [] else [y]
  }

  function RetainAll<T(==)>(s: seq<T>, xs: seq<T>): seq<T>
    decreases |xs|
  {
    if xs == [] then s else Retain(RetainAll(s, xs[..|xs| - 1]), xs[|xs| - 1])
  }

  /** The first occurrence of `x` dropped. */
  function RemoveFirst<T(==)>(s: seq<T>, x: T): seq<T> {
    if s == [] then [] else if s[0] == x then s[1..] else [s[0]] + RemoveFirst(s[1..], x)
  }

  /** For each listed element one occurrence dropped. */
  function RemoveAll<T(==)>(s: seq<T>, xs: seq<T>): seq<T>
    decreases |xs|
  {
    if xs == [] then s else RemoveFirst(RemoveAll(s, xs[..|xs| - 1]), xs[|xs| - 1])
  }

  lemma {:induction false} RetainMember<T>(s: seq<T>, x: T)
    ensures forall y :: y in Retain(s, x) <==> y in s && y != x
    ensures x !in s ==> Retain(s, x) == s
  {
    if s != [] {
      RetainMember(s[1..], x);
      assert s == [s[0]] + s[1..];
    }
  }

  lemma {:induction false} RetainNoDuplicates<T>(s: seq<T>, x: T)
    requires NoDuplicates(s)
    ensures NoDuplicates(Retain(s, x))
  {
    if s != [] {
      var rest := s[1..];
      RetainNoDuplicates(rest, x);
      RetainMember(rest, x);
      assert s[0] !in rest;
    }
  }

  lemma AddNoDuplicates<T>(s: seq<T>, x: T)
    requires NoDuplicates(s)
    ensures NoDuplicates(Add(s, x))
  {
  }

  lemma {:induction false} AddAllMember<T>(s: seq<T>, xs: seq<T>, y: T)
    ensures y in AddAll(s, xs) <==> y in s || y in xs
    decreases |xs|
  {
    if xs != [] {
      var init, x := xs[..|xs| - 1], xs[|xs| - 1];
      AddAllMember(s, init, y);
      assert y in xs <==> y in init || y == x by {
        assert xs == init + [x];
      }
    }
  }

  lemma {:induction false} RetainAllMember<T>(s: seq<T>, xs: seq<T>, y: T)
    ensures y in RetainAll(s, xs) <==> y in s && y !in xs
    decreases |xs|
  {
    if xs != [] {
      var init, x := xs[..|xs| - 1], xs[|xs| - 1];
      RetainAllMember(s, init, y);
      RetainMember(RetainAll(s, init), x);
      assert y in xs <==> y in init || y == x by {
        assert xs == init + [x];
      }
    }
  }

  lemma {:induction false} NoDuplicatesOnce<T>(s: seq<T>, x: T)
    requires NoDuplicates(s)
    ensures multiset(s)[x] <= 1
  {
    if s != [] {
      NoDuplicatesOnce(s[1..], x);
      assert s == [s[0]] + s[1..];
      if s[0] == x {
        assert x !in s[1..];
      }
    }
  }

  lemma {:induction false} AddAllStep<T>(s: seq<T>, xs: seq<T>, n: nat)
    requires 0 < n <= |xs|
    ensures AddAll(s, xs[..n]) == Add(AddAll(s, xs[..n - 1]), xs[n - 1])
  {
    assert xs[..n][..n - 1] == xs[..n - 1];
  }

  lemma {:induction false} AddAllNoDuplicates<T>(s: seq<T>, xs: seq<T>)
    requires NoDuplicates(s)
    ensures NoDuplicates(AddAll(s, xs))
    decreases |xs|
  {
    if xs != [] {
      AddAllNoDuplicates(s, xs[..|xs| - 1]);
      AddNoDuplicates(AddAll(s, xs[..|xs| - 1]), xs[|xs| - 1]);
    }
  }

  lemma {:induction false} RetainAllNoDuplicates<T>(s: seq<T>, xs: seq<T>)
    requires NoDuplicates(s)
    ensures NoDuplicates(RetainAll(s, xs))
    decreases |xs|
  {
    if xs != [] {
      RetainAllNoDuplicates(s, xs[..|xs| - 1]);
      RetainNoDuplicates(RetainAll(s, xs[..|xs| - 1]), xs[|xs| - 1]);
    }
  }

  /** Adding a list to nothing gives the list exactly when it has no repeats. */
  lemma {:induction false} AddAllToNoneIff<T>(xs: seq<T>)
    ensures AddAll([], xs) == xs <==> NoDuplicates(xs)
  {
    AddAllNoDuplicates([], xs);
    if NoDuplicates(xs) && xs != [] {
      var init, x := xs[..|xs| - 1], xs[|xs| - 1];
      AddAllToNoneIff(init);
      assert xs == init + [x];
    }
  }

  lemma AddAllTwice<T>(x: T, y: T)
    requires x != y
    ensures AddAll([], [y, y, x]) == [y, x]
  {
    assert [y, y, x][..2] == [y, y] && [y, y][..1] == [y] && [y][..0] == [];
    assert AddAll([], [y]) == Add(AddAll([], []), y) == [y];
    assert AddAll([], [y, y]) == Add(AddAll([], [y]), y) == [y];
  }

  // ----- dropping one occurrence each, and dropping all -----

  lemma {:induction false} RemoveFirstContents<T>(s: seq<T>, x: T)
    ensures multiset(RemoveFirst(s, x)) == multiset(s) - multiset{x}
  {
    if s != [] {
      RemoveFirstContents(s[1..], x);
      assert s == [s[0]] + s[1..];
      assert multiset(s) == multiset{s[0]} + multiset(s[1..]);
      if s[0] != x {
        assert multiset(RemoveFirst(s, x)) == multiset{s[0]} + multiset(RemoveFirst(s[1..], x));
      }
    }
  }

  lemma {:induction false} RemoveAllContents<T>(s: seq<T>, xs: seq<T>)
    ensures multiset(RemoveAll(s, xs)) == multiset(s) - multiset(xs)
    decreases |xs|
  {
    if xs != [] {
      var init, x := xs[..|xs| - 1], xs[|xs| - 1];
      RemoveAllContents(s, init);
      RemoveFirstContents(RemoveAll(s, init), x);
      hide RemoveFirst, RemoveAll;
      assert xs == init + [x];
      MinusTwice(multiset(s), multiset(init), multiset{x});
    }
  }

  lemma MinusTwice<T>(a: multiset<T>, b: multiset<T>, c: multiset<T>)
    ensures a - b - c == a - (b + c)
  {
  }

  lemma {:induction false} RetainConcat<T>(a: seq<T>, b: seq<T>, x: T)
    ensures Retain(a + b, x) == Retain(a, x) + Retain(b, x)
  {
    if a == [] {
      assert a + b == b;
    } else {
      RetainConcat(a[1..], b, x);
      RetainStep(a, x);
      RetainStep(a + b, x);
      hide Retain, Kept;
      assert (a + b)[0] == a[0] && (a + b)[1..] == a[1..] + b;
      Associates(Kept(a[0], x), Retain(a[1..], x), Retain(b, x));
    }
  }

  lemma RetainStep<T>(s: seq<T>, x: T)
    requires s != []
    ensures Retain(s, x) == Kept(s[0], x) + Retain(s[1..], x)
  {
  }

  lemma {:induction false} RetainAllConcat<T>(a: seq<T>, b: seq<T>, xs: seq<T>)
    ensures RetainAll(a + b, xs) == RetainAll(a, xs) + RetainAll(b, xs)
    decreases |xs|
  {
    if xs != [] {
      var init, x := xs[..|xs| - 1], xs[|xs| - 1];
      RetainAllConcat(a, b, init);
      RetainConcat(RetainAll(a, init), RetainAll(b, init), x);
    }
  }

  lemma {:induction false} RetainAllAbsent<T>(s: seq<T>, xs: seq<T>)
    requires forall x :: x in xs ==> x !in s
    ensures RetainAll(s, xs) == s
    decreases |xs|
  {
    if xs != [] {
      var init, x := xs[..|xs| - 1], xs[|xs| - 1];
      RetainAllAbsent(s, init);
      RetainMember(s, x);
    }
  }

  /** What is dropped altogether may first be dropped once. */
  lemma {:induction false} RetainAllAfterRemove<T>(s: seq<T>, x: T, xs: seq<T>)
    requires x in xs
    ensures RetainAll(RemoveFirst(s, x), xs) == RetainAll(s, xs)
  {
    hide RetainAll;
    if s != [] {
      var head, rest := [s[0]], s[1..];
      assert s == head + rest;
      RetainAllConcat(head, rest, xs);
      if s[0] == x {
        NothingRetained(head, xs);
      } else {
        RetainAllConcat(head, RemoveFirst(rest, x), xs);
        RetainAllAfterRemove(rest, x, xs);
      }
    }
  }

  lemma {:induction false} NothingRetained<T>(s: seq<T>, xs: seq<T>)
    requires forall x :: x in s ==> x in xs
    ensures RetainAll(s, xs) == []
  {
    hide RetainAll;
    var r := RetainAll(s, xs);
    if r != [] {
      RetainAllMember(s, xs, r[0]);
      assert false;
    }
  }

  lemma {:induction false} RetainAllAfterRemoveAll<T>(s: seq<T>, ys: seq<T>, xs: seq<T>)
    requires forall y :: y in ys ==> y in xs
    ensures RetainAll(RemoveAll(s, ys), xs) == RetainAll(s, xs)
    decreases |ys|
  {
    hide RetainAll;
    if ys != [] {
      RetainAllAfterRemoveAll(s, ys[..|ys| - 1], xs);
      RetainAllAfterRemove(RemoveAll(s, ys[..|ys| - 1]), ys[|ys| - 1], xs);
    }
  }

  /** Dropping one occurrence for each listed element is dropping all of them exactly when each
      listed element is listed at least as often as it occurs. */
  lemma {:induction false} RemoveAllIsRetainAllIff<T>(s: seq<T>, xs: seq<T>)
    ensures RemoveAll(s, xs) == RetainAll(s, xs) <==> forall x :: x in xs ==> multiset(s)[x] <= multiset(xs)[x]
  {
    hide RemoveAll, RetainAll;
    RemoveAllContents(s, xs);
    var r := RemoveAll(s, xs);
    if RemoveAll(s, xs) == RetainAll(s, xs) {
      forall x | x in xs ensures multiset(s)[x] <= multiset(xs)[x] {
        RetainAllMember(s, xs, x);
        assert x !in multiset(r);
      }
    }
    if forall x :: x in xs ==> multiset(s)[x] <= multiset(xs)[x] {
      forall x | x in xs ensures x !in r {
        assert multiset(r)[x] == 0;
      }
      RetainAllAbsent(r, xs);
      RetainAllAfterRemoveAll(s, xs, xs);
    }
  }
}
