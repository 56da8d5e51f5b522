/** Stable insertion sort by a key under a total preorder. */
module Sorting {
  import opened Numbers

  ghost predicate TotalPreorder<K(!new)>(leq: (K, K) -> bool) {
    && (forall a, b :: leq(a, b) || leq(b, a))
    && (forall a, b, c :: leq(a, b) && leq(b, c) ==> leq(a, c))
  }

  /** Insertion before the first element whose key is not smaller. */
  function Insert<T, K>(key: T -> K, leq: (K, K) -> bool, x: T, s: seq<T>): seq<T> {
    if s == [] || leq(key(x), key(s[0])) then [x] + s else [s[0]] + Insert(key, leq, x, s[1..])
  }

  function Sort<T, K>(key: T -> K, leq: (K, K) -> bool, s: seq<T>): seq<T> {
    if s == [] then [] else Insert(key, leq, s[0], Sort(key, leq, s[1..]))
  }

  ghost predicate SortedBy<T, K>(key: T -> K, leq: (K, K) -> bool, s: seq<T>) {
    forall i, j :: 0 <= i < j < |s| ==> leq(key(s[i]), key(s[j]))
  }

  /** No two different elements have equivalent keys. */
  ghost predicate Separated<T, K>(key: T -> K, leq: (K, K) -> bool, s: seq<T>) {
    forall x, y :: x in s && y in s && leq(key(x), key(y)) && leq(key(y), key(x)) ==> x == y
  }

  // ----- contents -----

  lemma {:induction false} InsertContents<T, K>(key: T -> K, leq: (K, K) -> bool, x: T, s: seq<T>)
    ensures multiset(Insert(key, leq, x, s)) == multiset{x} + multiset(s)
  {
    if s != [] && !leq(key(x), key(s[0])) {
      InsertContents(key, leq, x, s[1..]);
      assert s == [s[0]] + s[1..];
    }
  }

  lemma {:induction false} SortContents<T, K>(key: T -> K, leq: (K, K) -> bool, s: seq<T>)
    ensures multiset(Sort(key, leq, s)) == multiset(s)
    ensures |Sort(key, leq, s)| == |s|
    ensures forall x :: x in Sort(key, leq, s) <==> x in s
  {
    if s != [] {
      SortContents(key, leq, s[1..]);
      InsertContents(key, leq, s[0], Sort(key, leq, s[1..]));
      assert s == [s[0]] + s[1..];
    }
    assert |multiset(Sort(key, leq, s))| == |Sort(key, leq, s)|;
    assert forall x :: x in Sort(key, leq, s) <==> x in multiset(Sort(key, leq, s));
  }

  // ----- order -----

  lemma {:induction false} InsertSorted<T, K(!new)>(key: T -> K, leq: (K, K) -> bool, x: T, s: seq<T>)
    requires TotalPreorder(leq) && SortedBy(key, leq, s)
    ensures SortedBy(key, leq, Insert(key, leq, x, s))
  {
    var r := Insert(key, leq, x, s);
    if s == [] || leq(key(x), key(s[0])) {
      forall j | 0 < j < |r| ensures leq(key(x), key(r[j])) {
        assert r[j] == s[j - 1];
      }
    } else {
      var rest := Insert(key, leq, x, s[1..]);
      InsertSorted(key, leq, x, s[1..]);
      InsertContents(key, leq, x, s[1..]);
      forall j | 0 <= j < |rest| ensures leq(key(s[0]), key(rest[j])) {
        assert rest[j] in multiset(rest);
        assert rest[j] == x || rest[j] in s[1..];
      }
    }
  }

  lemma {:induction false} SortSorted<T, K(!new)>(key: T -> K, leq: (K, K) -> bool, s: seq<T>)
    requires TotalPreorder(leq)
    ensures SortedBy(key, leq, Sort(key, leq, s))
  {
    if s != [] {
      SortSorted(key, leq, s[1..]);
      InsertSorted(key, leq, s[0], Sort(key, leq, s[1..]));
    }
  }

  lemma {:induction false} SortOfSorted<T, K>(key: T -> K, leq: (K, K) -> bool, s: seq<T>)
    requires SortedBy(key, leq, s)
    ensures Sort(key, leq, s) == s
  {
    if s != [] {
      SortOfSorted(key, leq, s[1..]);
      assert s == [s[0]] + s[1..];
    }
  }

  // ----- with separated keys the order of the input is irrelevant -----

  lemma {:induction false} HeadsAgree<T, K(!new)>(key: T -> K, leq: (K, K) -> bool, s: seq<T>, t: seq<T>)
    requires TotalPreorder(leq) && s != [] && t != [] && SortedBy(key, leq, s) && SortedBy(key, leq, t)
    requires Separated(key, leq, s) && s[0] in t && t[0] in s
    ensures s[0] == t[0]
  {
    var i :| 0 <= i < |s| && s[i] == t[0];
    var j :| 0 <= j < |t| && t[j] == s[0];
    assert leq(key(s[0]), key(s[i]));
    assert leq(key(t[0]), key(t[j]));
  }

  lemma {:induction false} TailsMatch<T, K>(key: T -> K, leq: (K, K) -> bool, s: seq<T>, t: seq<T>)
    requires s != [] && t != [] && SortedBy(key, leq, s) && SortedBy(key, leq, t) && Separated(key, leq, s)
    requires s[0] == t[0] && multiset(s) == multiset(t)
    ensures SortedBy(key, leq, s[1..]) && SortedBy(key, leq, t[1..]) && Separated(key, leq, s[1..])
    ensures multiset(s[1..]) == multiset(t[1..])
  {
    TailContents(s);
    TailContents(t);
  }

  lemma {:induction false} SortedUnique<T, K(!new)>(key: T -> K, leq: (K, K) -> bool, s: seq<T>, t: seq<T>)
    requires TotalPreorder(leq) && SortedBy(key, leq, s) && SortedBy(key, leq, t)
    requires Separated(key, leq, s) && multiset(s) == multiset(t)
    ensures s == t
  {
    hide TotalPreorder, SortedBy, Separated;
    assert |s| == |multiset(s)| == |multiset(t)| == |t|;
    if s != [] {
      assert s[0] in multiset(t) && t[0] in multiset(s);
      HeadsAgree(key, leq, s, t);
      TailsMatch(key, leq, s, t);
      SortedUnique(key, leq, s[1..], t[1..]);
      assert s == [s[0]] + s[1..] && t == [t[0]] + t[1..];
    }
  }

  lemma {:induction false} SeparatedWithin<T, K>(key: T -> K, leq: (K, K) -> bool, s: seq<T>, t: seq<T>)
    requires Separated(key, leq, s) && forall x :: x in t ==> x in s
    ensures Separated(key, leq, t)
  {
  }

  lemma {:induction false} SortUnique<T, K(!new)>(key: T -> K, leq: (K, K) -> bool, s: seq<T>, t: seq<T>)
    requires TotalPreorder(leq) && Separated(key, leq, s) && multiset(s) == multiset(t)
    ensures Sort(key, leq, s) == Sort(key, leq, t)
  {
    SortContents(key, leq, s);
    SortContents(key, leq, t);
    SortSorted(key, leq, s);
    SortSorted(key, leq, t);
    forall x | x in Sort(key, leq, s) ensures x in s {
      assert x in multiset(Sort(key, leq, s));
    }
    SeparatedWithin(key, leq, s, Sort(key, leq, s));
    hide Sort, SortedBy, TotalPreorder, Separated;
    SortedUnique(key, leq, Sort(key, leq, s), Sort(key, leq, t));
  }

  // ----- numeric keys -----

  predicate NatLeq(a: nat, b: nat) {
    a <= b
  }

  ghost predicate Ascending<T>(key: T -> nat, s: seq<T>) {
    forall i, j :: 0 <= i < j < |s| ==> key(s[i]) < key(s[j])
  }

  /** Sorting any rearrangement of a strictly ascending sequence restores it. */
  lemma {:induction false} SortRestores<T>(key: T -> nat, s: seq<T>, t: seq<T>)
    requires Ascending(key, t) && multiset(s) == multiset(t)
    ensures Sort(key, NatLeq, s) == t
  {
    SortOfSorted(key, NatLeq, t);
    SortUnique(key, NatLeq, t, s);
  }
}
