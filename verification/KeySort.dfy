/** The canonical map-key order and the stable sort by it. */
module KeySort {
  import opened Numbers
  import Sorting

  datatype Keyed<T> = Keyed(key: bytes, val: T)

  /** Shorter keys first; keys of one length in lexicographic order. */
  predicate KeyLess(a: bytes, b: bytes) {
    |a| < |b| || (|a| == |b| && LexLess(a, b))
  }

  predicate KeyLeq(a: bytes, b: bytes) {
    a == b || KeyLess(a, b)
  }

  lemma KeyTotal(a: bytes, b: bytes)
    ensures KeyLess(a, b) || a == b || KeyLess(b, a)
  {
    if |a| == |b| {
      LexLessTotal(a, b);
    }
  }

  lemma KeyTransitive(a: bytes, b: bytes, c: bytes)
    requires KeyLeq(a, b) && KeyLeq(b, c)
    ensures KeyLeq(a, c)
    ensures a != b || b != c ==> KeyLess(a, c)
  {
    if |a| == |b| == |c| && a != b && b != c {
      LexLessTransitive(a, b, c);
    }
  }

  lemma KeyAsymmetric(a: bytes, b: bytes)
    requires KeyLess(a, b)
    ensures a != b && !KeyLess(b, a)
  {
    LexLessIrreflexive(a);
    if KeyLess(b, a) {
      LexLessTransitive(a, b, a);
      assert false;
    }
  }

  /** The order in full: a shorter key first; of two keys of one length the one with the smaller
      byte at the first difference. */
  lemma KeyLessIff(a: bytes, b: bytes)
    ensures KeyLess(a, b)
       <==> |a| < |b| || (|a| == |b| && exists p :: 0 <= p < |a| && a[..p] == b[..p] && a[p] < b[p])
  {
    if |a| == |b| {
      LexLessIff(a, b);
    }
  }

  lemma KeyOrder()
    ensures Sorting.TotalPreorder(KeyLeq)
  {
    forall a: bytes, b: bytes ensures KeyLeq(a, b) || KeyLeq(b, a) {
      KeyTotal(a, b);
    }
    forall a: bytes, b: bytes, c: bytes | KeyLeq(a, b) && KeyLeq(b, c) ensures KeyLeq(a, c) {
      KeyTransitive(a, b, c);
    }
  }

  function KeyOf<T>(x: Keyed<T>): bytes {
    x.key
  }

  ghost predicate Sorted<T>(s: seq<Keyed<T>>) {
    forall i, j :: 0 <= i < j < |s| ==> KeyLeq(s[i].key, s[j].key)
  }

  function Insert<T>(x: Keyed<T>, s: seq<Keyed<T>>): seq<Keyed<T>> {
    Sorting.Insert(KeyOf, KeyLeq, x, s)
  }

  function Sort<T>(s: seq<Keyed<T>>): seq<Keyed<T>> {
    Sorting.Sort(KeyOf, KeyLeq, s)
  }

  // ----- the sort is a stable sort -----

  lemma {:induction false} SortContents<T>(s: seq<Keyed<T>>)
    ensures multiset(Sort(s)) == multiset(s)
    ensures |Sort(s)| == |s|
  {
    Sorting.SortContents(KeyOf, KeyLeq, s);
  }

  lemma {:induction false} SortSorted<T>(s: seq<Keyed<T>>)
    ensures Sorted(Sort(s))
  {
    KeyOrder();
    Sorting.SortSorted(KeyOf, KeyLeq, s);
  }

  /** Of two sorted entries the earlier has the shorter key, or keys of one length that are equal or
      first differ by a smaller byte. */
  lemma {:induction false} SortLengthFirst<T>(s: seq<Keyed<T>>, i: nat, j: nat)
    requires i < j < |Sort(s)|
    ensures var a, b := Sort(s)[i].key, Sort(s)[j].key;
            || |a| < |b|
            || (|a| == |b| && (a == b || exists p :: 0 <= p < |a| && a[..p] == b[..p] && a[p] < b[p]))
  {
    SortSorted(s);
    hide Sort, KeyLess;
    KeyLessIff(Sort(s)[i].key, Sort(s)[j].key);
  }

  /** The entries of `s` under one key, in order. */
  function Under<T>(k: bytes, s: seq<Keyed<T>>): seq<Keyed<T>> {
    if s == [] then []
    else (if s[0].key == k then [s[0]] else []) + Under(k, s[1..])
  }

  lemma {:induction false} InsertStable<T>(k: bytes, x: Keyed<T>, s: seq<Keyed<T>>)
    ensures Under(k, Insert(x, s)) == Under(k, [x] + s)
  {
    if s == [] || KeyLeq(x.key, s[0].key) {
    } else {
      InsertStable(k, x, s[1..]);
      assert ([s[0]] + Insert(x, s[1..]))[1..] == Insert(x, s[1..]);
      assert ([x] + s[1..])[1..] == s[1..];
      assert ([x] + s)[1..] == s;
    }
  }

  lemma {:induction false} SortStable<T>(k: bytes, s: seq<Keyed<T>>)
    ensures Under(k, Sort(s)) == Under(k, s)
  {
    if s != [] {
      InsertStable(k, s[0], Sort(s[1..]));
      SortStable(k, s[1..]);
      assert ([s[0]] + Sort(s[1..]))[1..] == Sort(s[1..]);
    }
  }

  // ----- what the canonical encoder needs from it -----

  lemma {:induction false} SortOfSorted<T>(s: seq<Keyed<T>>)
    requires Sorted(s)
    ensures Sort(s) == s
  {
    Sorting.SortOfSorted(KeyOf, KeyLeq, s);
  }

  function MapVals<T, U>(f: T -> U, s: seq<Keyed<T>>): (r: seq<Keyed<U>>)
    ensures |r| == |s|
    ensures forall i :: 0 <= i < |s| ==> r[i] == Keyed(s[i].key, f(s[i].val))
  {
    seq(|s|, i requires 0 <= i < |s| => Keyed(s[i].key, f(s[i].val)))
  }

  lemma {:induction false} InsertMapVals<T, U>(f: T -> U, x: Keyed<T>, s: seq<Keyed<T>>)
    ensures Insert(Keyed(x.key, f(x.val)), MapVals(f, s)) == MapVals(f, Insert(x, s))
  {
    if s != [] && !KeyLeq(x.key, s[0].key) {
      InsertMapVals(f, x, s[1..]);
      assert MapVals(f, s)[1..] == MapVals(f, s[1..]);
    }
  }

  /** Sorting looks only at the keys, so it commutes with any change of the values. */
  lemma {:induction false} SortMapVals<T, U>(f: T -> U, s: seq<Keyed<T>>)
    ensures Sort(MapVals(f, s)) == MapVals(f, Sort(s))
  {
    if s != [] {
      SortMapVals(f, s[1..]);
      assert MapVals(f, s)[1..] == MapVals(f, s[1..]);
      InsertMapVals(f, s[0], Sort(s[1..]));
    }
  }

  ghost predicate DistinctKeys<T>(s: seq<Keyed<T>>) {
    forall i, j :: 0 <= i < j < |s| ==> s[i].key != s[j].key
  }

  /** With distinct keys the sorted sequence depends only on the set of entries. */
  lemma {:induction false} SortUnique<T>(s: seq<Keyed<T>>, t: seq<Keyed<T>>)
    requires DistinctKeys(s) && multiset(s) == multiset(t)
    ensures Sort(s) == Sort(t)
  {
    KeyOrder();
    forall x, y | x in s && y in s && KeyLeq(x.key, y.key) && KeyLeq(y.key, x.key) ensures x == y {
      if x.key != y.key {
        KeyAsymmetric(x.key, y.key);
        assert false;
      }
    }
    Sorting.SortUnique(KeyOf, KeyLeq, s, t);
  }
}
