/** Map order and the canonical bytes: exactly when two maps share their bytes, and why
    reordering the entries of maps, at any depth, cannot change an encoding. */
module CborOrder {
  import opened Numbers
  import opened KeySort
  import opened Cbor
  import opened CborDecode
  import opened CborTheorems

  // ----- a sorted sequence is determined by what it lists under each key -----

  /** Under every key, the same entries in the same order. */
  ghost predicate SameUnder<T>(s: seq<Keyed<T>>, t: seq<Keyed<T>>) {
    forall k: bytes :: Under(k, s) == Under(k, t)
  }

  lemma {:induction false} UnderMember<T>(k: bytes, s: seq<Keyed<T>>)
    ensures Under(k, s) != [] ==> exists i :: 0 <= i < |s| && s[i].key == k
    ensures forall x :: x in s && x.key == k ==> Under(k, s) != []
  {
    if s != [] {
      UnderMember(k, s[1..]);
      if s[0].key != k && Under(k, s[1..]) != [] {
        var i :| 0 <= i < |s[1..]| && s[1..][i].key == k;
        assert s[i + 1].key == k;
      }
    }
  }

  /** The smallest key of a sorted sequence is at most every key the other one lists. */
  lemma {:induction false} HeadBelow<T>(s: seq<Keyed<T>>, t: seq<Keyed<T>>)
    requires s != [] && t != [] && Sorted(s)
    requires Under(t[0].key, s) == Under(t[0].key, t)
    ensures KeyLeq(s[0].key, t[0].key)
  {
    var k := t[0].key;
    UnderMember(k, t);
    UnderMember(k, s);
    var i :| 0 <= i < |s| && s[i].key == k;
  }

  lemma {:induction false} NothingUnder<T>(s: seq<Keyed<T>>, t: seq<Keyed<T>>)
    requires (SameUnder(s, t) || SameUnder(t, s)) && t == []
    ensures s == []
  {
    if s != [] {
      UnderMember(s[0].key, s);
      assert false;
    }
  }

  lemma {:induction false} SortedByUnder<T>(s: seq<Keyed<T>>, t: seq<Keyed<T>>)
    requires Sorted(s) && Sorted(t)
    requires SameUnder(s, t)
    ensures s == t
  {
    if t == [] {
      NothingUnder(s, t);
    } else if s == [] {
      NothingUnder(t, s);
    } else {
      HeadBelow(s, t);
      HeadBelow(t, s);
      if s[0].key != t[0].key {
        KeyAsymmetric(s[0].key, t[0].key);
        assert false;
      }
      assert Under(s[0].key, s)[0] == s[0] && Under(s[0].key, t)[0] == t[0];
      forall k: bytes ensures Under(k, s[1..]) == Under(k, t[1..]) {
        assert Under(k, s) == Under(k, t);
        UnderTail(k, s);
        UnderTail(k, t);
      }
      SortedByUnder(s[1..], t[1..]);
      assert s == [s[0]] + s[1..] && t == [t[0]] + t[1..];
    }
  }

  lemma {:induction false} UnderTail<T>(k: bytes, s: seq<Keyed<T>>)
    requires s != []
    ensures Under(k, s[1..]) == if s[0].key == k then Under(k, s)[1..] else Under(k, s)
  {
  }

  /** The stable sort: the only sorted sequence that keeps each key's entries in order. */
  lemma {:induction false} SortCharacterized<T>(s: seq<Keyed<T>>, t: seq<Keyed<T>>)
    ensures t == Sort(s) <==> Sorted(t) && SameUnder(t, s)
  {
    SortSorted(s);
    SortKeepsUnder(s);
    if Sorted(t) && SameUnder(t, s) {
      SameUnderJoin(t, s, Sort(s));
      SortedByUnder(t, Sort(s));
    }
  }

  lemma {:induction false} SortKeepsUnder<T>(s: seq<Keyed<T>>)
    ensures SameUnder(Sort(s), s)
  {
    forall k: bytes ensures Under(k, Sort(s)) == Under(k, s) {
      SortStable(k, s);
    }
  }

  lemma {:induction false} SameUnderJoin<T>(s: seq<Keyed<T>>, t: seq<Keyed<T>>, u: seq<Keyed<T>>)
    requires SameUnder(s, t) && SameUnder(u, t)
    ensures SameUnder(s, u) && SameUnder(t, s)
  {
    forall k: bytes ensures Under(k, s) == Under(k, u) && Under(k, t) == Under(k, s) {
      assert Under(k, s) == Under(k, t) && Under(k, u) == Under(k, t);
    }
  }

  // ----- the order of map entries in the bytes -----

  /** In a canonical map an earlier entry has the shorter encoded key, or one of equal length that is
      equal or has the smaller byte at the first difference. */
  lemma {:induction false} CanonicalMapOrder(es: seq<Entry>, i: nat, j: nat)
    requires IsCanonical(Map(es)) && i < j < |es|
    ensures var a, b := Encode(es[i].key), Encode(es[j].key);
            || |a| < |b|
            || (|a| == |b| && (a == b || exists p :: 0 <= p < |a| && a[..p] == b[..p] && a[p] < b[p]))
  {
    EncodeEntriesAt(es, i);
    EncodeEntriesAt(es, j);
    hide Encode, EncodeEntries, KeyLess;
    KeyLessIff(Encode(es[i].key), Encode(es[j].key));
  }

  /** The entries of any map are written in that order: they are read back so. */
  lemma {:induction false} EncodedMapOrder(entries: seq<Entry>, suffix: bytes, i: nat, j: nat)
    requires Encodable(Map(entries)) && i < j < |entries|
    ensures var r := Decode(Encode(Map(entries)) + suffix);
            && r.Parsed? && r.rest == suffix && r.value.Map? && |r.value.entries| == |entries|
            && var a, b := Encode(r.value.entries[i].key), Encode(r.value.entries[j].key);
               || |a| < |b|
               || (|a| == |b| && (a == b || exists p :: 0 <= p < |a| && a[..p] == b[..p] && a[p] < b[p]))
  {
    RoundTrip(Map(entries), suffix);
    CanonIsCanonical(Map(entries));
    SortContents(CanonEntries(entries));
    hide Decode, Encode, Sort, CanonEntries, IsCanonical;
    CanonicalMapOrder(Canon(Map(entries)).entries, i, j);
  }

  // ----- when two maps have the same bytes -----

  /** Two maps have the same bytes exactly when, under each encoded key, they list the same
      value encodings in the same order; with distinct keys order is irrelevant, with repeated
      keys the order among the repeats shows. */
  lemma {:induction false} MapBytesIff(es: seq<Entry>, fs: seq<Entry>)
    requires Encodable(Map(es)) && Encodable(Map(fs))
    ensures Encode(Map(es)) == Encode(Map(fs))
       <==> SameUnder(EncodeEntries(es), EncodeEntries(fs))
  {
    MapBytesSorted(es, fs);
    SameSortIff(EncodeEntries(es), EncodeEntries(fs));
  }

  lemma {:induction false} SameSortIff<T>(s: seq<Keyed<T>>, t: seq<Keyed<T>>)
    ensures Sort(s) == Sort(t) <==> SameUnder(s, t)
  {
    hide Sort, SameUnder;
    SortKeepsUnder(s);
    SortKeepsUnder(t);
    if Sort(s) == Sort(t) {
      SameUnderJoin(Sort(s), s, Sort(s));
      SameUnderJoin(Sort(t), t, Sort(t));
      SameUnderJoin(s, Sort(s), t);
    }
    if SameUnder(s, t) {
      SameUnderJoin(s, t, s);
      SameUnderJoin(t, s, Sort(s));
      SameUnderJoin(Sort(s), s, t);
      SameUnderJoin(t, Sort(s), t);
      SortCharacterized(t, Sort(s));
      SortSorted(s);
    }
  }

  lemma {:induction false} MapBytesSorted(es: seq<Entry>, fs: seq<Entry>)
    requires Encodable(Map(es)) && Encodable(Map(fs))
    ensures Encode(Map(es)) == Encode(Map(fs)) <==> Sort(EncodeEntries(es)) == Sort(EncodeEntries(fs))
  {
    hide EncodeEntries, CanonEntries, Sort, Flatten;
    if Encode(Map(es)) == Encode(Map(fs)) {
      SameBytesIffSameCanon(Map(es), Map(fs));
      EncodeCanonEntries(es);
      EncodeCanonEntries(fs);
      CanonMapEntries(es);
      CanonMapEntries(fs);
    }
    SortContents(EncodeEntries(es));
    SortContents(EncodeEntries(fs));
  }

  lemma {:induction false} UnderConcat<T>(k: bytes, s: seq<Keyed<T>>, t: seq<Keyed<T>>)
    ensures Under(k, s + t) == Under(k, s) + Under(k, t)
  {
    if s == [] {
      assert s + t == t;
    } else {
      UnderConcat(k, s[1..], t);
      assert (s + t)[0] == s[0] && (s + t)[1..] == s[1..] + t;
      var head := if s[0].key == k then [s[0]] else [];
      assert Under(k, s + t) == head + Under(k, s[1..] + t);
      assert Under(k, s) == head + Under(k, s[1..]);
    }
  }

  /** Two neighbours with one key, among any others. */
  lemma {:induction false} UnderPair<T>(k: bytes, pre: seq<Keyed<T>>, a: T, b: T, post: seq<Keyed<T>>)
    ensures var pair := [Keyed(k, a), Keyed(k, b)];
            Under(k, pre + pair + post) == Under(k, pre) + pair + Under(k, post)
  {
    var pair := [Keyed(k, a), Keyed(k, b)];
    UnderConcat(k, pre + pair, post);
    UnderConcat(k, pre, pair);
    assert pair[1..] == [Keyed(k, b)] && pair[1..][1..] == [];
    assert Under(k, pair[1..]) == [Keyed(k, b)] + Under(k, pair[1..][1..]) == [Keyed(k, b)];
  }

  lemma {:induction false} EncodePair(pre: seq<Entry>, k: Value, a: Value, b: Value, post: seq<Entry>)
    ensures EncodeEntries(pre + [Entry(k, a), Entry(k, b)] + post)
         == EncodeEntries(pre) + [Keyed(Encode(k), Encode(a)), Keyed(Encode(k), Encode(b))] + EncodeEntries(post)
  {
    hide Encode;
    var pair := [Entry(k, a), Entry(k, b)];
    EncodeEntriesConcat(pre + pair, post);
    EncodeEntriesConcat(pre, pair);
    assert pair[1..] == [Entry(k, b)] && pair[1..][1..] == [];
    assert EncodeEntries(pair) == [EncodeEntry(pair[0])] + EncodeEntries(pair[1..]);
  }

  /** Repeated keys are not rejected, and their order is visible in the bytes: swapping two
      neighbours with one key, in any map, changes the bytes exactly when their values differ. */
  lemma {:induction false} RepeatedKeysKeepOrder(pre: seq<Entry>, k: Value, a: Value, b: Value, post: seq<Entry>)
    requires Encodable(Map(pre + [Entry(k, a), Entry(k, b)] + post))
    ensures Encode(Map(pre + [Entry(k, a), Entry(k, b)] + post)) == Encode(Map(pre + [Entry(k, b), Entry(k, a)] + post))
       <==> Encode(a) == Encode(b)
  {
    var es, fs := pre + [Entry(k, a), Entry(k, b)] + post, pre + [Entry(k, b), Entry(k, a)] + post;
    SwapEncodable(pre, k, a, b, post);
    MapBytesIff(es, fs);
    EncodePair(pre, k, a, b, post);
    EncodePair(pre, k, b, a, post);
    hide Encode, EncodeEntries, Encodable;
    var key, s, t := Encode(k), EncodeEntries(es), EncodeEntries(fs);
    UnderPair(key, EncodeEntries(pre), Encode(a), Encode(b), EncodeEntries(post));
    UnderPair(key, EncodeEntries(pre), Encode(b), Encode(a), EncodeEntries(post));
    if SameUnder(s, t) {
      var n := |Under(key, EncodeEntries(pre))|;
      assert Under(key, s)[n] == Keyed(key, Encode(a)) && Under(key, t)[n] == Keyed(key, Encode(b));
      assert Under(key, s) == Under(key, t);
    }
  }

  lemma {:induction false} SwapEncodable(pre: seq<Entry>, k: Value, a: Value, b: Value, post: seq<Entry>)
    requires Encodable(Map(pre + [Entry(k, a), Entry(k, b)] + post))
    ensures Encodable(Map(pre + [Entry(k, b), Entry(k, a)] + post))
  {
    var es, fs := pre + [Entry(k, a), Entry(k, b)] + post, pre + [Entry(k, b), Entry(k, a)] + post;
    var n := |pre|;
    assert es[n] == Entry(k, a) && es[n + 1] == Entry(k, b) && fs[n] == es[n + 1] && fs[n + 1] == es[n];
    forall i | 0 <= i < |fs| ensures Encodable(fs[i].key) && Encodable(fs[i].val) {
      if i != n && i != n + 1 {
        assert fs[i] == es[i];
      }
    }
  }

  // ----- reordering at any depth -----

  /** Equal up to the order of map entries, at every level. */
  ghost predicate Reordered(a: Value, b: Value) {
    match a
    case Array(items) =>
      && b.Array? && |items| == |b.items|
      && forall i :: 0 <= i < |items| ==> Reordered(items[i], b.items[i])
    case Map(entries) =>
      && b.Map?
      && exists fs: seq<Entry> ::
           && |fs| == |entries| && multiset(fs) == multiset(b.entries)
           && forall i :: 0 <= i < |entries| ==>
                Reordered(entries[i].key, fs[i].key) && Reordered(entries[i].val, fs[i].val)
    case Tag(tag, inner) => b.Tag? && b.tag == tag && Reordered(inner, b.inner)
    case _ => a == b
  }

  /** No map, at any level, has two keys with one encoding. */
  ghost predicate DistinctMapKeys(v: Value) {
    match v
    case Array(items) => forall i :: 0 <= i < |items| ==> DistinctMapKeys(items[i])
    case Map(entries) =>
      && DistinctKeys(EncodeEntries(entries))
      && forall i :: 0 <= i < |entries| ==> DistinctMapKeys(entries[i].key) && DistinctMapKeys(entries[i].val)
    case Tag(_, inner) => DistinctMapKeys(inner)
    case _ => true
  }

  lemma {:induction false} EncodeEntriesConcat(es: seq<Entry>, fs: seq<Entry>)
    ensures EncodeEntries(es + fs) == EncodeEntries(es) + EncodeEntries(fs)
  {
    hide EncodeEntry;
    if es == [] {
      assert es + fs == fs;
    } else {
      EncodeEntriesConcat(es[1..], fs);
      assert (es + fs)[1..] == es[1..] + fs;
    }
  }

  lemma RemoveAt<T>(s: seq<T>, p: nat)
    requires p < |s|
    ensures multiset(s[..p] + s[p + 1..]) == multiset(s) - multiset{s[p]}
  {
    assert s == s[..p] + [s[p]] + s[p + 1..];
  }

  lemma {:induction false} EncodePermuted(es: seq<Entry>, fs: seq<Entry>)
    requires multiset(es) == multiset(fs)
    ensures multiset(EncodeEntries(es)) == multiset(EncodeEntries(fs))
  {
    hide EncodeEntries, EncodeEntry;
    if es == [] {
      assert |multiset(fs)| == 0;
    } else {
      assert es[0] in multiset(fs);
      var p :| 0 <= p < |fs| && fs[p] == es[0];
      RemoveAt(fs, p);
      TailContents(es);
      EncodePermuted(es[1..], fs[..p] + fs[p + 1..]);
      EncodeRemoved(fs, p);
      assert es[..0] + es[0 + 1..] == es[1..];
      EncodeRemoved(es, 0);
    }
  }

  /** Encoding without the entry at `p`. */
  lemma {:induction false} EncodeRemoved(es: seq<Entry>, p: nat)
    requires p < |es|
    ensures multiset(EncodeEntries(es))
         == multiset(EncodeEntries(es[..p] + es[p + 1..])) + multiset{EncodeEntry(es[p])}
  {
    hide EncodeEntry;
    var left, mid, right := es[..p], [es[p]], es[p + 1..];
    EncodeEntriesConcat(left, right);
    EncodeEntriesConcat(left, mid);
    EncodeEntriesConcat(left + mid, right);
    assert EncodeEntries(mid) == [EncodeEntry(es[p])];
    assert es == left + mid + right;
  }

  lemma {:induction false} ReorderedItems(xs: seq<Value>, ys: seq<Value>)
    requires |xs| == |ys| && forall i :: 0 <= i < |xs| ==> Encode(xs[i]) == Encode(ys[i])
    ensures EncodeItems(xs) == EncodeItems(ys)
  {
    hide Encode;
    if xs != [] {
      ReorderedItems(xs[1..], ys[1..]);
    }
  }

  /** Reordering the entries of any nested maps with distinct keys never changes the bytes. */
  lemma {:induction false} ReorderedSameBytes(a: Value, b: Value)
    requires Reordered(a, b) && DistinctMapKeys(a)
    ensures Encode(a) == Encode(b)
    decreases a
  {
    hide EncodeEntries, EncodeItems, Flatten, Sort, Head, DistinctKeys, EncodeFloat;
    match a
    case Array(items) =>
      forall i | 0 <= i < |items| ensures Encode(items[i]) == Encode(b.items[i]) {
        ReorderedSameBytes(items[i], b.items[i]);
      }
      ReorderedItems(items, b.items);
    case Map(entries) =>
      var fs: seq<Entry> :| && |fs| == |entries| && multiset(fs) == multiset(b.entries)
                            && forall i :: 0 <= i < |entries| ==>
                                 Reordered(entries[i].key, fs[i].key) && Reordered(entries[i].val, fs[i].val);
      forall i | 0 <= i < |entries| ensures EncodeEntries(entries)[i] == EncodeEntries(fs)[i] {
        ReorderedSameBytes(entries[i].key, fs[i].key);
        ReorderedSameBytes(entries[i].val, fs[i].val);
        EncodeEntriesAt(entries, i);
        EncodeEntriesAt(fs, i);
      }
      assert EncodeEntries(entries) == EncodeEntries(fs);
      ReorderedMap(entries, fs, b.entries);
    case Tag(_, inner) => ReorderedSameBytes(inner, b.inner);
    case _ =>
  }

  lemma {:induction false} ReorderedMap(es: seq<Entry>, fs: seq<Entry>, gs: seq<Entry>)
    requires DistinctKeys(EncodeEntries(es)) && EncodeEntries(es) == EncodeEntries(fs)
    requires multiset(fs) == multiset(gs) && |es| == |fs|
    ensures Encode(Map(es)) == Encode(Map(gs))
  {
    EncodePermuted(fs, gs);
    SortUnique(EncodeEntries(es), EncodeEntries(gs));
    assert |multiset(fs)| == |fs| && |multiset(gs)| == |gs|;
  }
}
