/** Sealed message envelopes: their CBOR map and the visitor that reads it back. */
module Envelopes {
  import opened Numbers
  import opened KeySort
  import opened Cbor
  import opened CborDecode
  import opened CborTheorems

  datatype Envelope = Envelope(
    threadId: bytes, epoch: u32, seqNo: u64, senderUserId: bytes, ciphertext: bytes,
    signature: Option<bytes>, extensions: map<u64, Value>)

  // ----- a sorted map as a CBOR map -----

  lemma {:induction false} HasLeast(s: set<u64>) returns (m: u64)
    requires s != {}
    ensures m in s && forall x :: x in s ==> m <= x
    decreases |s|
  {
    var a :| a in s;
    var rest := s - {a};
    m := a;
    if rest != {} {
      var least := HasLeast(rest);
      m := if a < least then a else least;
    }
    forall x | x in s ensures m <= x {
      assert x == a || x in rest;
    }
  }

  lemma LeastExists(s: set<u64>)
    requires s != {}
    ensures exists m :: m in s && forall x :: x in s ==> m <= x
  {
    var m := HasLeast(s);
  }

  ghost function Least(s: set<u64>): (m: u64)
    requires s != {}
    ensures m in s && forall x :: x in s ==> m <= x
  {
    LeastExists(s);
    var m :| m in s && forall x :: x in s ==> m <= x;
    m
  }

  ghost predicate Ascending(keys: seq<u64>) {
    forall i, j :: 0 <= i < j < |keys| ==> keys[i] < keys[j]
  }

  /** The keys of a sorted map in the order it is walked. */
  ghost function SortedKeys(s: set<u64>): (keys: seq<u64>)
    ensures Ascending(keys)
    ensures forall x :: x in keys <==> x in s
    decreases |s|
  {
    if s == {} then []
    else
      var m := Least(s);
      var rest := SortedKeys(s - {m});
      assert forall i :: 0 <= i < |rest| ==> rest[i] in rest;
      [m] + rest
  }

  ghost function ListEntries(m: map<u64, Value>, keys: seq<u64>): (es: seq<Entry>)
    requires forall k :: k in keys ==> k in m
    ensures |es| == |keys|
    ensures forall i :: 0 <= i < |keys| ==> es[i] == Entry(Integer(keys[i]), m[keys[i]])
  {
    seq(|keys|, i requires 0 <= i < |keys| => Entry(Integer(keys[i]), m[keys[i]]))
  }

  ghost function MapValue(m: map<u64, Value>): (v: Value)
    ensures v.Map? && |v.entries| == |SortedKeys(m.Keys)|
    ensures forall i :: 0 <= i < |v.entries| ==> v.entries[i].key == Integer(SortedKeys(m.Keys)[i])
  {
    Map(ListEntries(m, SortedKeys(m.Keys)))
  }

  // ----- the envelope's map -----

  /** Fixed fields first, then the extensions, which replace a fixed field of the same key. */
  function FieldMap(e: Envelope): map<u64, Value> {
    map[0 := Bytes(e.threadId), 1 := Integer(e.epoch), 2 := Integer(e.seqNo),
        3 := Bytes(e.senderUserId), 4 := Bytes(e.ciphertext)]
    + (if e.signature.Some? then map[5 := Bytes(e.signature.value)] else map[])
    + e.extensions
  }

  ghost function EnvelopeValue(e: Envelope): Value {
    MapValue(FieldMap(e))
  }

  // ----- reading it back -----

  datatype Fields = Fields(
    threadId: Option<bytes>, epoch: Option<u32>, seqNo: Option<u64>, senderUserId: Option<bytes>,
    ciphertext: Option<bytes>, signature: Option<bytes>, extensions: map<u64, Value>)

  const NO_FIELDS := Fields(None, None, None, None, None, None, map[])

  predicate IsU64(v: Value) {
    v.Integer? && 0 <= v.n < TWO64
  }

  /** One map entry: a known key with a value of its type, or an extension. */
  function Accept(f: Fields, e: Entry): Option<Fields> {
    if !e.key.Integer? then None
    else
      var k := e.key.n;
      if k == 0 then if e.val.Bytes? then Some(f.(threadId := Some(e.val.data))) else None
      else if k == 1 then
        if IsU64(e.val) && e.val.n < 0x1_0000_0000 then Some(f.(epoch := Some(e.val.n))) else None
      else if k == 2 then if IsU64(e.val) then Some(f.(seqNo := Some(e.val.n))) else None
      else if k == 3 then if e.val.Bytes? then Some(f.(senderUserId := Some(e.val.data))) else None
      else if k == 4 then if e.val.Bytes? then Some(f.(ciphertext := Some(e.val.data))) else None
      else if k == 5 then if e.val.Bytes? then Some(f.(signature := Some(e.val.data))) else None
      else if k >= 0 then Some(f.(extensions := f.extensions[k % TWO64 := e.val]))
      else None
  }

  function Visit(es: seq<Entry>): Option<Fields> {
    if es == [] then Some(NO_FIELDS)
    else
      match Visit(es[..|es| - 1])
      case None => None
      case Some(f) => Accept(f, es[|es| - 1])
  }

  /** Every fixed field but the signature must be present. */
  function Finish(f: Fields): Option<Envelope> {
    if f.threadId.Some? && f.epoch.Some? && f.seqNo.Some? && f.senderUserId.Some? && f.ciphertext.Some? then
      Some(Envelope(f.threadId.value, f.epoch.value, f.seqNo.value, f.senderUserId.value,
                    f.ciphertext.value, f.signature, f.extensions))
    else None
  }

  function ReadEnvelope(v: Value): Option<Envelope> {
    if !v.Map? then None
    else
      match Visit(v.entries)
      case None => None
      case Some(f) => Finish(f)
  }

  /** The visitor loop over the entries of a map. */
  method VisitMap(entries: seq<Entry>) returns (r: Option<Envelope>)
    ensures r == ReadEnvelope(Map(entries))
  {
    var threadId: Option<bytes>, epoch: Option<u32>, seqNo: Option<u64> := None, None, None;
    var senderUserId: Option<bytes>, ciphertext: Option<bytes>, signature: Option<bytes> := None, None, None;
    var extensions: map<u64, Value> := map[];
    var i := 0;
    while i < |entries|
      invariant 0 <= i <= |entries|
      invariant Visit(entries[..i])
             == Some(Fields(threadId, epoch, seqNo, senderUserId, ciphertext, signature, extensions))
    {
      assert entries[..i + 1][..i] == entries[..i];
      ghost var step := Visit(entries[..i + 1]);
      if step.None? {
        VisitStuck(entries, i + 1);
      }
      var key, value := entries[i].key, entries[i].val;
      if !key.Integer? { return None; }
      match key.n {
      case 0 =>
        if !value.Bytes? { return None; }
        threadId := Some(value.data);
      case 1 =>
        if !IsU64(value) || value.n >= 0x1_0000_0000 { return None; }
        epoch := Some(value.n);
      case 2 =>
        if !IsU64(value) { return None; }
        seqNo := Some(value.n);
      case 3 =>
        if !value.Bytes? { return None; }
        senderUserId := Some(value.data);
      case 4 =>
        if !value.Bytes? { return None; }
        ciphertext := Some(value.data);
      case 5 =>
        if !value.Bytes? { return None; }
        signature := Some(value.data);
      case other =>
        if other < 0 { return None; }
        extensions := extensions[other % TWO64 := value];
      }
      i := i + 1;
    }
    assert entries[..i] == entries;
    r := Finish(Fields(threadId, epoch, seqNo, senderUserId, ciphertext, signature, extensions));
  }

  lemma {:induction false} VisitStuck(es: seq<Entry>, i: nat)
    requires i <= |es| && Visit(es[..i]) == None
    ensures Visit(es) == None
    decreases |es| - i
  {
    hide Accept;
    if i < |es| {
      assert es[..i + 1][..i] == es[..i];
      VisitStuck(es, i + 1);
    } else {
      assert es[..i] == es;
    }
  }

  // ----- which maps are read -----

  /** An entry the visitor takes: keys 0, 3, 4 and 5 hold byte strings, key 1 a 32-bit and key 2 a
      64-bit number, any other unsigned key anything. */
  predicate Readable(e: Entry) {
    && e.key.Integer? && e.key.n >= 0
    && (e.key.n in {0, 3, 4, 5} ==> e.val.Bytes?)
    && (e.key.n == 1 ==> e.val.Integer? && 0 <= e.val.n < 0x1_0000_0000)
    && (e.key.n == 2 ==> e.val.Integer? && 0 <= e.val.n < 0x1_0000_0000_0000_0000)
  }

  ghost predicate HasKey(es: seq<Entry>, k: int) {
    exists i :: 0 <= i < |es| && es[i].key == Integer(k)
  }

  lemma {:induction false} HasKeySnoc(es: seq<Entry>, k: int)
    requires es != []
    ensures HasKey(es, k) <==> HasKey(es[..|es| - 1], k) || es[|es| - 1].key == Integer(k)
  {
    var init := es[..|es| - 1];
    if i :| 0 <= i < |es| && es[i].key == Integer(k) && i < |init| {
      assert init[i].key == Integer(k);
    }
    if i :| 0 <= i < |init| && init[i].key == Integer(k) {
      assert es[i].key == Integer(k);
    }
  }

  ghost predicate FoundIn(f: Fields, es: seq<Entry>) {
    && (f.threadId.Some? <==> HasKey(es, 0)) && (f.epoch.Some? <==> HasKey(es, 1)) && (f.seqNo.Some? <==> HasKey(es, 2))
    && (f.senderUserId.Some? <==> HasKey(es, 3)) && (f.ciphertext.Some? <==> HasKey(es, 4))
    && (f.signature.Some? <==> HasKey(es, 5))
  }

  lemma {:induction false} VisitIff(es: seq<Entry>)
    ensures Visit(es).Some? <==> forall i :: 0 <= i < |es| ==> Readable(es[i])
    ensures Visit(es).Some? ==> FoundIn(Visit(es).value, es)
  {
    if es != [] {
      var init, e := es[..|es| - 1], es[|es| - 1];
      VisitIff(init);
      assert forall i :: 0 <= i < |init| ==> init[i] == es[i];
      HasKeySnoc(es, 0);
      HasKeySnoc(es, 1);
      HasKeySnoc(es, 2);
      HasKeySnoc(es, 3);
      HasKeySnoc(es, 4);
      HasKeySnoc(es, 5);
      hide HasKey;
      if Visit(init).Some? {
        AcceptIff(Visit(init).value, e);
      }
    }
  }

  lemma AcceptIff(f: Fields, e: Entry)
    ensures Accept(f, e).Some? <==> Readable(e)
    ensures Accept(f, e).Some? ==>
              && var g := Accept(f, e).value;
              && (g.threadId.Some? <==> f.threadId.Some? || e.key.n == 0)
              && (g.epoch.Some? <==> f.epoch.Some? || e.key.n == 1)
              && (g.seqNo.Some? <==> f.seqNo.Some? || e.key.n == 2)
              && (g.senderUserId.Some? <==> f.senderUserId.Some? || e.key.n == 3)
              && (g.ciphertext.Some? <==> f.ciphertext.Some? || e.key.n == 4)
              && (g.signature.Some? <==> f.signature.Some? || e.key.n == 5)
  {
  }

  /** A value is read as an envelope exactly when it is a map whose entries are all of the right
      types and which has each of the keys 0 to 4; the signature is there exactly with key 5. */
  lemma {:induction false} ReadIff(v: Value)
    ensures ReadEnvelope(v).Some?
       <==> && v.Map? && (forall i :: 0 <= i < |v.entries| ==> Readable(v.entries[i]))
            && (forall k :: 0 <= k <= 4 ==> HasKey(v.entries, k))
    ensures ReadEnvelope(v).Some? ==> (ReadEnvelope(v).value.signature.Some? <==> HasKey(v.entries, 5))
  {
    if v.Map? {
      hide Visit, HasKey, Readable;
      VisitIff(v.entries);
      assert (forall k :: 0 <= k <= 4 ==> HasKey(v.entries, k))
        <==> && HasKey(v.entries, 0) && HasKey(v.entries, 1) && HasKey(v.entries, 2)
             && HasKey(v.entries, 3) && HasKey(v.entries, 4);
    }
  }

  /** Strict decoding of an envelope payload. */
  function DecodeEnvelope(s: bytes): Option<Envelope> {
    match CanonicalDecode(s)
    case Err(_) => None
    case Ok(v) => ReadEnvelope(v)
  }

  // ----- integer keys sort numerically -----

  /** Shortest unsigned heads are in canonical key order exactly as their numbers. */
  lemma UintKeyOrder(a: u64, b: u64)
    requires a < b
    ensures KeyLess(Head(0, a), Head(0, b))
  {
    hide ToBigEndian;
    if b < 24 {
    } else if a < 24 {
    } else {
      var w := if b < 0x100 then 1 else if b < 0x1_0000 then 2 else if b < 0x1_0000_0000 then 4 else 8;
      if |Head(0, a)| == 1 + w {
        Pow256Values(w);
        BigEndianOrder(a, b, w);
        assert Head(0, a)[1..] == ToBigEndian(a, w) && Head(0, b)[1..] == ToBigEndian(b, w);
      }
    }
  }

  // ----- the round trip -----

  /** The map read off a list of entries, later entries replacing earlier ones. */
  function MapOf(es: seq<Entry>): map<int, Value> {
    if es == [] then map[]
    else
      var e := es[|es| - 1];
      var m := MapOf(es[..|es| - 1]);
      if e.key.Integer? then m[e.key.n := e.val] else m
  }

  /** Fixed fields hold values of their types, and keys are unsigned. */
  ghost predicate WellTyped(m: map<int, Value>) {
    && (forall k :: k in m ==> 0 <= k < TWO64)
    && (0 in m ==> m[0].Bytes?) && (3 in m ==> m[3].Bytes?) && (4 in m ==> m[4].Bytes?)
    && (5 in m ==> m[5].Bytes?)
    && (1 in m ==> IsU64(m[1]) && m[1].n < 0x1_0000_0000)
    && (2 in m ==> IsU64(m[2]))
  }

  function BytesAt(m: map<int, Value>, k: int): Option<bytes> {
    if k in m && m[k].Bytes? then Some(m[k].data) else None
  }

  function ExtensionsOf(m: map<int, Value>): map<u64, Value> {
    map k: u64 | k in m && k > 5 :: m[k]
  }

  ghost predicate Reads(f: Fields, m: map<int, Value>)
    requires WellTyped(m)
  {
    && f.threadId == BytesAt(m, 0) && f.senderUserId == BytesAt(m, 3)
    && f.ciphertext == BytesAt(m, 4) && f.signature == BytesAt(m, 5)
    && f.epoch == (if 1 in m then Some(m[1].n) else None)
    && f.seqNo == (if 2 in m then Some(m[2].n) else None)
    && f.extensions == ExtensionsOf(m)
  }

  /** The visitor recovers the map behind a list of entries with integer keys. */
  lemma {:induction false} VisitReads(es: seq<Entry>)
    requires forall i :: 0 <= i < |es| ==> es[i].key.Integer?
    requires forall i :: 0 <= i <= |es| ==> WellTyped(MapOf(es[..i]))
    ensures WellTyped(MapOf(es)) && Visit(es).Some? && Reads(Visit(es).value, MapOf(es))
  {
    assert es[..|es|] == es;
    if es != [] {
      var init, e := es[..|es| - 1], es[|es| - 1];
      forall i | 0 <= i <= |init| ensures WellTyped(MapOf(init[..i])) {
        assert init[..i] == es[..i];
      }
      VisitReads(init);
      AcceptReads(Visit(init).value, MapOf(init), e);
    }
  }

  lemma {:induction false} AcceptReads(f: Fields, m: map<int, Value>, e: Entry)
    requires e.key.Integer? && WellTyped(m) && WellTyped(m[e.key.n := e.val]) && Reads(f, m)
    ensures Accept(f, e).Some? && Reads(Accept(f, e).value, m[e.key.n := e.val])
  {
    hide WellTyped;
    var k := e.key.n;
    var m' := m[k := e.val];
    TypedAt(m', k);
    ExtensionsUpdate(m, k, e.val);
    assert k in m' && m'[k] == e.val;
    assert forall j :: j != k ==> (j in m' <==> j in m) && (j in m ==> m'[j] == m[j]);
    hide ExtensionsOf;
  }

  lemma ExtensionsUpdate(m: map<int, Value>, k: int, v: Value)
    requires 0 <= k < TWO64
    ensures ExtensionsOf(m[k := v]) == if k > 5 then ExtensionsOf(m)[k := v] else ExtensionsOf(m)
  {
  }

  lemma TypedAt(m: map<int, Value>, k: int)
    requires WellTyped(m) && k in m
    ensures 0 <= k < TWO64
    ensures k in {0, 3, 4, 5} ==> m[k].Bytes?
    ensures k == 1 ==> IsU64(m[k]) && m[k].n < 0x1_0000_0000
    ensures k == 2 ==> IsU64(m[k])
  {
  }

  function CanonValues(m: map<u64, Value>): map<u64, Value> {
    map k | k in m :: Canon(m[k])
  }

  /** Canonicalizing a map with unsigned keys keeps its order: it is already the walk order. */
  lemma {:induction false} CanonMapValue(m: map<u64, Value>)
    ensures Canon(MapValue(m)) == MapValue(CanonValues(m))
  {
    hide Canon, Encode;
    var keys := SortedKeys(m.Keys);
    assert CanonValues(m).Keys == m.Keys;
    var es, fs := ListEntries(m, keys), ListEntries(CanonValues(m), keys);
    var s := CanonEntries(es);
    forall i | 0 <= i < |keys| ensures s[i].key == Head(0, keys[i]) && s[i].val == fs[i] {
      CanonEntriesAt(es, i);
      IntegerKey(keys[i]);
      assert keys[i] in m;
    }
    assert Sorted(s) by {
      forall i, j | 0 <= i < j < |s| ensures KeyLeq(s[i].key, s[j].key) {
        UintKeyOrder(keys[i], keys[j]);
      }
    }
    SortOfSorted(s);
    assert Vals(s) == fs;
    CanonMap(es);
  }

  lemma IntegerKey(k: u64)
    ensures Encode(Integer(k)) == Head(0, k) && Canon(Integer(k)) == Integer(k)
  {
  }

  lemma {:induction false} CanonMap(es: seq<Entry>)
    ensures Canon(Map(es)) == Map(Vals(Sort(CanonEntries(es))))
  {
  }

  /** Listing a map and reading the list back. */
  lemma {:induction false} MapOfList(m: map<u64, Value>, keys: seq<u64>)
    requires forall k :: k in keys ==> k in m
    ensures forall k: int :: k in MapOf(ListEntries(m, keys)) <==> k in keys
    ensures forall k: int :: k in keys ==> MapOf(ListEntries(m, keys))[k] == m[k]
    decreases |keys|
  {
    if keys != [] {
      var init, last := keys[..|keys| - 1], keys[|keys| - 1];
      assert forall k: int :: k in keys <==> k in init || k == last;
      MapOfList(m, init);
      var es := ListEntries(m, keys);
      assert es[..|es| - 1] == ListEntries(m, init);
    }
  }

  lemma {:induction false} VisitMapValue(m: map<u64, Value>)
    requires WellTyped(Widened(m))
    ensures Visit(MapValue(m).entries).Some?
    ensures Reads(Visit(MapValue(m).entries).value, Widened(m))
  {
    hide Visit, Accept, Reads, WellTyped, MapOf;
    var keys := SortedKeys(m.Keys);
    ListTyped(m, keys);
    VisitReads(ListEntries(m, keys));
    MapOfAll(m, keys);
  }

  lemma {:induction false} MapOfAll(m: map<u64, Value>, keys: seq<u64>)
    requires forall k :: k in keys <==> k in m.Keys
    ensures MapOf(ListEntries(m, keys)) == Widened(m)
  {
    hide MapOf;
    MapOfList(m, keys);
    var read, wide := MapOf(ListEntries(m, keys)), Widened(m);
    forall k: int ensures k in read <==> k in wide {
      assert k in read <==> k in keys;
    }
    assert read.Keys == wide.Keys;
    forall k: int | k in read ensures read[k] == wide[k] {
      assert k in keys;
    }
  }

  lemma {:induction false} ListTyped(m: map<u64, Value>, keys: seq<u64>)
    requires WellTyped(Widened(m)) && forall k :: k in keys ==> k in m
    ensures forall i :: 0 <= i <= |keys| ==> WellTyped(MapOf(ListEntries(m, keys)[..i]))
  {
    hide WellTyped, MapOf;
    var es := ListEntries(m, keys);
    forall i | 0 <= i <= |es| ensures WellTyped(MapOf(es[..i])) {
      assert es[..i] == ListEntries(m, keys[..i]);
      assert forall k :: k in keys[..i] ==> k in keys;
      MapOfList(m, keys[..i]);
      SubTyped(MapOf(es[..i]), Widened(m));
    }
  }

  /** The same map with keys read as plain integers. */
  function Widened(m: map<u64, Value>): map<int, Value> {
    map k: int | k in m :: m[k]
  }

  lemma SubTyped(m: map<int, Value>, whole: map<int, Value>)
    requires WellTyped(whole) && forall k :: k in m ==> k in whole && m[k] == whole[k]
    ensures WellTyped(m)
  {
  }

  lemma {:induction false} VisitExtensions(es: seq<Entry>)
    requires forall i :: 0 <= i < |es| && es[i].key.Integer? ==> es[i].key.n < TWO64
    ensures Visit(es).Some? ==> forall k :: k in Visit(es).value.extensions ==> k > 5
  {
    if es != [] {
      VisitExtensions(es[..|es| - 1]);
    }
  }

  function CanonExtensions(e: Envelope): Envelope {
    e.(extensions := CanonValues(e.extensions))
  }

  lemma PlainCanon(v: Value)
    requires v.Bytes? || v.Integer?
    ensures Canon(v) == v
  {
  }

  lemma {:induction false} CanonFieldMap(e: Envelope)
    requires forall k :: k in e.extensions ==> k > 5
    ensures CanonValues(FieldMap(e)) == FieldMap(CanonExtensions(e))
  {
    hide Canon;
    var m, n := CanonValues(FieldMap(e)), FieldMap(CanonExtensions(e));
    assert m.Keys == n.Keys;
    forall k | k in m ensures m[k] == n[k] {
      if k <= 5 {
        PlainCanon(FieldMap(e)[k]);
      }
    }
  }

  lemma {:induction false} FieldMapTyped(e: Envelope)
    requires forall k :: k in e.extensions ==> k > 5
    ensures WellTyped(Widened(FieldMap(e)))
    ensures ExtensionsOf(Widened(FieldMap(e))) == e.extensions
  {
    var m := Widened(FieldMap(e));
    assert 5 in m ==> m[5].Bytes?;
    assert ExtensionsOf(m).Keys == e.extensions.Keys;
  }

  /** The canonical bytes of an envelope read back as the same envelope, up to the canonical
      form of its extension values, exactly when no extension uses the key of a fixed field. */
  lemma {:induction false} EnvelopeRoundTrip(e: Envelope)
    requires Encodable(EnvelopeValue(e))
    ensures DecodeEnvelope(Encode(EnvelopeValue(e))) == Some(CanonExtensions(e))
       <==> forall k :: k in e.extensions ==> k > 5
  {
    hide Canon, Encode, Encodable, CanonicalDecode, Visit, MapValue, FieldMap;
    var v := EnvelopeValue(e);
    AcceptsExactlyTheImage(Encode(v));
    CanonMapValue(FieldMap(e));
    var w := MapValue(CanonValues(FieldMap(e)));
    assert CanonicalDecode(Encode(v)) == Ok(w);
    if forall k :: k in e.extensions ==> k > 5 {
      CanonFieldMap(e);
      ReadFieldMap(CanonExtensions(e));
    } else {
      LowExtensionLost(e, CanonValues(FieldMap(e)));
    }
  }

  /** No envelope that is read has an extension under the key of a fixed field. */
  lemma {:induction false} LowExtensionLost(e: Envelope, m: map<u64, Value>)
    requires exists k :: k in e.extensions && k <= 5
    ensures ReadEnvelope(MapValue(m)) != Some(CanonExtensions(e))
  {
    hide Visit, Canon, SortedKeys;
    VisitExtensions(MapValue(m).entries);
    var k :| k in e.extensions && k <= 5;
    assert k in CanonExtensions(e).extensions;
  }

  // ----- an extension under the key of a fixed field -----

  lemma {:induction false} SortedKeysCount(s: set<u64>)
    ensures |SortedKeys(s)| == |s|
    decreases |s|
  {
    if s != {} {
      SortedKeysCount(s - {Least(s)});
    }
  }

  lemma {:induction false} MapEncodable(m: map<u64, Value>)
    requires |m| < TWO64 && forall k :: k in m ==> Encodable(m[k])
    ensures Encodable(MapValue(m))
  {
    var keys := SortedKeys(m.Keys);
    SortedKeysCount(m.Keys);
    hide SortedKeys;
    var es := ListEntries(m, keys);
    forall i | 0 <= i < |es| ensures Encodable(es[i].key) && Encodable(es[i].val) {
      assert keys[i] in m;
    }
  }

  /** An envelope with thread id 1 and extension 0 set to the bytes 9 is written, and read back as
      an envelope with thread id 9 and no extension. */
  lemma ExtensionReplacesThreadId()
    ensures var e := Envelope([1], 0, 0, [2], [3], None, map[0 := Bytes([9])]);
            && Encodable(EnvelopeValue(e))
            && DecodeEnvelope(Encode(EnvelopeValue(e))) == Some(Envelope([9], 0, 0, [2], [3], None, map[]))
  {
    hide MapValue, Encode, Encodable, DecodeEnvelope, Canon;
    var e := Envelope([1], 0, 0, [2], [3], None, map[0 := Bytes([9])]);
    var f := Envelope([9], 0, 0, [2], [3], None, map[]);
    assert FieldMap(e) == FieldMap(f);
    FewFields(f);
    EnvelopeRoundTrip(f);
    assert CanonExtensions(f) == f;
  }

  lemma FewFields(e: Envelope)
    requires e == Envelope([9], 0, 0, [2], [3], None, map[])
    ensures Encodable(EnvelopeValue(e))
  {
    hide MapValue;
    var m := FieldMap(e);
    assert m.Keys == {0, 1, 2, 3, 4};
    assert |m| == |m.Keys|;
    MapEncodable(m);
  }

  /** Listing an envelope's fields and visiting the list gives the envelope. */
  lemma {:induction false} ReadFieldMap(e: Envelope)
    requires forall k :: k in e.extensions ==> k > 5
    ensures ReadEnvelope(MapValue(FieldMap(e))) == Some(e)
  {
    hide Visit, MapValue, WellTyped, ExtensionsOf, FieldMap, Widened;
    FieldMapTyped(e);
    VisitMapValue(FieldMap(e));
    FieldMapAt(e);
  }

  lemma {:induction false} FieldMapAt(e: Envelope)
    requires forall k :: k in e.extensions ==> k > 5
    ensures var m := Widened(FieldMap(e));
            && BytesAt(m, 0) == Some(e.threadId) && BytesAt(m, 3) == Some(e.senderUserId)
            && BytesAt(m, 4) == Some(e.ciphertext) && BytesAt(m, 5) == e.signature
            && 1 in m && m[1] == Integer(e.epoch) && 2 in m && m[2] == Integer(e.seqNo)
  {
    var m := Widened(FieldMap(e));
    assert 5 in m <==> e.signature.Some?;
  }
}
