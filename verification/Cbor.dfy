/** UTF-8 as in RFC 3629: what a text item may hold. */
module Utf8 {
  import opened Numbers

  predicate Tail(b: byte) { 0x80 <= b <= 0xbf }

  /** The length of the scalar value at the head of `s`, or 0 when there is none. */
  function Width(s: bytes): (n: nat)
    ensures n <= |s|
  {
    if |s| >= 1 && s[0] < 0x80 then 1
    else if |s| >= 2 && 0xc2 <= s[0] <= 0xdf && Tail(s[1]) then 2
    else if |s| >= 3 && 0xe0 <= s[0] <= 0xef && Tail(s[1]) && Tail(s[2])
            && (s[0] == 0xe0 ==> s[1] >= 0xa0) && (s[0] == 0xed ==> s[1] <= 0x9f) then 3
    else if |s| >= 4 && 0xf0 <= s[0] <= 0xf4 && Tail(s[1]) && Tail(s[2]) && Tail(s[3])
            && (s[0] == 0xf0 ==> s[1] >= 0x90) && (s[0] == 0xf4 ==> s[1] <= 0x8f) then 4
    else 0
  }

  predicate Valid(s: bytes) {
    s == [] || (Width(s) > 0 && Valid(s[Width(s)..]))
  }
}

/** CBOR values and the canonical encoder, as a function from values to bytes. */
module Cbor {
  import opened Numbers
  import opened KeySort
  import opened Ieee754
  import Utf8

  type text = s: bytes | Utf8.Valid(s)

  datatype Value =
    | Null
    | Bool(b: bool)
    | Integer(n: int)
    | Bytes(data: bytes)
    | Text(utf8: text)
    | Array(items: seq<Value>)
    | Map(entries: seq<Entry>)
    | Tag(tag: u64, inner: Value)
    | Float(bits: u64)

  datatype Entry = Entry(key: Value, val: Value)

  const TWO64: int := 0x1_0000_0000_0000_0000

  /** The initial byte and argument of an item, in the shortest form.
      An argument beyond 64 bits has no head; `Encodable` keeps those out. */
  function Head(major: nat, n: nat): (r: bytes)
    requires major < 8
  {
    if n < 24 then [32 * major + n]
    else if n < 0x100 then [32 * major + 24] + ToBigEndian(n, 1)
    else if n < 0x1_0000 then [32 * major + 25] + ToBigEndian(n, 2)
    else if n < 0x1_0000_0000 then [32 * major + 26] + ToBigEndian(n, 4)
    else if n < TWO64 then [32 * major + 27] + ToBigEndian(n, 8)
    else []
  }

  /** Shortest float form; every NaN becomes the one binary16 NaN. */
  function EncodeFloat(bits: u64): (r: bytes) {
    if IsNaN64(bits) then [0xf9] + ToBigEndian(0x7e00, 2)
    else if NumericEq(F16BitsToF64(F64ToF16Bits(bits)), Binary64(bits)) then
      [0xf9] + ToBigEndian(F64ToF16Bits(bits), 2)
    else if NumericEq(Binary32(F64ToF32Bits(bits)), Binary64(bits)) then
      [0xfa] + ToBigEndian(F64ToF32Bits(bits), 4)
    else
      [0xfb] + ToBigEndian(bits, 8)
  }

  /** No integer or length needs more than 64 bits. */
  predicate Encodable(v: Value) {
    match v
    case Integer(n) => -TWO64 <= n < TWO64
    case Bytes(data) => |data| < TWO64
    case Text(utf8) => |utf8| < TWO64
    case Array(items) => |items| < TWO64 && forall i :: 0 <= i < |items| ==> Encodable(items[i])
    case Map(entries) =>
      && |entries| < TWO64
      && forall i :: 0 <= i < |entries| ==> Encodable(entries[i].key) && Encodable(entries[i].val)
    case Tag(_, inner) => Encodable(inner)
    case _ => true
  }

  function Encode(v: Value): bytes
    decreases v, 1
  {
    match v
    case Null => [0xf6]
    case Bool(b) => if b then [0xf5] else [0xf4]
    case Integer(n) => if n >= 0 then Head(0, n) else Head(1, -1 - n)
    case Bytes(data) => Head(2, |data|) + data
    case Text(utf8) => Head(3, |utf8|) + utf8
    case Array(items) => Head(4, |items|) + EncodeItems(items)
    case Map(entries) => Head(5, |entries|) + Flatten(Sort(EncodeEntries(entries)))
    case Tag(tag, inner) => Head(6, tag) + Encode(inner)
    case Float(bits) => EncodeFloat(bits)
  }

  function EncodeItems(items: seq<Value>): bytes
    decreases items, 0
  {
    if items == [] then [] else Encode(items[0]) + EncodeItems(items[1..])
  }

  function EncodeEntries(entries: seq<Entry>): (r: seq<Keyed<bytes>>)
    ensures |r| == |entries|
    decreases entries, 0
  {
    if entries == [] then [] else [EncodeEntry(entries[0])] + EncodeEntries(entries[1..])
  }

  function EncodeEntry(e: Entry): Keyed<bytes>
    decreases e, 0
  {
    Keyed(Encode(e.key), Encode(e.val))
  }

  function Flatten(s: seq<Keyed<bytes>>): bytes {
    if s == [] then [] else s[0].key + s[0].val + Flatten(s[1..])
  }

  datatype Error = OutOfRange | NotCbor | NotCanonical
  datatype Result<+T> = Ok(value: T) | Err(error: Error)

  /** The value every decoder of the canonical bytes must see: maps sorted by encoded
      key at every level, and one NaN. */
  function Canon(v: Value): Value
    decreases v, 1
  {
    match v
    case Array(items) => Array(CanonItems(items))
    case Map(entries) => Map(Vals(Sort(CanonEntries(entries))))
    case Tag(tag, inner) => Tag(tag, Canon(inner))
    case Float(bits) => if IsNaN64(bits) then Float(CANONICAL_NAN) else v
    case _ => v
  }

  const CANONICAL_NAN: u64 := 0x7ff8_0000_0000_0000

  function CanonItems(items: seq<Value>): (r: seq<Value>)
    ensures |r| == |items|
    decreases items, 0
  {
    if items == [] then [] else [Canon(items[0])] + CanonItems(items[1..])
  }

  function CanonEntries(entries: seq<Entry>): (r: seq<Keyed<Entry>>)
    ensures |r| == |entries|
    decreases entries, 0
  {
    if entries == [] then [] else [CanonEntry(entries[0])] + CanonEntries(entries[1..])
  }

  function CanonEntry(e: Entry): Keyed<Entry>
    decreases e, 0
  {
    Keyed(Encode(e.key), Entry(Canon(e.key), Canon(e.val)))
  }

  function Vals<T>(s: seq<Keyed<T>>): (r: seq<T>)
    ensures |r| == |s|
    ensures forall i :: 0 <= i < |s| ==> r[i] == s[i].val
  {
    seq(|s|, i requires 0 <= i < |s| => s[i].val)
  }

  /** Maps sorted by encoded key at every level, and no NaN but the canonical one. */
  ghost predicate IsCanonical(v: Value) {
    match v
    case Array(items) => forall i :: 0 <= i < |items| ==> IsCanonical(items[i])
    case Map(entries) =>
      && (forall i :: 0 <= i < |entries| ==> IsCanonical(entries[i].key) && IsCanonical(entries[i].val))
      && Sorted(EncodeEntries(entries))
    case Tag(_, inner) => IsCanonical(inner)
    case Float(bits) => IsNaN64(bits) ==> bits == CANONICAL_NAN
    case _ => true
  }

  // ----- positions -----

  lemma {:induction false} EncodeEntriesAt(entries: seq<Entry>, i: nat)
    requires i < |entries|
    ensures EncodeEntries(entries)[i] == EncodeEntry(entries[i])
  {
    if i > 0 {
      EncodeEntriesAt(entries[1..], i - 1);
    }
  }

  lemma {:induction false} CanonItemsAt(items: seq<Value>, i: nat)
    requires i < |items|
    ensures CanonItems(items)[i] == Canon(items[i])
  {
    if i > 0 {
      CanonItemsAt(items[1..], i - 1);
    }
  }

  lemma {:induction false} CanonEntriesAt(entries: seq<Entry>, i: nat)
    requires i < |entries|
    ensures CanonEntries(entries)[i] == CanonEntry(entries[i])
  {
    if i > 0 {
      CanonEntriesAt(entries[1..], i - 1);
    }
  }

  /** Each sorted canonical entry comes from some entry of the map. */
  lemma {:induction false} SortedEntryOrigin(entries: seq<Entry>, i: nat) returns (j: nat)
    requires i < |Sort(CanonEntries(entries))|
    ensures j < |entries|
    ensures Sort(CanonEntries(entries))[i] == CanonEntry(entries[j])
  {
    var s := CanonEntries(entries);
    SortContents(s);
    assert Sort(s)[i] in multiset(s);
    j :| 0 <= j < |s| && s[j] == Sort(s)[i];
    CanonEntriesAt(entries, j);
  }

  // ----- canonical form and bytes -----

  /** Canonicalizing does not change the bytes. */
  lemma {:induction false} EncodeCanon(v: Value)
    ensures Encode(Canon(v)) == Encode(v)
    decreases v, 1
  {
    match v
    case Array(items) => EncodeCanonItems(items);
    case Map(entries) => EncodeCanonMap(entries);
    case Tag(_, inner) => EncodeCanon(inner);
    case Float(bits) => CanonicalNaN();
    case _ =>
  }

  lemma CanonicalNaN()
    ensures IsNaN64(CANONICAL_NAN)
  {
    assert Split64(CANONICAL_NAN) == Fields(false, 2047, 0x8_0000_0000_0000);
  }

  lemma {:induction false} EncodeCanonItems(items: seq<Value>)
    ensures EncodeItems(CanonItems(items)) == EncodeItems(items)
    decreases items, 0
  {
    if items != [] {
      EncodeCanon(items[0]);
      EncodeCanonItems(items[1..]);
      assert CanonItems(items)[1..] == CanonItems(items[1..]);
    }
  }

  function EncodedVal(e: Entry): bytes {
    Encode(e.val)
  }

  lemma {:induction false} EncodeCanonEntries(entries: seq<Entry>)
    ensures MapVals(EncodedVal, CanonEntries(entries)) == EncodeEntries(entries)
    ensures forall i :: 0 <= i < |entries| ==>
              CanonEntries(entries)[i].key == Encode(CanonEntries(entries)[i].val.key)
    decreases entries, 0
  {
    hide Encode, Canon;
    if entries != [] {
      EncodeCanonEntry(entries[0]);
      EncodeCanonEntries(entries[1..]);
      assert forall i :: 0 < i < |entries| ==> CanonEntries(entries)[i] == CanonEntries(entries[1..])[i - 1];
    }
  }

  lemma {:induction false} EncodeCanonEntry(e: Entry)
    ensures Encode(Canon(e.key)) == Encode(e.key)
    ensures Encode(Canon(e.val)) == Encode(e.val)
    decreases e, 0
  {
    EncodeCanon(e.key);
    EncodeCanon(e.val);
  }

  /** Re-encoding the values of a keyed sequence whose keys are their encoded keys. */
  lemma {:induction false} EncodeVals(s: seq<Keyed<Entry>>)
    requires forall i :: 0 <= i < |s| ==> s[i].key == Encode(s[i].val.key)
    ensures EncodeEntries(Vals(s)) == MapVals(EncodedVal, s)
  {
    forall i | 0 <= i < |s| ensures EncodeEntries(Vals(s))[i] == MapVals(EncodedVal, s)[i] {
      EncodeEntriesAt(Vals(s), i);
    }
  }

  lemma {:induction false} CanonMapEntries(entries: seq<Entry>)
    requires MapVals(EncodedVal, CanonEntries(entries)) == EncodeEntries(entries)
    requires forall i :: 0 <= i < |entries| ==>
               CanonEntries(entries)[i].key == Encode(CanonEntries(entries)[i].val.key)
    ensures EncodeEntries(Vals(Sort(CanonEntries(entries)))) == Sort(EncodeEntries(entries))
  {
    var s := CanonEntries(entries);
    SortContents(s);
    forall i | 0 <= i < |s| ensures Sort(s)[i].key == Encode(Sort(s)[i].val.key) {
      assert Sort(s)[i] in multiset(s);
    }
    EncodeVals(Sort(s));
    SortMapVals(EncodedVal, s);
  }

  lemma {:induction false} EncodeCanonMap(entries: seq<Entry>)
    ensures Encode(Canon(Map(entries))) == Encode(Map(entries))
    decreases entries, 1
  {
    EncodeCanonEntries(entries);
    CanonMapEntries(entries);
    SortSorted(EncodeEntries(entries));
    SortOfSorted(Sort(EncodeEntries(entries)));
    SortContents(CanonEntries(entries));
  }

  lemma {:induction false} CanonIsCanonical(v: Value)
    ensures IsCanonical(Canon(v))
  {
    match v
    case Array(items) =>
      forall i | 0 <= i < |items| ensures IsCanonical(CanonItems(items)[i]) {
        CanonItemsAt(items, i);
        CanonIsCanonical(items[i]);
      }
    case Map(entries) =>
      EncodeCanonEntries(entries);
      CanonMapEntries(entries);
      SortSorted(EncodeEntries(entries));
      var s := Sort(CanonEntries(entries));
      forall i | 0 <= i < |s| ensures IsCanonical(s[i].val.key) && IsCanonical(s[i].val.val) {
        var j := SortedEntryOrigin(entries, i);
        CanonIsCanonical(entries[j].key);
        CanonIsCanonical(entries[j].val);
      }
    case Tag(_, inner) => CanonIsCanonical(inner);
    case _ =>
  }

  lemma {:induction false} CanonEncodable(v: Value)
    requires Encodable(v)
    ensures Encodable(Canon(v))
  {
    match v
    case Array(items) =>
      forall i | 0 <= i < |items| ensures Encodable(CanonItems(items)[i]) {
        CanonItemsAt(items, i);
        CanonEncodable(items[i]);
      }
    case Map(entries) =>
      SortContents(CanonEntries(entries));
      var s := Sort(CanonEntries(entries));
      forall i | 0 <= i < |s| ensures Encodable(s[i].val.key) && Encodable(s[i].val.val) {
        var j := SortedEntryOrigin(entries, i);
        CanonEncodable(entries[j].key);
        CanonEncodable(entries[j].val);
      }
    case Tag(_, inner) => CanonEncodable(inner);
    case _ =>
  }

  /** A canonical value is its own canonical form. */
  lemma {:induction false} CanonOfCanonical(v: Value)
    requires IsCanonical(v)
    ensures Canon(v) == v
  {
    match v
    case Array(items) =>
      forall i | 0 <= i < |items| ensures CanonItems(items)[i] == items[i] {
        CanonItemsAt(items, i);
        CanonOfCanonical(items[i]);
      }
      assert CanonItems(items) == items;
    case Map(entries) =>
      var s := CanonEntries(entries);
      forall i | 0 <= i < |entries|
        ensures s[i].val == entries[i] && s[i].key == EncodeEntries(entries)[i].key
      {
        CanonEntriesAt(entries, i);
        EncodeEntriesAt(entries, i);
        CanonOfCanonical(entries[i].key);
        CanonOfCanonical(entries[i].val);
      }
      assert Sorted(s);
      SortOfSorted(s);
      assert Vals(s) == entries;
    case Tag(_, inner) => CanonOfCanonical(inner);
    case _ =>
  }
}
