/** What the canonical encoding promises: it decodes to the canonical value, no encoding
    is a prefix of another, and strict decoding accepts exactly the encoder's outputs. */
module CborTheorems {
  import opened Numbers
  import opened KeySort
  import opened Ieee754
  import opened Cbor
  import opened CborDecode
  import Utf8

  // ----- heads -----

  lemma {:induction false} TakeBigEndianInverse(n: nat, w: nat, suffix: bytes)
    requires w <= 8 && n < Pow256(w)
    ensures TakeBigEndian(w, ToBigEndian(n, w) + suffix) == Parsed(n, suffix)
  {
    var s := ToBigEndian(n, w) + suffix;
    FromToBigEndian(n, w);
    assert s[..w] == ToBigEndian(n, w) && s[w..] == suffix;
  }

  /** The initial byte of a head and the argument behind it. */
  lemma {:induction false} HeadInverse(major: nat, n: nat, suffix: bytes)
    requires major < 8 && n < TWO64
    ensures Head(major, n) != []
    ensures Head(major, n)[0] / 32 == major && Head(major, n)[0] % 32 < 28
    ensures DecodeArgument(Head(major, n)[0] % 32, (Head(major, n) + suffix)[1..]) == Parsed(n, suffix)
  {
    var w := if n < 24 then 0 else if n < 0x100 then 1 else if n < 0x1_0000 then 2
             else if n < 0x1_0000_0000 then 4 else 8;
    Pow256Values(w);
    if w == 0 {
      assert (Head(major, n) + suffix)[1..] == suffix;
    } else {
      assert (Head(major, n) + suffix)[1..] == ToBigEndian(n, w) + suffix;
      TakeBigEndianInverse(n, w, suffix);
    }
  }

  /** No head that a reader takes for the same argument is shorter. */
  lemma {:induction false} HeadIsShortest(major: nat, n: u64, info: nat, tail: bytes, rest: bytes)
    requires major < 8 && info < 32 && DecodeArgument(info, tail) == Parsed(n, rest)
    ensures |Head(major, n)| <= 1 + |tail| - |rest|
  {
    Pow256Values(8);
    hide ToBigEndian, FromBigEndian;
  }

  lemma {:induction false} DecodeStep(major: nat, n: u64, body: bytes)
    requires major < 7
    ensures Decode(Head(major, n) + body) == DecodeBody(major, n, body)
  {
    HeadInverse(major, n, body);
    assert (Head(major, n) + body)[0] == Head(major, n)[0];
  }

  lemma {:induction false} ItemsStep(n: nat, s: bytes, v: Value, mid: bytes, vs: seq<Value>, rest: bytes)
    requires n > 0 && Decode(s) == Parsed(v, mid) && DecodeItems(n - 1, mid) == Parsed(vs, rest)
    ensures DecodeItems(n, s) == Parsed([v] + vs, rest)
  {
  }

  // ----- floats -----

  /** The bytes of a float decode to the same binary64 pattern, or to the one NaN. */
  lemma {:induction false} FloatRoundTrip(bits: u64, suffix: bytes)
    ensures Decode(EncodeFloat(bits) + suffix)
         == Parsed(Float(if IsNaN64(bits) then CANONICAL_NAN else bits), suffix)
  {
    if IsNaN64(bits) {
      HalfNaN();
      DecodeHalf(0x7e00, suffix);
    } else if NumericEq(F16BitsToF64(F64ToF16Bits(bits)), Binary64(bits)) {
      var h := F64ToF16Bits(bits);
      BackConversionIsBinary16(h);
      WidenHalfInverse(bits, h);
      DecodeHalf(h, suffix);
    } else if NumericEq(Binary32(F64ToF32Bits(bits)), Binary64(bits)) {
      var h := F64ToF32Bits(bits);
      WidenSingleInverse(bits, h);
      DecodeSingle(h, suffix);
    } else {
      DecodeDouble(bits, suffix);
    }
  }

  lemma {:induction false} SimpleStep(info: nat, body: bytes)
    requires info < 31
    ensures Decode([0xe0 + info] + body) == DecodeSimple(info, body)
  {
    hide DecodeSimple, DecodeBody, DecodeIndefinite;
    assert ([0xe0 + info] + body)[1..] == body;
  }

  lemma {:induction false} DecodeHalf(h: u16, suffix: bytes)
    ensures Decode([0xf9] + ToBigEndian(h, 2) + suffix) == Parsed(Float(WidenHalf(h)), suffix)
  {
    hide Decode, WidenHalf, ToBigEndian, TakeBigEndian;
    SimpleStep(25, ToBigEndian(h, 2) + suffix);
    assert [0xf9] + ToBigEndian(h, 2) + suffix == [0xf9] + (ToBigEndian(h, 2) + suffix);
    TakeBigEndianInverse(h, 2, suffix);
  }

  lemma {:induction false} DecodeSingle(h: u32, suffix: bytes)
    ensures Decode([0xfa] + ToBigEndian(h, 4) + suffix) == Parsed(Float(WidenSingle(h)), suffix)
  {
    hide Decode, WidenSingle, ToBigEndian, TakeBigEndian;
    SimpleStep(26, ToBigEndian(h, 4) + suffix);
    assert [0xfa] + ToBigEndian(h, 4) + suffix == [0xfa] + (ToBigEndian(h, 4) + suffix);
    TakeBigEndianInverse(h, 4, suffix);
  }

  lemma {:induction false} DecodeDouble(bits: u64, suffix: bytes)
    ensures Decode([0xfb] + ToBigEndian(bits, 8) + suffix) == Parsed(Float(bits), suffix)
  {
    hide Decode, ToBigEndian, TakeBigEndian;
    SimpleStep(27, ToBigEndian(bits, 8) + suffix);
    assert [0xfb] + ToBigEndian(bits, 8) + suffix == [0xfb] + (ToBigEndian(bits, 8) + suffix);
    TakeBigEndianInverse(bits, 8, suffix);
  }

  lemma {:induction false} HalfNaN()
    ensures WidenHalf(0x7e00) == CANONICAL_NAN
  {
    Pow2ValuesWide();
    assert Split16(0x7e00) == Fields(false, 31, 0x200);
    assert Split64(WidenHalf(0x7e00)) == Fields(false, 2047, 0x8_0000_0000_0000);
    Join64Split64(WidenHalf(0x7e00));
  }

  /** The encoder picks the narrowest of the three widths that holds the number exactly. */
  lemma {:induction false} NarrowestFloat(bits: u64)
    requires !IsNaN64(bits)
    ensures |EncodeFloat(bits)| == 3 <==> exists h: u16 :: NumericEq(Binary16(h), Binary64(bits))
    ensures |EncodeFloat(bits)| <= 5
       <==> (exists h: u16 :: NumericEq(Binary16(h), Binary64(bits)))
            || (exists h: u32 :: NumericEq(Binary32(h), Binary64(bits)))
    ensures |EncodeFloat(bits)| in {3, 5, 9}
  {
    HalfTestExact(bits);
    SingleTestExact(bits);
  }

  /** Every NaN is written as the same three bytes. */
  lemma {:induction false} NaNBytes(bits: u64)
    requires IsNaN64(bits)
    ensures EncodeFloat(bits) == [0xf9, 0x7e, 0x00]
  {
    hide IsNaN64;
    assert ToBigEndian(0x7e, 1) == ToBigEndian(0, 0) + [0x7e];
  }

  // ----- decoding a canonical value -----

  /** Keys and values of a map in one row. */
  function Alternate(entries: seq<Entry>): (r: seq<Value>)
    ensures |r| == 2 * |entries|
  {
    if entries == [] then [] else [entries[0].key, entries[0].val] + Alternate(entries[1..])
  }

  lemma {:induction false} PairUpAlternate(entries: seq<Entry>)
    ensures PairUp(Alternate(entries)) == entries
  {
    if entries != [] {
      PairUpAlternate(entries[1..]);
      var a, b := PairUp(Alternate(entries)), PairUp(Alternate(entries[1..]));
      forall i | 0 < i < |a| ensures a[i] == entries[i] {
        assert a[i] == b[i - 1];
      }
    }
  }

  lemma {:induction false} DecodeString(major: nat, data: bytes, suffix: bytes)
    requires major == 2 || (major == 3 && Utf8.Valid(data))
    requires |data| < TWO64
    ensures Decode(Head(major, |data|) + data + suffix) == StringItem(major, data, suffix)
  {
    DecodeStep(major, |data|, data + suffix);
    assert Head(major, |data|) + data + suffix == Head(major, |data|) + (data + suffix);
    assert (data + suffix)[..|data|] == data && (data + suffix)[|data|..] == suffix;
  }

  lemma {:induction false} DecodeSimpleValue(v: Value, suffix: bytes)
    requires v.Null? || v.Bool?
    ensures Decode(Encode(v) + suffix) == Parsed(v, suffix)
  {
    assert (Encode(v) + suffix)[1..] == suffix;
  }

  lemma {:induction false} DecodeCanonicalValue(v: Value, suffix: bytes)
    requires Encodable(v) && IsCanonical(v)
    ensures Decode(Encode(v) + suffix) == Parsed(v, suffix)
    decreases v, 1
  {
    hide Decode, DecodeItems, EncodeItems, EncodeEntries, EncodeFloat, Head, Sort, Flatten;
    var s := Encode(v) + suffix;
    match v
    case Null => DecodeSimpleValue(v, suffix);
    case Bool(_) => DecodeSimpleValue(v, suffix);
    case Integer(n) => DecodeStep(if n >= 0 then 0 else 1, if n >= 0 then n else -1 - n, suffix);
    case Bytes(data) => DecodeString(2, data, suffix);
    case Text(utf8) => DecodeString(3, utf8, suffix);
    case Array(items) =>
      DecodeStep(4, |items|, EncodeItems(items) + suffix);
      assert s == Head(4, |items|) + (EncodeItems(items) + suffix);
      DecodeCanonicalItems(items, suffix);
    case Map(entries) =>
      DecodeCanonicalMap(entries, suffix);
    case Tag(tag, inner) =>
      DecodeStep(6, tag, Encode(inner) + suffix);
      assert s == Head(6, tag) + (Encode(inner) + suffix);
      DecodeCanonicalValue(inner, suffix);
    case Float(bits) => FloatRoundTrip(bits, suffix);
  }

  lemma {:induction false} DecodeCanonicalItems(items: seq<Value>, suffix: bytes)
    requires forall i :: 0 <= i < |items| ==> Encodable(items[i]) && IsCanonical(items[i])
    ensures DecodeItems(|items|, EncodeItems(items) + suffix) == Parsed(items, suffix)
    decreases items, 0
  {
    hide Decode, Encode, DecodeItems, EncodeItems, Encodable, IsCanonical;
    if items == [] {
      DecodeNoItems(suffix);
    } else {
      var more := EncodeItems(items[1..]) + suffix;
      DecodeCanonicalValue(items[0], more);
      DecodeCanonicalItems(items[1..], suffix);
      EncodeItemsStep(items, suffix);
      ItemsStep(|items|, Encode(items[0]) + more, items[0], more, items[1..], suffix);
      assert items == [items[0]] + items[1..];
    }
  }

  lemma {:induction false} DecodeNoItems(suffix: bytes)
    ensures DecodeItems(0, EncodeItems([]) + suffix) == Parsed([], suffix)
  {
    assert EncodeItems([]) + suffix == suffix;
  }

  lemma {:induction false} EncodeItemsStep(items: seq<Value>, suffix: bytes)
    requires items != []
    ensures EncodeItems(items) + suffix == Encode(items[0]) + (EncodeItems(items[1..]) + suffix)
  {
    hide Encode;
  }

  lemma {:induction false} DecodeCanonicalEntry(e: Entry, suffix: bytes)
    requires Encodable(e.key) && IsCanonical(e.key) && Encodable(e.val) && IsCanonical(e.val)
    ensures Decode(EncodeEntry(e).key + EncodeEntry(e).val + suffix)
         == Parsed(e.key, EncodeEntry(e).val + suffix)
    ensures Decode(EncodeEntry(e).val + suffix) == Parsed(e.val, suffix)
    decreases e, 0
  {
    hide Decode, Encode, Encodable, IsCanonical;
    DecodeCanonicalValue(e.key, EncodeEntry(e).val + suffix);
    DecodeCanonicalValue(e.val, suffix);
    assert EncodeEntry(e).key + EncodeEntry(e).val + suffix == EncodeEntry(e).key + (EncodeEntry(e).val + suffix);
  }

  lemma {:induction false} DecodeCanonicalEntries(entries: seq<Entry>, suffix: bytes)
    requires forall i :: 0 <= i < |entries| ==>
               && Encodable(entries[i].key) && IsCanonical(entries[i].key)
               && Encodable(entries[i].val) && IsCanonical(entries[i].val)
    ensures DecodeItems(2 * |entries|, Flatten(EncodeEntries(entries)) + suffix)
         == Parsed(Alternate(entries), suffix)
    decreases entries, 0
  {
    hide Decode, Encode, Encodable, IsCanonical;
    if entries != [] {
      var e := EncodeEntry(entries[0]);
      var more := Flatten(EncodeEntries(entries[1..])) + suffix;
      DecodeCanonicalEntry(entries[0], more);
      DecodeCanonicalEntries(entries[1..], suffix);
      FlattenStep(entries, suffix);
      EntryStep(2 * |entries|, e, more, entries[0], Alternate(entries[1..]), suffix);
    }
  }

  lemma {:induction false} FlattenStep(entries: seq<Entry>, suffix: bytes)
    requires entries != []
    ensures Flatten(EncodeEntries(entries)) + suffix
         == EncodeEntry(entries[0]).key + EncodeEntry(entries[0]).val
            + (Flatten(EncodeEntries(entries[1..])) + suffix)
  {
    hide EncodeEntry;
    assert EncodeEntries(entries)[1..] == EncodeEntries(entries[1..]);
  }

  lemma {:induction false} EntryStep(n: nat, k: Keyed<bytes>, more: bytes, e: Entry, vs: seq<Value>, rest: bytes)
    requires n >= 2
    requires Decode(k.key + k.val + more) == Parsed(e.key, k.val + more)
    requires Decode(k.val + more) == Parsed(e.val, more)
    requires DecodeItems(n - 2, more) == Parsed(vs, rest)
    ensures DecodeItems(n, k.key + k.val + more) == Parsed([e.key, e.val] + vs, rest)
  {
    hide Decode, DecodeItems;
    ItemsStep(n - 1, k.val + more, e.val, more, vs, rest);
    ItemsStep(n, k.key + k.val + more, e.key, k.val + more, [e.val] + vs, rest);
    assert [e.key] + ([e.val] + vs) == [e.key, e.val] + vs;
  }

  lemma {:induction false} DecodeCanonicalMap(entries: seq<Entry>, suffix: bytes)
    requires Encodable(Map(entries)) && IsCanonical(Map(entries))
    ensures Decode(Encode(Map(entries)) + suffix) == Parsed(Map(entries), suffix)
    decreases entries, 2
  {
    SortOfSorted(EncodeEntries(entries));
    UnsortedMapDecodes(entries, suffix);
  }

  /** A map's entries decode in the order they stand on the wire, sorted or not. */
  lemma {:induction false} UnsortedMapDecodes(entries: seq<Entry>, suffix: bytes)
    requires |entries| < TWO64
    requires forall i :: 0 <= i < |entries| ==>
               && Encodable(entries[i].key) && IsCanonical(entries[i].key)
               && Encodable(entries[i].val) && IsCanonical(entries[i].val)
    ensures Decode(Head(5, |entries|) + Flatten(EncodeEntries(entries)) + suffix)
         == Parsed(Map(entries), suffix)
    decreases entries, 1
  {
    var body := Flatten(EncodeEntries(entries)) + suffix;
    DecodeStep(5, |entries|, body);
    assert Head(5, |entries|) + Flatten(EncodeEntries(entries)) + suffix == Head(5, |entries|) + body;
    DecodeCanonicalEntries(entries, suffix);
    PairUpAlternate(entries);
  }

  // ----- main results -----

  /** Encoding then decoding gives the canonical form and leaves every later byte alone. */
  lemma {:induction false} RoundTrip(v: Value, suffix: bytes)
    requires Encodable(v)
    ensures Decode(Encode(v) + suffix) == Parsed(Canon(v), suffix)
  {
    EncodeCanon(v);
    CanonIsCanonical(v);
    CanonEncodable(v);
    DecodeCanonicalValue(Canon(v), suffix);
  }

  /** No encoding is a proper prefix of another, and bytes identify values up to map order. */
  lemma {:induction false} PrefixFree(a: Value, b: Value, suffix: bytes)
    requires Encodable(a) && Encodable(b)
    requires Encode(b) == Encode(a) + suffix
    ensures suffix == [] && Canon(a) == Canon(b)
  {
    RoundTrip(a, suffix);
    RoundTrip(b, []);
    assert Encode(b) + [] == Encode(b);
  }

  lemma {:induction false} SameBytesIffSameCanon(a: Value, b: Value)
    requires Encodable(a) && Encodable(b)
    ensures Encode(a) == Encode(b) <==> Canon(a) == Canon(b)
  {
    EncodeCanon(a);
    EncodeCanon(b);
    if Encode(a) == Encode(b) {
      assert Encode(b) == Encode(a) + [];
      PrefixFree(a, b, []);
    }
  }

  /** Strict decoding accepts exactly the encoder's outputs, and returns the canonical value. */
  lemma {:induction false} AcceptsExactlyTheImage(s: bytes)
    ensures CanonicalDecode(s).Ok? <==> exists v :: Encodable(v) && Encode(v) == s
    ensures forall v :: Encodable(v) && Encode(v) == s ==> CanonicalDecode(s) == Ok(Canon(v))
  {
    hide Decode, Encode, Canon, Encodable;
    forall v | Encodable(v) && Encode(v) == s ensures CanonicalDecode(s) == Ok(Canon(v)) {
      RoundTrip(v, []);
      assert s + [] == s;
      EncodeCanon(v);
      CanonEncodable(v);
    }
    if CanonicalDecode(s).Ok? {
      var v := Decode(s).value;
      assert Encodable(v) && Encode(v) == s;
    }
  }

  /** Whatever strict decoding returns is canonical and encodes to the input: one accepted
      encoding per value. */
  lemma {:induction false} DecodedIsCanonical(s: bytes)
    requires CanonicalDecode(s).Ok?
    ensures Encode(CanonicalDecode(s).value) == s && IsCanonical(CanonicalDecode(s).value)
  {
    var v := CanonicalDecode(s).value;
    AcceptsExactlyTheImage(s);
    CanonIsCanonical(v);
  }

  /** Bytes that hold no item at their start are rejected as no CBOR, and nothing else is. */
  lemma {:induction false} NotCborIff(s: bytes)
    ensures CanonicalDecode(s) == Err(NotCbor) <==> Decode(s) == Malformed
  {
    hide Decode, Encode, Encodable;
  }

  lemma {:induction false} TrailingBytesRejected(v: Value, suffix: bytes)
    requires Encodable(v) && suffix != []
    ensures CanonicalDecode(Encode(v) + suffix) == Err(NotCanonical)
  {
    RoundTrip(v, suffix);
    EncodeCanon(v);
    CanonEncodable(v);
    assert |Encode(v) + suffix| > |Encode(v)|;
  }

  /** The additional information that announces a `w`-byte argument. */
  function WidthInfo(w: nat): byte {
    if w == 1 then 24 else if w == 2 then 25 else if w == 4 then 26 else 27
  }

  /** A head with a `w`-byte argument, needed or not. */
  function WideHead(major: nat, n: nat, w: nat): bytes
    requires major < 8 && n < Pow256(w)
  {
    [32 * major + WidthInfo(w)] + ToBigEndian(n, w)
  }

  /** An item of any major type below 7 (integer, string, array, map or tag) behind a head wider
      than needed is readable, as the same value, but not canonical. */
  lemma {:induction false} WideHeadRejected(v: Value, major: nat, n: u64, body: bytes, w: nat)
    requires Encodable(v) && major < 7 && Encode(v) == Head(major, n) + body
    requires w in {1, 2, 4, 8} && n < Pow256(w) && 1 + w > |Head(major, n)|
    ensures CanonicalDecode(WideHead(major, n, w) + body) == Err(NotCanonical)
  {
    hide Decode, DecodeBody, ToBigEndian, Head, Encode, Canon, Encodable;
    WideHeadDecodes(major, n, w, body);
    DecodeStep(major, n, body);
    RoundTrip(v, []);
    assert Encode(v) + [] == Encode(v);
    EncodeCanon(v);
    CanonEncodable(v);
  }

  lemma {:induction false} WideHeadDecodes(major: nat, n: u64, w: nat, body: bytes)
    requires major < 7 && w in {1, 2, 4, 8} && n < Pow256(w)
    ensures Decode(WideHead(major, n, w) + body) == DecodeBody(major, n, body)
  {
    hide ToBigEndian, TakeBigEndian, DecodeSimple, DecodeIndefinite, DecodeBody;
    TakeBigEndianInverse(n, w, body);
    assert (WideHead(major, n, w) + body)[1..] == ToBigEndian(n, w) + body;
  }

  /** A float in a wider form than needed, or a NaN in any but the one form, is readable but not
      canonical. */
  lemma {:induction false} WideFloatRejected(bits: u64, h: u32)
    ensures |EncodeFloat(bits)| < 9 ==> CanonicalDecode([0xfb] + ToBigEndian(bits, 8)) == Err(NotCanonical)
    ensures |EncodeFloat(WidenSingle(h))| != 5 ==> CanonicalDecode([0xfa] + ToBigEndian(h, 4)) == Err(NotCanonical)
  {
    hide Decode, ToBigEndian, EncodeFloat, WidenSingle;
    DecodeDouble(bits, []);
    DecodeSingle(h, []);
    assert [0xfb] + ToBigEndian(bits, 8) + [] == [0xfb] + ToBigEndian(bits, 8);
    assert [0xfa] + ToBigEndian(h, 4) + [] == [0xfa] + ToBigEndian(h, 4);
  }

  /** A map whose canonical entries stand out of order is readable but not canonical. */
  lemma {:induction false} UnsortedMapRejected(entries: seq<Entry>)
    requires |entries| < TWO64 && !Sorted(EncodeEntries(entries))
    requires forall i :: 0 <= i < |entries| ==>
               && Encodable(entries[i].key) && IsCanonical(entries[i].key)
               && Encodable(entries[i].val) && IsCanonical(entries[i].val)
    ensures CanonicalDecode(Head(5, |entries|) + Flatten(EncodeEntries(entries))) == Err(NotCanonical)
  {
    var s := Head(5, |entries|) + Flatten(EncodeEntries(entries));
    UnsortedMapDecodes(entries, []);
    assert s + [] == s;
    assert Decode(s) == Parsed(Map(entries), []);
    if Encode(Map(entries)) == s {
      AcceptsExactlyTheImage(s);
      DecodedIsCanonical(s);
      assert false;
    }
  }
}
