/** The encoder as it runs: methods that push bytes onto a growing output buffer. */
module CborWriter {
  import opened Numbers
  import opened KeySort
  import opened Ieee754
  import opened Cbor

  const MAJOR_UINT: byte := 0x00
  const MAJOR_NEGINT: byte := 0x20
  const MAJOR_BYTES: byte := 0x40
  const MAJOR_TEXT: byte := 0x60
  const MAJOR_ARRAY: byte := 0x80
  const MAJOR_MAP: byte := 0xa0
  const MAJOR_TAG: byte := 0xc0
  const MAJOR_SIMPLE: byte := 0xe0

  class Output {
    var data: bytes

    constructor ()
      ensures data == []
    {
      data := [];
    }

    method Push(b: byte)
      modifies this
      ensures data == old(data) + [b]
    {
      data := data + [b];
    }

    method Extend(s: bytes)
      modifies this
      ensures data == old(data) + s
    {
      data := data + s;
    }
  }

  /** The initial byte and the shortest argument, for a major type already shifted into place. */
  method EncodeU64(major: byte, value: u64, output: Output)
    requires major % 32 == 0
    modifies output
    ensures output.data == old(output.data) + Head(major / 32, value)
  {
    hide ToBigEndian;
    if value < 24 {
      output.Push(major + value);
    } else if value <= 0xff {
      output.Push(major + 24);
      output.Extend(ToBigEndian(value, 1));
    } else if value <= 0xffff {
      output.Push(major + 25);
      output.Extend(ToBigEndian(value, 2));
    } else if value <= 0xffff_ffff {
      output.Push(major + 26);
      output.Extend(ToBigEndian(value, 4));
    } else {
      output.Push(major + 27);
      output.Extend(ToBigEndian(value, 8));
    }
  }

  method EncodeLength(major: byte, length: nat, output: Output) returns (r: Result<()>)
    requires major % 32 == 0
    modifies output
    ensures r == if length < TWO64 then Ok(()) else Err(OutOfRange)
    ensures output.data == old(output.data) + if r.Ok? then Head(major / 32, length) else []
  {
    if length >= TWO64 {
      return Err(OutOfRange);
    }
    EncodeU64(major, length, output);
    r := Ok(());
  }

  method EncodeInteger(value: int, output: Output) returns (r: Result<()>)
    modifies output
    ensures r == if Encodable(Integer(value)) then Ok(()) else Err(OutOfRange)
    ensures output.data == old(output.data) + if r.Ok? then Encode(Integer(value)) else []
  {
    if value >= 0 {
      r := EncodeLength(MAJOR_UINT, value, output);
    } else {
      r := EncodeLength(MAJOR_NEGINT, -1 - value, output);
    }
  }

  method EncodeFloatInto(bits: u64, output: Output)
    modifies output
    ensures output.data == old(output.data) + EncodeFloat(bits)
  {
    hide F64ToF16Bits, F64ToF32Bits, F16BitsToF64, Binary32, Binary64, IsNaN64, ToBigEndian;
    if IsNaN64(bits) {
      output.Push(MAJOR_SIMPLE + 25);
      output.Extend(ToBigEndian(0x7e00, 2));
      return;
    }
    var halfBits := F64ToF16Bits(bits);
    if NumericEq(F16BitsToF64(halfBits), Binary64(bits)) {
      output.Push(MAJOR_SIMPLE + 25);
      output.Extend(ToBigEndian(halfBits, 2));
      return;
    }
    var single := F64ToF32Bits(bits);
    if NumericEq(Binary32(single), Binary64(bits)) {
      output.Push(MAJOR_SIMPLE + 26);
      output.Extend(ToBigEndian(single, 4));
      return;
    }
    output.Push(MAJOR_SIMPLE + 27);
    output.Extend(ToBigEndian(bits, 8));
  }

  lemma {:induction false} EncodeItemsSnoc(items: seq<Value>, x: Value)
    ensures EncodeItems(items + [x]) == EncodeItems(items) + Encode(x)
  {
    hide Encode;
    if items == [] {
      assert [x][1..] == [];
      assert items + [x] == [x];
    } else {
      EncodeItemsSnoc(items[1..], x);
      assert (items + [x])[1..] == items[1..] + [x];
    }
  }

  lemma {:induction false} EncodeEntriesSnoc(entries: seq<Entry>, e: Entry)
    ensures EncodeEntries(entries + [e]) == EncodeEntries(entries) + [EncodeEntry(e)]
  {
    if entries == [] {
      assert entries + [e] == [e];
    } else {
      EncodeEntriesSnoc(entries[1..], e);
      assert (entries + [e])[1..] == entries[1..] + [e];
    }
  }

  lemma {:induction false} FlattenSnoc(s: seq<Keyed<bytes>>, x: Keyed<bytes>)
    ensures Flatten(s + [x]) == Flatten(s) + x.key + x.val
  {
    if s == [] {
      assert s + [x] == [x];
    } else {
      FlattenSnoc(s[1..], x);
      assert (s + [x])[1..] == s[1..] + [x];
    }
  }

  method EncodeString(major: byte, data: bytes, output: Output) returns (r: Result<()>)
    requires major % 32 == 0
    modifies output
    ensures r == if |data| < TWO64 then Ok(()) else Err(OutOfRange)
    ensures output.data == old(output.data) + if r.Ok? then Head(major / 32, |data|) + data else []
  {
    hide Head;
    r := EncodeLength(major, |data|, output);
    if r.Ok? {
      output.Extend(data);
    }
  }

  /** Appends the canonical encoding of `v`, or fails on an integer or length beyond 64 bits.
      A failure leaves what was written so far in the buffer. */
  method EncodeValue(v: Value, output: Output) returns (r: Result<()>)
    modifies output
    ensures r == if Encodable(v) then Ok(()) else Err(OutOfRange)
    ensures r.Ok? ==> output.data == old(output.data) + Encode(v)
    ensures old(output.data) <= output.data
    decreases v, 2
  {
    hide EncodeItems, EncodeEntries, EncodeFloat, Flatten, Head, Sort;
    r := Ok(());
    match v
    case Null => output.Push(MAJOR_SIMPLE + 22);
    case Bool(b) => output.Push(if b then MAJOR_SIMPLE + 21 else MAJOR_SIMPLE + 20);
    case Integer(n) =>
      r := EncodeInteger(n, output);
      return;
    case Bytes(data) =>
      r := EncodeString(MAJOR_BYTES, data, output);
    case Text(utf8) =>
      r := EncodeString(MAJOR_TEXT, utf8, output);
    case Array(items) =>
      r := EncodeArray(v, output);
      return;
    case Map(entries) =>
      r := EncodeMap(v, output);
      return;
    case Tag(tag, inner) =>
      EncodeU64(MAJOR_TAG, tag, output);
      r := EncodeValue(inner, output);
      return;
    case Float(bits) => EncodeFloatInto(bits, output);
  }

  method EncodeArray(v: Value, output: Output) returns (r: Result<()>)
    requires v.Array?
    modifies output
    ensures r == if Encodable(v) then Ok(()) else Err(OutOfRange)
    ensures r.Ok? ==> output.data == old(output.data) + Encode(v)
    ensures old(output.data) <= output.data
    decreases v, 1
  {
    hide EncodeItems, Head;
    r := EncodeLength(MAJOR_ARRAY, |v.items|, output);
    if r.Err? { return; }
    r := EncodeEachItem(v, output);
  }

  method EncodeEachItem(v: Value, output: Output) returns (r: Result<()>)
    requires v.Array?
    modifies output
    ensures r == if forall j :: 0 <= j < |v.items| ==> Encodable(v.items[j]) then Ok(()) else Err(OutOfRange)
    ensures r.Ok? ==> output.data == old(output.data) + EncodeItems(v.items)
    ensures old(output.data) <= output.data
    decreases v, 0
  {
    hide Encode, EncodeItems;
    var items := v.items;
    var i := 0;
    EncodeNoItems(items);
    while i < |items|
      invariant 0 <= i <= |items|
      invariant forall j :: 0 <= j < i ==> Encodable(items[j])
      invariant output.data == old(output.data) + EncodeItems(items[..i])
    {
      ghost var before := output.data;
      r := EncodeValue(items[i], output);
      if r.Err? {
        assert old(output.data) <= before;
        return;
      }
      EncodeItemsSnoc(items[..i], items[i]);
      assert items[..i + 1] == items[..i] + [items[i]];
      i := i + 1;
    }
    assert items[..i] == items;
    r := Ok(());
  }

  lemma {:induction false} EncodeNoItems(items: seq<Value>)
    ensures EncodeItems(items[..0]) == []
  {
  }

  method EncodeMap(v: Value, output: Output) returns (r: Result<()>)
    requires v.Map?
    modifies output
    ensures r == if Encodable(v) then Ok(()) else Err(OutOfRange)
    ensures r.Ok? ==> output.data == old(output.data) + Encode(v)
    ensures old(output.data) <= output.data
    decreases v, 1
  {
    hide EncodeEntries, Flatten, Head, Sort;
    var encoded := EncodeEachEntry(v);
    if encoded.Err? {
      return Err(OutOfRange);
    }
    var sorted := Sort(encoded.value);
    SortContents(encoded.value);
    r := EncodeLength(MAJOR_MAP, |sorted|, output);
    if r.Err? { return; }
    WriteEntries(sorted, output);
    r := Ok(());
  }

  /** Every key and value of a map, each encoded into a buffer of its own. */
  method EncodeEachEntry(v: Value) returns (r: Result<seq<Keyed<bytes>>>)
    requires v.Map?
    ensures r.Ok? <==> forall j :: 0 <= j < |v.entries| ==> Encodable(v.entries[j].key) && Encodable(v.entries[j].val)
    ensures r.Ok? ==> r.value == EncodeEntries(v.entries)
    decreases v, 0
  {
    hide Encode, EncodeEntries;
    var entries := v.entries;
    var encoded: seq<Keyed<bytes>> := [];
    var i := 0;
    EncodeNoEntries(entries);
    while i < |entries|
      invariant 0 <= i <= |entries|
      invariant forall j :: 0 <= j < i ==> Encodable(entries[j].key) && Encodable(entries[j].val)
      invariant encoded == EncodeEntries(entries[..i])
    {
      var keyBytes := new Output();
      var done := EncodeValue(entries[i].key, keyBytes);
      if done.Err? { return Err(done.error); }
      var valBytes := new Output();
      done := EncodeValue(entries[i].val, valBytes);
      if done.Err? { return Err(done.error); }
      assert keyBytes.data == Encode(entries[i].key) && valBytes.data == Encode(entries[i].val);
      encoded := encoded + [Keyed(keyBytes.data, valBytes.data)];
      EncodeEntriesSnoc(entries[..i], entries[i]);
      assert entries[..i + 1] == entries[..i] + [entries[i]];
      i := i + 1;
    }
    assert entries[..i] == entries;
    r := Ok(encoded);
  }

  lemma {:induction false} EncodeNoEntries(entries: seq<Entry>)
    ensures EncodeEntries(entries[..0]) == []
  {
  }

  method WriteEntries(entries: seq<Keyed<bytes>>, output: Output)
    modifies output
    ensures output.data == old(output.data) + Flatten(entries)
  {
    var i := 0;
    while i < |entries|
      invariant 0 <= i <= |entries|
      invariant output.data == old(output.data) + Flatten(entries[..i])
    {
      output.Extend(entries[i].key);
      output.Extend(entries[i].val);
      FlattenSnoc(entries[..i], entries[i]);
      assert entries[..i + 1] == entries[..i] + [entries[i]];
      i := i + 1;
    }
    assert entries[..i] == entries;
  }

  /** The canonical bytes of a value. */
  method CanonicalBytes(v: Value) returns (r: Result<bytes>)
    ensures r == if Encodable(v) then Ok(Encode(v)) else Err(OutOfRange)
  {
    var output := new Output();
    var done := EncodeValue(v, output);
    assert done.Ok? ==> output.data == Encode(v);
    r := if done.Ok? then Ok(output.data) else Err(done.error);
  }
}
