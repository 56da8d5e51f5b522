/** A reference decoder for the item layout of section 3 of RFC 8949: any head width,
    definite and indefinite lengths, one item read from the front of the input. */
module CborDecode {
  import opened Numbers
  import opened Ieee754
  import opened Cbor
  import Utf8

  datatype Parsed<+T> = Parsed(value: T, rest: bytes) | Malformed {
    predicate IsFailure() { Malformed? }
    function PropagateFailure<U>(): Parsed<U> requires Malformed? { Malformed }
    function Extract(): (T, bytes) requires Parsed? { (value, rest) }
  }

  /** The argument that follows an initial byte with additional information `info`. */
  function DecodeArgument(info: nat, s: bytes): (r: Parsed<u64>)
    ensures r.Parsed? ==> |r.rest| <= |s|
  {
    if info < 24 then Parsed(info, s)
    else if info == 24 then TakeBigEndian(1, s)
    else if info == 25 then TakeBigEndian(2, s)
    else if info == 26 then TakeBigEndian(4, s)
    else if info == 27 then TakeBigEndian(8, s)
    else Malformed
  }

  function TakeBigEndian(w: nat, s: bytes): (r: Parsed<u64>)
    requires w <= 8
    ensures r.Parsed? ==> |r.rest| <= |s| && r.value < Pow256(w)
  {
    if |s| < w then Malformed
    else
      FromBigEndianBound(s[..w]);
      Pow256Values(w);
      Parsed(FromBigEndian(s[..w]), s[w..])
  }

  lemma Pow256Values(w: nat)
    requires w <= 8
    ensures Pow256(w) <= TWO64
    ensures Pow256(1) == 0x100 && Pow256(2) == 0x1_0000 && Pow256(4) == 0x1_0000_0000
  {
    assert Pow256(4) == 0x1_0000_0000;
    assert Pow256(8) == 256 * Pow256(7) && Pow256(7) == 256 * Pow256(6);
    assert Pow256(6) == 256 * Pow256(5) && Pow256(5) == 256 * Pow256(4);
    assert w == 0 || w == 1 || w == 2 || w == 3 || w == 4 || w == 5 || w == 6 || w == 7 || w == 8;
  }

  function Take(n: nat, s: bytes): (r: Parsed<bytes>)
    ensures r.Parsed? ==> |r.rest| <= |s|
  {
    if n <= |s| then Parsed(s[..n], s[n..]) else Malformed
  }

  function Decode(s: bytes): (r: Parsed<Value>)
    ensures r.Parsed? ==> |r.rest| < |s|
    decreases |s|, 0
  {
    if s == [] then Malformed
    else
      var major, info, tail := s[0] / 32, s[0] % 32, s[1..];
      if info == 31 then DecodeIndefinite(major, tail)
      else if major == 7 then DecodeSimple(info, tail)
      else
        var (n, rest) :- DecodeArgument(info, tail);
        DecodeBody(major, n, rest)
  }

  /** What follows the head of an item of major type 0 to 6 with argument `n`. */
  function DecodeBody(major: nat, n: u64, s: bytes): (r: Parsed<Value>)
    ensures r.Parsed? ==> |r.rest| <= |s|
    decreases |s|, 2
  {
    if major == 0 then Parsed(Integer(n), s)
    else if major == 1 then Parsed(Integer(-1 - n), s)
    else if major == 2 || major == 3 then
      var (data, rest) :- Take(n, s);
      StringItem(major, data, rest)
    else if major == 4 then
      var (items, rest) :- DecodeItems(n, s);
      Parsed(Array(items), rest)
    else if major == 5 then
      var (items, rest) :- DecodeItems(2 * n, s);
      Parsed(Map(PairUp(items)), rest)
    else
      var (inner, rest) :- Decode(s);
      Parsed(Tag(n, inner), rest)
  }

  function StringItem(major: nat, data: bytes, rest: bytes): (r: Parsed<Value>)
    ensures r.Parsed? ==> r.rest == rest
  {
    if major == 2 then Parsed(Bytes(data), rest)
    else if Utf8.Valid(data) then Parsed(Text(data), rest)
    else Malformed
  }

  /** Exactly `n` items in a row. */
  function DecodeItems(n: nat, s: bytes): (r: Parsed<seq<Value>>)
    ensures r.Parsed? ==> |r.rest| <= |s| && |r.value| == n
    decreases |s|, 1
  {
    if n == 0 then Parsed([], s)
    else
      var (first, rest) :- Decode(s);
      var (others, rest) :- DecodeItems(n - 1, rest);
      Parsed([first] + others, rest)
  }

  function DecodeSimple(info: nat, s: bytes): (r: Parsed<Value>)
    ensures r.Parsed? ==> |r.rest| <= |s|
  {
    if info == 20 || info == 21 then Parsed(Bool(info == 21), s)
    else if info == 22 then Parsed(Null, s)
    else if info == 25 then
      var (h, rest) :- TakeBigEndian(2, s);
      Pow256Values(2);
      Parsed(Float(WidenHalf(h)), rest)
    else if info == 26 then
      var (h, rest) :- TakeBigEndian(4, s);
      Pow256Values(4);
      Parsed(Float(WidenSingle(h)), rest)
    else if info == 27 then
      var (bits, rest) :- TakeBigEndian(8, s);
      Parsed(Float(bits), rest)
    else Malformed
  }

  /** Items, or definite-length chunks of one string type, up to the break byte. */
  function DecodeIndefinite(major: nat, s: bytes): (r: Parsed<Value>)
    ensures r.Parsed? ==> |r.rest| <= |s|
    decreases |s|, 2
  {
    if major == 2 || major == 3 then
      var (data, rest) :- DecodeChunks(major, s);
      StringItem(major, data, rest)
    else if major == 4 || major == 5 then
      var (items, rest) :- DecodeUntilBreak(s);
      if major == 4 then Parsed(Array(items), rest)
      else if |items| % 2 == 0 then Parsed(Map(PairUp(items)), rest)
      else Malformed
    else Malformed
  }

  function DecodeUntilBreak(s: bytes): (r: Parsed<seq<Value>>)
    ensures r.Parsed? ==> |r.rest| <= |s|
    decreases |s|, 1
  {
    if s == [] then Malformed
    else if s[0] == 0xff then Parsed([], s[1..])
    else
      var (first, rest) :- Decode(s);
      var (others, rest) :- DecodeUntilBreak(rest);
      Parsed([first] + others, rest)
  }

  function DecodeChunks(major: nat, s: bytes): (r: Parsed<bytes>)
    ensures r.Parsed? ==> |r.rest| <= |s|
    decreases |s|, 1
  {
    if s == [] then Malformed
    else if s[0] == 0xff then Parsed([], s[1..])
    else if s[0] / 32 != major then Malformed
    else
      var (n, rest) :- DecodeArgument(s[0] % 32, s[1..]);
      var (chunk, rest) :- Take(n, rest);
      if major == 3 && !Utf8.Valid(chunk) then Malformed
      else
        var (more, rest) :- DecodeChunks(major, rest);
        Parsed(chunk + more, rest)
  }

  function PairUp(items: seq<Value>): (r: seq<Entry>)
    requires |items| % 2 == 0
    ensures |r| == |items| / 2
    ensures forall i :: 0 <= i < |r| ==> r[i] == Entry(items[2 * i], items[2 * i + 1])
  {
    seq(|items| / 2, i requires 0 <= i < |items| / 2 => Entry(items[2 * i], items[2 * i + 1]))
  }

  /** Strict decoding: parse one item, encode it again, and compare with the whole input. */
  function CanonicalDecode(s: bytes): (r: Result<Value>) {
    match Decode(s)
    case Malformed => Err(NotCbor)
    case Parsed(v, _) =>
      if !Encodable(v) then Err(OutOfRange)
      else if Encode(v) != s then Err(NotCanonical)
      else Ok(v)
  }
}
