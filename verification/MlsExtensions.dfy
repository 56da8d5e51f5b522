/** The two SPEX extensions of a group context: how they are built and how they are read. */
module MlsExtensions {
  import opened Numbers

  datatype ProtoSuite = ProtoSuite(major: u16, minor: u16, ciphersuiteId: u16)

  const PROTO_SUITE_TYPE: u16 := 0xF0A0
  const CFG_HASH_TYPE: u16 := 0xF0A1

  function ProtoSuiteExtension(p: ProtoSuite, flags: byte): bytes {
    var data := ToBigEndian(p.major, 2) + ToBigEndian(p.minor, 2) + ToBigEndian(p.ciphersuiteId, 2) + [flags];
    ToBigEndian(PROTO_SUITE_TYPE, 2) + ToBigEndian(|data|, 2) + data
  }

  /** The hash length travels in one byte. */
  function CfgHashExtension(hashId: u16, hash: bytes): bytes
    requires |hash| <= 255
  {
    var data := ToBigEndian(hashId, 2) + [|hash|] + hash;
    ToBigEndian(CFG_HASH_TYPE, 2) + ToBigEndian(|data|, 2) + data
  }

  // ----- reading -----

  function U16At(s: bytes, i: nat): u16
    requires i + 1 < |s|
  {
    var high: int, low: int := s[i], s[i + 1];
    256 * high + low
  }

  function StripExtension(raw: bytes, expected: u16): Option<bytes> {
    if |raw| < 4 || U16At(raw, 0) != expected || |raw| != 4 + U16At(raw, 2) then None else Some(raw[4..])
  }

  function ParseProtoSuite(data: bytes): Option<(ProtoSuite, byte)> {
    if |data| != 7 then None
    else Some((ProtoSuite(U16At(data, 0), U16At(data, 2), U16At(data, 4)), data[6]))
  }

  function ParseCfgHash(data: bytes): Option<(u16, bytes)> {
    if |data| < 3 || |data| - 3 != data[2] then None else Some((U16At(data, 0), data[3..]))
  }

  function ReadProtoSuite(raw: bytes): Option<(ProtoSuite, byte)> {
    match StripExtension(raw, PROTO_SUITE_TYPE) case None => None case Some(data) => ParseProtoSuite(data)
  }

  function ReadCfgHash(raw: bytes): Option<(u16, bytes)> {
    match StripExtension(raw, CFG_HASH_TYPE) case None => None case Some(data) => ParseCfgHash(data)
  }

  // ----- the readers accept exactly what the builders write -----

  lemma TwoBytes(n: u16)
    ensures ToBigEndian(n, 2) == [n / 256, n % 256]
  {
    assert ToBigEndian(n / 256, 1) == ToBigEndian(n / 256 / 256, 0) + [n / 256 % 256];
  }

  /** The bytes in full. */
  lemma {:induction false} ProtoSuiteBytes(p: ProtoSuite, flags: byte)
    ensures ProtoSuiteExtension(p, flags)
         == [0xF0, 0xA0, 0, 7, p.major / 256, p.major % 256, p.minor / 256, p.minor % 256,
             p.ciphersuiteId / 256, p.ciphersuiteId % 256, flags]
  {
    TwoBytes(p.major);
    TwoBytes(p.minor);
    TwoBytes(p.ciphersuiteId);
    TwoBytes(PROTO_SUITE_TYPE);
    TwoBytes(7);
    hide ToBigEndian;
  }

  lemma {:induction false} CfgHashBytes(hashId: u16, hash: bytes)
    requires |hash| <= 255
    ensures CfgHashExtension(hashId, hash)
         == [0xF0, 0xA1, (3 + |hash|) / 256, (3 + |hash|) % 256, hashId / 256, hashId % 256, |hash|] + hash
  {
    TwoBytes(hashId);
    TwoBytes(CFG_HASH_TYPE);
    TwoBytes(3 + |hash|);
    hide ToBigEndian;
  }

  /** Reading a suite extension succeeds on exactly the extensions that are built, and gives back
      what each was built from. */
  lemma {:induction false} ProtoSuiteReadsIff(raw: bytes, p: ProtoSuite, flags: byte)
    ensures ReadProtoSuite(raw) == Some((p, flags)) <==> raw == ProtoSuiteExtension(p, flags)
  {
    ProtoSuiteBytes(p, flags);
    hide ProtoSuiteExtension;
    if ReadProtoSuite(raw) == Some((p, flags)) {
      assert raw[4..][0] == raw[4] && raw[4..][1] == raw[5] && raw[4..][2] == raw[6] && raw[4..][3] == raw[7];
      assert raw[4..][4] == raw[8] && raw[4..][5] == raw[9] && raw[4..][6] == raw[10];
      assert |raw| == 11;
    }
  }

  lemma {:induction false} CfgHashReadsIff(raw: bytes, hashId: u16, hash: bytes)
    requires |hash| <= 255
    ensures ReadCfgHash(raw) == Some((hashId, hash)) <==> raw == CfgHashExtension(hashId, hash)
  {
    CfgHashBytes(hashId, hash);
    var head := [0xF0, 0xA1, (3 + |hash|) / 256, (3 + |hash|) % 256, hashId / 256, hashId % 256, |hash|];
    hide CfgHashExtension;
    if raw == head + hash {
      assert raw[..7] == head;
      assert raw[4..][3..] == raw[7..] == hash;
    }
    if ReadCfgHash(raw) == Some((hashId, hash)) {
      assert raw[4..][0] == raw[4] && raw[4..][1] == raw[5] && raw[4..][2] == raw[6];
      assert raw[4..][3..] == raw[7..] == hash;
      assert raw[..7] == head;
      assert raw == raw[..7] + raw[7..];
    }
  }
}
