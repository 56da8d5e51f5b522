/** Checkpoint entries and the CBOR values they are hashed as. */
module CheckpointEntries {
  import opened Numbers
  import opened Hashing
  import opened KeySort
  import opened Cbor
  import opened CborDecode
  import opened CborTheorems

  datatype CheckpointEntry =
    | Key(userId: bytes, verifyingKey: bytes, deviceId: bytes, issuedAt: u64)
    | Recovery(userId: bytes, recoveryKey: bytes, issuedAt: u64)
    | Revocation(userId: bytes, revokedKeyHash: bytes, revokedAt: u64,
                 recoveryKeyHash: Option<bytes>, reason: Option<text>)

  /** A map entry with an unsigned integer key. */
  function Field(k: u64, v: Value): Entry {
    Entry(Integer(k), v)
  }

  function OptField<T>(k: u64, v: Option<T>, f: T -> Value): seq<Entry> {
    if v.Some? then [Field(k, f(v.value))] else []
  }

  function BodyValue(e: CheckpointEntry): Value {
    match e
    case Key(user, key, device, at) =>
      Map([Field(0, Bytes(user)), Field(1, Bytes(key)), Field(2, Bytes(device)), Field(3, Integer(at))])
    case Recovery(user, key, at) =>
      Map([Field(0, Bytes(user)), Field(1, Bytes(key)), Field(2, Integer(at))])
    case Revocation(user, keyHash, at, recoveryHash, reason) =>
      Map([Field(0, Bytes(user)), Field(1, Bytes(keyHash)), Field(2, Integer(at))]
          + OptField(3, recoveryHash, (x: bytes) => Bytes(x))
          + OptField(4, reason, (x: text) => Text(x)))
  }

  function EntryKind(e: CheckpointEntry): u64 {
    match e case Key(_, _, _, _) => 0 case Recovery(_, _, _) => 1 case Revocation(_, _, _, _, _) => 2
  }

  function EntryValue(e: CheckpointEntry): Value {
    Map([Field(0, Integer(EntryKind(e))), Field(1, BodyValue(e))])
  }

  /** The bytes an entry is hashed as. */
  function EntryBytes(e: CheckpointEntry): bytes {
    Encode(EntryValue(e))
  }

  /** Every field of the entry has a length the encoder accepts. */
  predicate Fits(e: CheckpointEntry) {
    Encodable(EntryValue(e))
  }

  /** The digest input of a leaf. */
  function LeafInput(e: CheckpointEntry): bytes {
    [0x00] + EntryBytes(e)
  }

  function LeafHash(h: HashFn, e: CheckpointEntry): Result<bytes> {
    if Fits(e) then Ok(h(LeafInput(e))) else Err(OutOfRange)
  }

  // ----- the value of an entry is canonical as built -----

  /** Fields with ascending one-byte keys are in canonical order. */
  ghost predicate SmallAscending(entries: seq<Entry>) {
    && (forall i :: 0 <= i < |entries| ==> entries[i].key.Integer? && 0 <= entries[i].key.n < 24)
    && (forall i, j :: 0 <= i < j < |entries| ==> entries[i].key.n < entries[j].key.n)
  }

  lemma {:induction false} SmallAscendingSorted(entries: seq<Entry>)
    requires SmallAscending(entries)
    ensures Sorted(EncodeEntries(entries))
  {
    hide EncodeEntries;
    var s := EncodeEntries(entries);
    forall i, j | 0 <= i < j < |s| ensures KeyLeq(s[i].key, s[j].key) {
      EncodeEntriesAt(entries, i);
      EncodeEntriesAt(entries, j);
      assert s[i].key == [entries[i].key.n] && s[j].key == [entries[j].key.n];
    }
  }

  predicate Plain(v: Value) {
    v.Integer? || v.Bytes? || v.Text?
  }

  lemma {:induction false} PlainMapCanonical(entries: seq<Entry>)
    requires SmallAscending(entries)
    requires forall i :: 0 <= i < |entries| ==> IsCanonical(entries[i].val)
    ensures IsCanonical(Map(entries))
  {
    SmallAscendingSorted(entries);
  }

  lemma {:induction false} BodyCanonical(e: CheckpointEntry)
    ensures IsCanonical(BodyValue(e))
  {
    hide EncodeEntries, Sorted;
    var fields := BodyValue(e).entries;
    assert forall i :: 0 <= i < |fields| ==> Plain(fields[i].val);
    PlainMapCanonical(fields);
  }

  lemma {:induction false} EntryCanonical(e: CheckpointEntry)
    ensures IsCanonical(EntryValue(e))
  {
    hide EncodeEntries, Sorted, BodyValue;
    BodyCanonical(e);
    PlainMapCanonical(EntryValue(e).entries);
  }

  lemma {:induction false} BodyInjective(a: CheckpointEntry, b: CheckpointEntry)
    requires EntryKind(a) == EntryKind(b) && BodyValue(a) == BodyValue(b)
    ensures a == b
  {
    var x, y := BodyValue(a).entries, BodyValue(b).entries;
    assert x[0] == y[0] && x[1] == y[1] && x[2] == y[2];
    if a.Key? {
      assert x[3] == y[3];
    } else if a.Revocation? {
      OptionsInjective(x, y, a, b);
    }
  }

  lemma {:induction false} OptionsInjective(x: seq<Entry>, y: seq<Entry>, a: CheckpointEntry, b: CheckpointEntry)
    requires a.Revocation? && b.Revocation? && x == y
    requires x == BodyValue(a).entries && y == BodyValue(b).entries
    ensures a.recoveryKeyHash == b.recoveryKeyHash && a.reason == b.reason
  {
    if |x| > 3 {
      assert x[3] == y[3];
      if |x| > 4 {
        assert x[4] == y[4];
      }
    }
  }

  /** What a reader of the hashed bytes finds: kind 0, 1 or 2 under key 0, and the fields under
      numbered keys of the map under key 1. */
  lemma {:induction false} EntryReadsAs(e: CheckpointEntry)
    requires Fits(e)
    ensures Decode(EntryBytes(e)) == Parsed(
        match e
        case Key(user, key, device, at) =>
          Map([Entry(Integer(0), Integer(0)),
               Entry(Integer(1), Map([Entry(Integer(0), Bytes(user)), Entry(Integer(1), Bytes(key)),
                                      Entry(Integer(2), Bytes(device)), Entry(Integer(3), Integer(at))]))])
        case Recovery(user, key, at) =>
          Map([Entry(Integer(0), Integer(1)),
               Entry(Integer(1), Map([Entry(Integer(0), Bytes(user)), Entry(Integer(1), Bytes(key)),
                                      Entry(Integer(2), Integer(at))]))])
        case Revocation(user, keyHash, at, recoveryHash, reason) =>
          Map([Entry(Integer(0), Integer(2)),
               Entry(Integer(1), Map([Entry(Integer(0), Bytes(user)), Entry(Integer(1), Bytes(keyHash)),
                                      Entry(Integer(2), Integer(at))]
                                     + (if recoveryHash.Some? then [Entry(Integer(3), Bytes(recoveryHash.value))] else [])
                                     + (if reason.Some? then [Entry(Integer(4), Text(reason.value))] else [])))]), [])
  {
    EntryCanonical(e);
    DecodeCanonicalValue(EntryValue(e), []);
    hide Encode, Decode, Encodable;
    assert EntryBytes(e) + [] == EntryBytes(e);
  }

  /** The hashed bytes identify the entry. */
  lemma {:induction false} EntryBytesInjective(a: CheckpointEntry, b: CheckpointEntry)
    requires Fits(a) && Fits(b) && EntryBytes(a) == EntryBytes(b)
    ensures a == b
  {
    SameBytesIffSameCanon(EntryValue(a), EntryValue(b));
    EntryCanonical(a);
    EntryCanonical(b);
    CanonOfCanonical(EntryValue(a));
    CanonOfCanonical(EntryValue(b));
    SameEntryValue(a, b);
    BodyInjective(a, b);
  }

  lemma {:induction false} SameEntryValue(a: CheckpointEntry, b: CheckpointEntry)
    requires EntryValue(a) == EntryValue(b)
    ensures EntryKind(a) == EntryKind(b) && BodyValue(a) == BodyValue(b)
  {
    hide BodyValue, EntryKind;
    var x, y := EntryValue(a).entries, EntryValue(b).entries;
    assert x[0] == y[0] && x[1] == y[1];
  }
}

/** The append-only log and its cached Merkle state. */
module CheckpointLogs {
  import opened Numbers
  import opened Hashing
  import opened Cbor
  import opened MerkleTree
  import opened MerkleFrontier
  import opened CheckpointEntries

  function NodeInput(left: bytes, right: bytes): bytes {
    [0x01] + left + right
  }

  function HashNode(h: HashFn): (bytes, bytes) -> bytes {
    (left: bytes, right: bytes) => h(NodeInput(left, right))
  }

  /** The leaf digests of the entries, in order. */
  function LeafHashes(h: HashFn, entries: seq<CheckpointEntry>): (r: seq<bytes>)
    ensures |r| == |entries|
  {
    seq(|entries|, i requires 0 <= i < |entries| => h(LeafInput(entries[i])))
  }

  ghost predicate AllFit(entries: seq<CheckpointEntry>) {
    forall i :: 0 <= i < |entries| ==> Fits(entries[i])
  }

  /** The root of the tree over all entries; empty bytes for an empty log. */
  function LogRoot(h: HashFn, entries: seq<CheckpointEntry>): bytes {
    UnwrapOrDefault(RootOf(HashNode(h), LeafHashes(h, entries)))
  }

  function UnwrapOrDefault(root: Option<bytes>): bytes {
    if root.Some? then root.value else []
  }

  lemma {:induction false} LeafHashesSnoc(h: HashFn, entries: seq<CheckpointEntry>, e: CheckpointEntry)
    ensures LeafHashes(h, entries + [e]) == LeafHashes(h, entries) + [h(LeafInput(e))]
  {
    hide LeafInput;
  }

  lemma {:induction false} AllFitSnoc(entries: seq<CheckpointEntry>, e: CheckpointEntry)
    ensures AllFit(entries + [e]) <==> AllFit(entries) && Fits(e)
  {
    hide Fits;
    var all := entries + [e];
    assert all[|entries|] == e;
    assert forall i :: 0 <= i < |entries| ==> all[i] == entries[i];
  }

  lemma {:induction false} EmptyHolds(h: HashFn)
    ensures Represents(HashNode(h), [], LeafHashes(h, []))
    ensures LogRoot(h, []) == []
  {
  }

  // ----- small logs in full -----

  lemma {:induction false} SmallLeaves(h: HashFn, a: CheckpointEntry, b: CheckpointEntry, c: CheckpointEntry)
    ensures LeafHashes(h, [a]) == [h(LeafInput(a))]
    ensures LeafHashes(h, [a, b]) == [h(LeafInput(a)), h(LeafInput(b))]
    ensures LeafHashes(h, [a, b, c]) == [h(LeafInput(a)), h(LeafInput(b)), h(LeafInput(c))]
  {
    LeafHashesSnoc(h, [], a);
    LeafHashesSnoc(h, [a], b);
    LeafHashesSnoc(h, [a, b], c);
    hide LeafInput, LeafHashes;
    assert [] + [a] == [a] && [a] + [b] == [a, b] && [a, b] + [c] == [a, b, c];
  }

  /** The root of one entry is its leaf digest; of two, the node of the older and the newer leaf; a
      third leaf goes to the left of the node of the first two. */
  lemma {:induction false} SmallRoots(h: HashFn, a: CheckpointEntry, b: CheckpointEntry, c: CheckpointEntry)
    ensures LogRoot(h, []) == []
    ensures LogRoot(h, [a]) == h([0x00] + EntryBytes(a))
    ensures LogRoot(h, [a, b]) == h([0x01] + h([0x00] + EntryBytes(a)) + h([0x00] + EntryBytes(b)))
    ensures LogRoot(h, [a, b, c])
         == h([0x01] + h([0x00] + EntryBytes(c))
              + h([0x01] + h([0x00] + EntryBytes(a)) + h([0x00] + EntryBytes(b))))
  {
    var x, y, z := h(LeafInput(a)), h(LeafInput(b)), h(LeafInput(c));
    assert LeafInput(a) == [0x00] + EntryBytes(a) && LeafInput(b) == [0x00] + EntryBytes(b)
        && LeafInput(c) == [0x00] + EntryBytes(c);
    hide EntryBytes, HashNode, RootOf, LeafHashes, LeafInput;
    EmptyHolds(h);
    SmallLeaves(h, a, b, c);
    SmallTrees(HashNode(h), x, y, z);
    NodeHash(h, x, y);
    NodeHash(h, z, h([0x01] + x + y));
  }

  lemma NodeHash(h: HashFn, left: bytes, right: bytes)
    ensures HashNode(h)(left, right) == h([0x01] + left + right)
  {
    var input := NodeInput(left, right);
    assert input == [0x01] + left + right;
    hide NodeInput;
    assert HashNode(h)(left, right) == h(input);
  }

  lemma {:induction false} SmallTrees<D>(node: (D, D) -> D, x: D, y: D, z: D)
    ensures RootOf(node, [x]) == Some(x)
    ensures RootOf(node, [x, y]) == Some(node(x, y))
    ensures RootOf(node, [x, y, z]) == Some(node(z, node(x, y)))
  {
    assert LowBit(1) == 1 && LowBit(2) == 2 && LowBit(3) == 1;
    assert [x, y][..1] == [x] && [x, y][1..] == [y];
    assert [x, y, z][..2] == [x, y] && [x, y, z][2..] == [z];
    assert IsPow2(1) && IsPow2(2);
    var pair := Node(Leaf(x), Leaf(y));
    assert Perfect([x]) == Leaf(x) && Perfect([y]) == Leaf(y) && Perfect([z]) == Leaf(z);
    assert Perfect([x, y]) == pair;
    assert TreeOf([x]) == Leaf(x) && TreeOf([x, y]) == pair;
    assert TreeOf([x, y, z]) == Node(Leaf(z), pair);
    assert Digest(node, pair) == node(x, y);
    assert Digest(node, Node(Leaf(z), pair)) == node(z, node(x, y));
  }

  /** Adds the leaf of one more entry, if it encodes. */
  method AppendEntry(h: HashFn, state: MerkleState<bytes>, entry: CheckpointEntry, ghost before: seq<CheckpointEntry>)
    returns (ok: bool)
    requires state.Holds(HashNode(h), LeafHashes(h, before))
    modifies state
    ensures ok <==> Fits(entry)
    ensures ok ==> state.Holds(HashNode(h), LeafHashes(h, before + [entry]))
  {
    hide Represents, Fits, LeafInput, LeafHashes, HashNode, RootOf;
    var leafHash := LeafHash(h, entry);
    if leafHash.Err? {
      return false;
    }
    var _ := state.AppendLeaf(HashNode(h), leafHash.value, LeafHashes(h, before));
    LeafHashesSnoc(h, before, entry);
    ok := true;
  }

  /** The Merkle state rebuilt from all entries, in order. */
  method FromEntries(h: HashFn, entries: seq<CheckpointEntry>) returns (r: Result<MerkleState<bytes>>)
    ensures r.Ok? <==> AllFit(entries)
    ensures r.Err? ==> r.error == OutOfRange
    ensures r.Ok? ==> fresh(r.value) && r.value.Holds(HashNode(h), LeafHashes(h, entries))
  {
    hide Represents, Fits, AllFit, LeafInput, LeafHashes, HashNode, RootOf;
    var state := new MerkleState<bytes>();
    EmptyHolds(h);
    assert entries[..0] == [];
    NothingToFit();
    var i := 0;
    while i < |entries|
      invariant 0 <= i <= |entries|
      invariant fresh(state)
      invariant AllFit(entries[..i])
      invariant state.Holds(HashNode(h), LeafHashes(h, entries[..i]))
    {
      AllFitStep(entries, i);
      PrefixSnoc(entries, i);
      var ok := AppendEntry(h, state, entries[i], entries[..i]);
      if !ok {
        return Err(OutOfRange);
      }
      i := i + 1;
    }
    assert entries[..i] == entries;
    r := Ok(state);
  }

  lemma NothingToFit()
    ensures AllFit([])
  {
  }

  /** A prefix that fits is extended by an entry that fits; one that does not spoils the whole. */
  lemma {:induction false} AllFitStep(entries: seq<CheckpointEntry>, i: nat)
    requires i < |entries| && AllFit(entries[..i])
    ensures Fits(entries[i]) ==> AllFit(entries[..i + 1])
    ensures !Fits(entries[i]) ==> !AllFit(entries)
  {
    hide Fits;
    AllFitSnoc(entries[..i], entries[i]);
    PrefixSnoc(entries, i);
  }

  class CheckpointLog {
    var entries: seq<CheckpointEntry>
    var merkle: MerkleState<bytes>

    /** The cache is in step with the entries, or is the empty cache that reading back a
        serialized log leaves behind. Every operation keeps this. */
    ghost predicate Valid(h: HashFn)
      reads this, merkle
    {
      && (merkle.leafCount == |entries| ==> merkle.Holds(HashNode(h), LeafHashes(h, entries)))
      && (merkle.leafCount != |entries| ==> merkle.leafCount == 0)
    }

    constructor ()
      ensures entries == [] && fresh(merkle) && merkle.leafCount == 0 && merkle.frontier == []
    {
      entries := [];
      merkle := new MerkleState<bytes>();
    }

    /** A log read back by the derived deserializer: the skipped cache is empty. */
    constructor Deserialized(stored: seq<CheckpointEntry>)
      ensures entries == stored && fresh(merkle)
      ensures forall h: HashFn :: Valid(h)
    {
      entries := stored;
      merkle := new MerkleState<bytes>();
      new;
      forall h: HashFn ensures Valid(h) {
        if stored == [] {
          EmptyHolds(h);
        }
      }
    }

    method RebuildMerkleState(h: HashFn) returns (ok: bool)
      modifies this`merkle
      ensures ok <==> AllFit(entries)
      ensures ok ==> Valid(h) && fresh(merkle) && merkle.leafCount == |entries|
      ensures !ok ==> merkle == old(merkle)
    {
      hide Represents, LeafHashes, HashNode;
      var rebuilt := FromEntries(h, entries);
      if rebuilt.Err? {
        return false;
      }
      merkle := rebuilt.value;
      ok := true;
    }

    /** Rebuilds the cache when its leaf count shows that it is not in step. */
    method EnsureMerkleState(h: HashFn) returns (ok: bool)
      requires Valid(h)
      modifies this`merkle
      ensures Valid(h) && (merkle == old(merkle) || fresh(merkle))
      ensures AllFit(entries) ==> ok
      ensures ok ==> merkle.leafCount == |entries|
      ensures old(merkle.leafCount) == |entries| ==> merkle == old(merkle)
    {
      hide Represents, LeafHashes, HashNode;
      if merkle.leafCount == |entries| {
        return true;
      }
      ok := RebuildMerkleState(h);
    }

    /** Appends an entry and returns the root of the extended log. A failure changes nothing
        but, at most, a stale cache. */
    method AppendWithRoot(h: HashFn, entry: CheckpointEntry) returns (r: Result<bytes>)
      requires Valid(h)
      modifies this, merkle
      ensures Valid(h) && (merkle == old(merkle) || fresh(merkle))
      ensures AllFit(old(entries) + [entry]) ==> r.Ok?
      ensures r.Ok? ==> Fits(entry) && entries == old(entries) + [entry] && r.value == LogRoot(h, entries)
      ensures r.Err? ==> entries == old(entries)
    {
      hide Represents, Fits, LeafInput, LeafHashes, HashNode, RootOf;
      AllFitSnoc(entries, entry);
      hide AllFit;
      var ok := EnsureMerkleState(h);
      if !ok {
        return Err(OutOfRange);
      }
      var leafHash := LeafHash(h, entry);
      if leafHash.Err? {
        return Err(leafHash.error);
      }
      var root := merkle.AppendLeaf(HashNode(h), leafHash.value, LeafHashes(h, entries));
      LeafHashesSnoc(h, entries, entry);
      entries := entries + [entry];
      r := Ok(UnwrapOrDefault(root));
    }

    /** The root of the log, from the cache when its leaf count matches. */
    method MerkleRoot(h: HashFn) returns (r: Result<bytes>)
      requires Valid(h)
      ensures AllFit(entries) ==> r.Ok?
      ensures r.Ok? ==> r.value == LogRoot(h, entries)
    {
      hide Represents, Fits, LeafInput, LeafHashes, HashNode;
      if entries == [] {
        EmptyHolds(h);
        return Ok([]);
      }
      if merkle.leafCount == |entries| {
        var root := merkle.Root(HashNode(h));
        FoldRootIsRoot(HashNode(h), merkle.frontier, LeafHashes(h, entries));
        return Ok(UnwrapOrDefault(root));
      }
      var rebuilt := FromEntries(h, entries);
      if rebuilt.Err? {
        return Err(rebuilt.error);
      }
      var root := rebuilt.value.Root(HashNode(h));
      FoldRootIsRoot(HashNode(h), rebuilt.value.frontier, LeafHashes(h, entries));
      r := Ok(UnwrapOrDefault(root));
    }

    method Clone(h: HashFn) returns (copy: CheckpointLog)
      requires Valid(h)
      ensures fresh(copy) && fresh(copy.merkle) && copy.entries == entries && copy.Valid(h)
    {
      copy := new CheckpointLog();
      copy.entries := entries;
      copy.merkle.frontier := merkle.frontier;
      copy.merkle.leafCount := merkle.leafCount;
    }
  }

  /** Exporting a log and importing it again: the entries travel, the cache is rebuilt. */
  method Import(h: HashFn, stored: seq<CheckpointEntry>) returns (r: Result<CheckpointLog>)
    ensures r.Ok? <==> AllFit(stored)
    ensures r.Ok? ==> fresh(r.value) && fresh(r.value.merkle) && r.value.Valid(h)
    ensures r.Ok? ==> r.value.entries == stored && r.value.merkle.leafCount == |stored|
  {
    var log := new CheckpointLog.Deserialized(stored);
    var ok := log.RebuildMerkleState(h);
    if !ok {
      return Err(OutOfRange);
    }
    r := Ok(log);
  }
}
