/** Hash-addressed chunks: splitting a payload, describing it by a manifest, and putting it
    together again from chunks that arrive in any order from anywhere. */
module Chunks {
  import opened Numbers
  import opened Hashing
  import Sorting

  datatype Chunk = Chunk(index: nat, hash: bytes, data: bytes)
  datatype Descriptor = Descriptor(index: nat, hash: bytes)
  datatype Manifest = Manifest(chunks: seq<Descriptor>, totalLen: nat)

  datatype ManifestFault = EmptyForPayload | DuplicateIndex(index: nat) | DuplicateHash

  datatype Error =
    | InvalidManifest(fault: ManifestFault)
    | MissingChunk(hash: bytes)
    | ChunkHashMismatch(index: nat)
    | ChunkIndexMismatch(expected: nat, actual: nat)
    | PayloadLengthMismatch(wanted: nat, got: nat)

  datatype Result<+T> = Ok(value: T) | Err(error: Error)

  // ----- splitting -----

  /** Consecutive pieces of `size` bytes, the last one possibly shorter. */
  function Pieces(size: nat, data: bytes): seq<bytes>
    requires size > 0
    decreases |data|
  {
    if data == [] then [] else if |data| <= size then [data]
    else [data[..size]] + Pieces(size, data[size..])
  }

  function ChunkData(h: HashFn, size: nat, data: bytes): (r: seq<Chunk>)
    requires data != [] ==> size > 0
  {
    if data == [] then []
    else
      var pieces := Pieces(size, data);
      seq(|pieces|, i requires 0 <= i < |pieces| => Chunk(i, h(pieces[i]), pieces[i]))
  }

  function ManifestOf(h: HashFn, size: nat, payload: bytes): Manifest
    requires payload != [] ==> size > 0
  {
    var chunks := ChunkData(h, size, payload);
    Manifest(seq(|chunks|, i requires 0 <= i < |chunks| => Descriptor(chunks[i].index, chunks[i].hash)), |payload|)
  }

  // ----- joining -----

  function Join(chunks: seq<Chunk>): bytes {
    if chunks == [] then [] else Join(chunks[..|chunks| - 1]) + chunks[|chunks| - 1].data
  }

  function IndexOf(c: Chunk): nat {
    c.index
  }

  /** The data of the chunks in index order. */
  function Assembled(chunks: seq<Chunk>): bytes {
    Join(Sorting.Sort(IndexOf, Sorting.NatLeq, chunks))
  }

  method ReassembleChunks(chunks: seq<Chunk>) returns (data: bytes)
    ensures data == Assembled(chunks)
  {
    hide Sorting.Sort;
    var sorted := Sorting.Sort(IndexOf, Sorting.NatLeq, chunks);
    data := [];
    var i := 0;
    while i < |sorted|
      invariant 0 <= i <= |sorted|
      invariant data == Join(sorted[..i])
    {
      assert sorted[..i + 1][..i] == sorted[..i];
      data := data + sorted[i].data;
      i := i + 1;
    }
    assert sorted[..i] == sorted;
  }

  // ----- manifests -----

  ghost predicate ValidManifest(m: Manifest) {
    && (m.chunks == [] ==> m.totalLen == 0)
    && (forall i, j :: 0 <= i < j < |m.chunks| ==> m.chunks[i].index != m.chunks[j].index)
    && (forall i, j :: 0 <= i < j < |m.chunks| ==> m.chunks[i].hash != m.chunks[j].hash)
  }

  /** The first descriptor that repeats an index or else a hash of an earlier one. */
  ghost function FirstRepeat(ds: seq<Descriptor>): Option<ManifestFault> {
    if ds == [] then None
    else
      var init, d := ds[..|ds| - 1], ds[|ds| - 1];
      if FirstRepeat(init).Some? then FirstRepeat(init)
      else if exists i :: 0 <= i < |init| && init[i].index == d.index then Some(DuplicateIndex(d.index))
      else if exists i :: 0 <= i < |init| && init[i].hash == d.hash then Some(DuplicateHash)
      else None
  }

  ghost function Fault(m: Manifest): Option<ManifestFault> {
    if m.chunks == [] && m.totalLen > 0 then Some(EmptyForPayload) else FirstRepeat(m.chunks)
  }

  method ValidateManifest(m: Manifest) returns (fault: Option<ManifestFault>)
    ensures fault == Fault(m)
  {
    if m.chunks == [] && m.totalLen > 0 {
      return Some(EmptyForPayload);
    }
    var indices: set<nat> := {};
    var hashes: set<bytes> := {};
    var n := 0;
    while n < |m.chunks|
      invariant 0 <= n <= |m.chunks|
      invariant FirstRepeat(m.chunks[..n]) == None
      invariant forall x :: x in indices <==> exists i :: 0 <= i < n && m.chunks[i].index == x
      invariant forall x :: x in hashes <==> exists i :: 0 <= i < n && m.chunks[i].hash == x
    {
      var d := m.chunks[n];
      RepeatStep(m.chunks, n);
      if d.index in indices {
        RepeatStuck(m.chunks, n + 1);
        return Some(DuplicateIndex(d.index));
      }
      indices := indices + {d.index};
      if d.hash in hashes {
        RepeatStuck(m.chunks, n + 1);
        return Some(DuplicateHash);
      }
      hashes := hashes + {d.hash};
      n := n + 1;
    }
    assert m.chunks[..n] == m.chunks;
    fault := None;
  }

  lemma {:induction false} RepeatStep(ds: seq<Descriptor>, n: nat)
    requires n < |ds| && FirstRepeat(ds[..n]) == None
    ensures FirstRepeat(ds[..n + 1])
         == if exists i :: 0 <= i < n && ds[i].index == ds[n].index then Some(DuplicateIndex(ds[n].index))
            else if exists i :: 0 <= i < n && ds[i].hash == ds[n].hash then Some(DuplicateHash)
            else None
  {
    var some := ds[..n + 1];
    assert some[..n] == ds[..n] && some[n] == ds[n];
    assert forall i :: 0 <= i < n ==> ds[..n][i] == ds[i];
  }

  lemma {:induction false} RepeatStuck(ds: seq<Descriptor>, n: nat)
    requires n <= |ds| && FirstRepeat(ds[..n]).Some?
    ensures FirstRepeat(ds) == FirstRepeat(ds[..n])
    decreases |ds| - n
  {
    if n < |ds| {
      assert ds[..n + 1][..n] == ds[..n];
      RepeatStuck(ds, n + 1);
    } else {
      assert ds[..n] == ds;
    }
  }

  // ----- from a store -----

  function Fetch(h: HashFn, d: Descriptor, store: map<bytes, bytes>): Result<Chunk> {
    if d.hash !in store then Err(MissingChunk(d.hash))
    else if h(store[d.hash]) != d.hash then Err(ChunkHashMismatch(d.index))
    else Ok(Chunk(d.index, d.hash, store[d.hash]))
  }

  function FetchAll(h: HashFn, ds: seq<Descriptor>, store: map<bytes, bytes>): Result<seq<Chunk>> {
    if ds == [] then Ok([])
    else
      match FetchAll(h, ds[..|ds| - 1], store)
      case Err(e) => Err(e)
      case Ok(cs) =>
        match Fetch(h, ds[|ds| - 1], store)
        case Err(e) => Err(e)
        case Ok(c) => Ok(cs + [c])
  }

  ghost function RecoverFrom(h: HashFn, m: Manifest, store: map<bytes, bytes>): Result<seq<Chunk>> {
    if Fault(m).Some? then Err(InvalidManifest(Fault(m).value)) else FetchAll(h, m.chunks, store)
  }

  method RecoverChunksFromStore(h: HashFn, m: Manifest, store: map<bytes, bytes>) returns (r: Result<seq<Chunk>>)
    ensures r == RecoverFrom(h, m, store)
  {
    hide Fault, Fetch;
    var fault := ValidateManifest(m);
    if fault.Some? {
      return Err(InvalidManifest(fault.value));
    }
    var ordered: seq<Chunk> := [];
    var i := 0;
    while i < |m.chunks|
      invariant 0 <= i <= |m.chunks|
      invariant FetchAll(h, m.chunks[..i], store) == Ok(ordered)
    {
      assert m.chunks[..i + 1][..i] == m.chunks[..i];
      var c := Fetch(h, m.chunks[i], store);
      if c.Err? {
        FetchStuck(h, m.chunks, store, i + 1);
        return Err(c.error);
      }
      ordered := ordered + [c.value];
      i := i + 1;
    }
    assert m.chunks[..i] == m.chunks;
    r := Ok(ordered);
  }

  lemma {:induction false} FetchStuck(h: HashFn, ds: seq<Descriptor>, store: map<bytes, bytes>, i: nat)
    requires i <= |ds| && FetchAll(h, ds[..i], store).Err?
    ensures FetchAll(h, ds, store) == FetchAll(h, ds[..i], store)
    decreases |ds| - i
  {
    hide Fetch;
    if i < |ds| {
      assert ds[..i + 1][..i] == ds[..i];
      FetchStuck(h, ds, store, i + 1);
    } else {
      assert ds[..i] == ds;
    }
  }

  // ----- from delivered chunks -----

  /** Chunks by hash, the first of each hash winning; a chunk that does not match its own hash
      stops the whole reassembly. */
  function ByHash(h: HashFn, chunks: seq<Chunk>): Result<map<bytes, Chunk>> {
    if chunks == [] then Ok(map[])
    else
      var c := chunks[|chunks| - 1];
      match ByHash(h, chunks[..|chunks| - 1])
      case Err(e) => Err(e)
      case Ok(m) =>
        if h(c.data) != c.hash then Err(ChunkHashMismatch(c.index))
        else if c.hash in m then Ok(m) else Ok(m[c.hash := c])
  }

  function Pick(d: Descriptor, byHash: map<bytes, Chunk>): Result<Chunk> {
    if d.hash !in byHash then Err(MissingChunk(d.hash))
    else if byHash[d.hash].index != d.index then Err(ChunkIndexMismatch(d.index, byHash[d.hash].index))
    else Ok(byHash[d.hash])
  }

  function PickAll(ds: seq<Descriptor>, byHash: map<bytes, Chunk>): Result<seq<Chunk>> {
    if ds == [] then Ok([])
    else
      match PickAll(ds[..|ds| - 1], byHash)
      case Err(e) => Err(e)
      case Ok(cs) =>
        match Pick(ds[|ds| - 1], byHash)
        case Err(e) => Err(e)
        case Ok(c) => Ok(cs + [c])
  }

  ghost function Reassemble(h: HashFn, m: Manifest, chunks: seq<Chunk>): Result<bytes> {
    if Fault(m).Some? then Err(InvalidManifest(Fault(m).value))
    else
      match ByHash(h, chunks)
      case Err(e) => Err(e)
      case Ok(byHash) =>
        match PickAll(m.chunks, byHash)
        case Err(e) => Err(e)
        case Ok(ordered) =>
          if |Assembled(ordered)| != m.totalLen then Err(PayloadLengthMismatch(m.totalLen, |Assembled(ordered)|))
          else Ok(Assembled(ordered))
  }

  method IndexByHash(h: HashFn, chunks: seq<Chunk>) returns (r: Result<map<bytes, Chunk>>)
    ensures r == ByHash(h, chunks)
  {
    var byHash: map<bytes, Chunk> := map[];
    var i := 0;
    while i < |chunks|
      invariant 0 <= i <= |chunks|
      invariant ByHash(h, chunks[..i]) == Ok(byHash)
    {
      assert chunks[..i + 1][..i] == chunks[..i];
      var c := chunks[i];
      if h(c.data) != c.hash {
        ByHashStuck(h, chunks, i + 1);
        return Err(ChunkHashMismatch(c.index));
      }
      if c.hash !in byHash {
        byHash := byHash[c.hash := c];
      }
      i := i + 1;
    }
    assert chunks[..i] == chunks;
    r := Ok(byHash);
  }

  lemma {:induction false} ByHashStuck(h: HashFn, chunks: seq<Chunk>, i: nat)
    requires i <= |chunks| && ByHash(h, chunks[..i]).Err?
    ensures ByHash(h, chunks) == ByHash(h, chunks[..i])
    decreases |chunks| - i
  {
    if i < |chunks| {
      assert chunks[..i + 1][..i] == chunks[..i];
      ByHashStuck(h, chunks, i + 1);
    } else {
      assert chunks[..i] == chunks;
    }
  }

  method ReassembleWithManifest(h: HashFn, m: Manifest, chunks: seq<Chunk>) returns (r: Result<bytes>)
    ensures r == Reassemble(h, m, chunks)
  {
    hide Fault, ByHash, Pick, Assembled;
    var fault := ValidateManifest(m);
    if fault.Some? {
      return Err(InvalidManifest(fault.value));
    }
    var byHash := IndexByHash(h, chunks);
    if byHash.Err? {
      return Err(byHash.error);
    }
    var ordered: seq<Chunk> := [];
    var i := 0;
    while i < |m.chunks|
      invariant 0 <= i <= |m.chunks|
      invariant PickAll(m.chunks[..i], byHash.value) == Ok(ordered)
    {
      assert m.chunks[..i + 1][..i] == m.chunks[..i];
      var c := Pick(m.chunks[i], byHash.value);
      if c.Err? {
        PickStuck(m.chunks, byHash.value, i + 1);
        return Err(c.error);
      }
      ordered := ordered + [c.value];
      i := i + 1;
    }
    assert m.chunks[..i] == m.chunks;
    var payload := ReassembleChunks(ordered);
    if |payload| != m.totalLen {
      return Err(PayloadLengthMismatch(m.totalLen, |payload|));
    }
    r := Ok(payload);
  }

  lemma {:induction false} PickStuck(ds: seq<Descriptor>, byHash: map<bytes, Chunk>, i: nat)
    requires i <= |ds| && PickAll(ds[..i], byHash).Err?
    ensures PickAll(ds, byHash) == PickAll(ds[..i], byHash)
    decreases |ds| - i
  {
    hide Pick;
    if i < |ds| {
      assert ds[..i + 1][..i] == ds[..i];
      PickStuck(ds, byHash, i + 1);
    } else {
      assert ds[..i] == ds;
    }
  }

  ghost function ReassembleFrom(h: HashFn, m: Manifest, store: map<bytes, bytes>): Result<bytes> {
    match RecoverFrom(h, m, store)
    case Err(e) => Err(e)
    case Ok(chunks) => Reassemble(h, m, chunks)
  }

  method ReassemblePayloadFromStore(h: HashFn, m: Manifest, store: map<bytes, bytes>) returns (r: Result<bytes>)
    ensures r == ReassembleFrom(h, m, store)
  {
    var chunks := RecoverChunksFromStore(h, m, store);
    if chunks.Err? {
      return Err(chunks.error);
    }
    r := ReassembleWithManifest(h, m, chunks.value);
  }
}

/** What a manifest promises about the payload behind it. */
module ChunkTheorems {
  import opened Numbers
  import opened Hashing
  import opened Chunks
  import Sorting

  // ----- valid manifests -----

  /** A manifest has no fault exactly when its indices and its hashes are pairwise distinct and it
      does not announce a payload without chunks. */
  lemma {:induction false} FaultlessIff(m: Manifest)
    ensures Fault(m).None? <==> ValidManifest(m)
  {
    RepeatlessIff(m.chunks);
  }

  ghost predicate Distinct(ds: seq<Descriptor>) {
    && (forall i, j :: 0 <= i < j < |ds| ==> ds[i].index != ds[j].index)
    && (forall i, j :: 0 <= i < j < |ds| ==> ds[i].hash != ds[j].hash)
  }

  lemma {:induction false} RepeatlessIff(ds: seq<Descriptor>)
    ensures FirstRepeat(ds).None? <==> Distinct(ds)
  {
    if ds != [] {
      var init, d := ds[..|ds| - 1], ds[|ds| - 1];
      RepeatlessIff(init);
      assert forall i :: 0 <= i < |init| ==> init[i] == ds[i];
    }
  }

  /** With indices that never repeat, the only fault a list of descriptors can have is a hash. */
  lemma {:induction false} RepeatIsHash(ds: seq<Descriptor>)
    requires forall i, j :: 0 <= i < j < |ds| ==> ds[i].index != ds[j].index
    ensures FirstRepeat(ds).Some? ==> FirstRepeat(ds) == Some(DuplicateHash)
  {
    if ds != [] {
      var init := ds[..|ds| - 1];
      assert forall i :: 0 <= i < |init| ==> init[i] == ds[i];
      RepeatIsHash(init);
    }
  }

  // ----- successful steps, position by position -----

  lemma {:induction false} ByHashOk(h: HashFn, chunks: seq<Chunk>)
    ensures ByHash(h, chunks).Ok? <==> forall c :: c in chunks ==> h(c.data) == c.hash
    ensures ByHash(h, chunks).Ok? ==>
              && (forall k :: k in ByHash(h, chunks).value ==>
                    ByHash(h, chunks).value[k] in chunks && ByHash(h, chunks).value[k].hash == k)
              && (forall c :: c in chunks ==> c.hash in ByHash(h, chunks).value)
  {
    if chunks != [] {
      var init, c := chunks[..|chunks| - 1], chunks[|chunks| - 1];
      ByHashOk(h, init);
      assert forall x :: x in chunks <==> x in init || x == c;
    }
  }

  lemma {:induction false} PickAllOk(ds: seq<Descriptor>, byHash: map<bytes, Chunk>)
    ensures PickAll(ds, byHash).Ok? <==>
              forall i :: 0 <= i < |ds| ==> ds[i].hash in byHash && byHash[ds[i].hash].index == ds[i].index
    ensures PickAll(ds, byHash).Ok? ==>
              && |PickAll(ds, byHash).value| == |ds|
              && forall i :: 0 <= i < |ds| ==> PickAll(ds, byHash).value[i] == byHash[ds[i].hash]
  {
    if ds != [] {
      PickAllOk(ds[..|ds| - 1], byHash);
    }
  }

  /** The store answers the descriptor's hash with data that has it. */
  predicate Held(h: HashFn, d: Descriptor, store: map<bytes, bytes>) {
    d.hash in store && h(store[d.hash]) == d.hash
  }

  lemma {:induction false} FetchOk(h: HashFn, d: Descriptor, store: map<bytes, bytes>)
    ensures Fetch(h, d, store).Ok? <==> Held(h, d, store)
    ensures Held(h, d, store) ==> Fetch(h, d, store).value == Chunk(d.index, d.hash, store[d.hash])
  {
  }

  lemma {:induction false} FetchAllOk(h: HashFn, ds: seq<Descriptor>, store: map<bytes, bytes>)
    ensures FetchAll(h, ds, store).Ok? <==> forall i :: 0 <= i < |ds| ==> Held(h, ds[i], store)
    ensures FetchAll(h, ds, store).Ok? ==>
              && |FetchAll(h, ds, store).value| == |ds|
              && forall i :: 0 <= i < |ds| ==> Fetch(h, ds[i], store) == Ok(FetchAll(h, ds, store).value[i])
  {
    hide Fetch, Held;
    if ds != [] {
      var init, d := ds[..|ds| - 1], ds[|ds| - 1];
      FetchAllOk(h, init, store);
      FetchOk(h, d, store);
      assert forall i :: 0 <= i < |init| ==> init[i] == ds[i];
    }
  }

  // ----- which fault is reported -----

  /** The reported mismatch is the first delivered chunk that does not match its own hash. */
  lemma {:induction false} FirstMismatch(h: HashFn, chunks: seq<Chunk>) returns (i: nat)
    requires ByHash(h, chunks).Err?
    ensures i < |chunks| && h(chunks[i].data) != chunks[i].hash
    ensures forall j :: 0 <= j < i ==> h(chunks[j].data) == chunks[j].hash
    ensures ByHash(h, chunks).error == ChunkHashMismatch(chunks[i].index)
  {
    var init := chunks[..|chunks| - 1];
    if ByHash(h, init).Err? {
      i := FirstMismatch(h, init);
    } else {
      i := |chunks| - 1;
      ByHashOk(h, init);
      assert forall j :: 0 <= j < i ==> chunks[j] == init[j] && init[j] in init;
    }
  }

  lemma {:induction false} KeyOrigin(h: HashFn, chunks: seq<Chunk>, k: bytes)
    requires ByHash(h, chunks).Ok? && forall j :: 0 <= j < |chunks| ==> chunks[j].hash != k
    ensures k !in ByHash(h, chunks).value
  {
    hide ByHash;
    ByHashOk(h, chunks);
  }

  lemma {:induction false} ByHashStep(h: HashFn, chunks: seq<Chunk>)
    requires ByHash(h, chunks).Ok? && chunks != []
    ensures var init, c := chunks[..|chunks| - 1], chunks[|chunks| - 1];
            && ByHash(h, init).Ok?
            && ByHash(h, chunks).value
            == if c.hash in ByHash(h, init).value then ByHash(h, init).value else ByHash(h, init).value[c.hash := c]
  {
  }

  /** Of several chunks with one hash the first delivered is used. */
  lemma {:induction false} FirstOfHash(h: HashFn, chunks: seq<Chunk>, i: nat)
    requires ByHash(h, chunks).Ok? && i < |chunks|
    requires forall j :: 0 <= j < i ==> chunks[j].hash != chunks[i].hash
    ensures chunks[i].hash in ByHash(h, chunks).value && ByHash(h, chunks).value[chunks[i].hash] == chunks[i]
  {
    hide ByHash;
    var init := chunks[..|chunks| - 1];
    ByHashStep(h, chunks);
    if i < |init| {
      FirstOfHash(h, init, i);
    } else {
      KeyOrigin(h, init, chunks[i].hash);
    }
  }

  /** The reported fault is the first descriptor that cannot be served. */
  lemma {:induction false} FirstUnserved(ds: seq<Descriptor>, byHash: map<bytes, Chunk>) returns (i: nat)
    requires PickAll(ds, byHash).Err?
    ensures i < |ds| && forall j :: 0 <= j < i ==> ds[j].hash in byHash && byHash[ds[j].hash].index == ds[j].index
    ensures ds[i].hash !in byHash || byHash[ds[i].hash].index != ds[i].index
    ensures PickAll(ds, byHash).error
         == if ds[i].hash !in byHash then MissingChunk(ds[i].hash)
            else ChunkIndexMismatch(ds[i].index, byHash[ds[i].hash].index)
  {
    var init := ds[..|ds| - 1];
    if PickAll(init, byHash).Err? {
      i := FirstUnserved(init, byHash);
    } else {
      i := |ds| - 1;
      PickAllOk(init, byHash);
    }
  }

  lemma {:induction false} FirstUnheld(h: HashFn, ds: seq<Descriptor>, store: map<bytes, bytes>) returns (i: nat)
    requires FetchAll(h, ds, store).Err?
    ensures i < |ds| && !Held(h, ds[i], store) && forall j :: 0 <= j < i ==> Held(h, ds[j], store)
    ensures FetchAll(h, ds, store).error
         == if ds[i].hash !in store then MissingChunk(ds[i].hash) else ChunkHashMismatch(ds[i].index)
  {
    var init := ds[..|ds| - 1];
    if FetchAll(h, init, store).Err? {
      i := FirstUnheld(h, init, store);
    } else {
      i := |ds| - 1;
      FetchAllOk(h, init, store);
    }
  }

  // ----- a manifest determines its payload -----

  /** One chunk per descriptor, with its index and hash, taken from the delivered ones. */
  ghost predicate Answers(h: HashFn, m: Manifest, chunks: seq<Chunk>, picked: seq<Chunk>) {
    && |picked| == |m.chunks|
    && forall i :: 0 <= i < |picked| ==>
         && picked[i] in chunks && h(picked[i].data) == picked[i].hash
         && picked[i].index == m.chunks[i].index && picked[i].hash == m.chunks[i].hash
  }

  /** A successful reassembly is the index-ordered data of one matching chunk per descriptor,
      of exactly the announced length. */
  lemma {:induction false} ReassembledIs(h: HashFn, m: Manifest, chunks: seq<Chunk>) returns (picked: seq<Chunk>)
    requires Reassemble(h, m, chunks).Ok?
    ensures ValidManifest(m) && Answers(h, m, chunks, picked)
    ensures Reassemble(h, m, chunks).value == Assembled(picked)
    ensures |Reassemble(h, m, chunks).value| == m.totalLen
  {
    hide Assembled, ByHash, PickAll, Fault;
    FaultlessIff(m);
    var byHash := ByHash(h, chunks).value;
    ByHashOk(h, chunks);
    PickAllOk(m.chunks, byHash);
    picked := PickAll(m.chunks, byHash).value;
  }

  ghost function DataOf(chunks: seq<Chunk>): set<bytes> {
    set i | 0 <= i < |chunks| :: chunks[i].data
  }

  lemma {:induction false} AnswersAgree(h: HashFn, m: Manifest, a: seq<Chunk>, b: seq<Chunk>, p: seq<Chunk>, q: seq<Chunk>)
    requires Answers(h, m, a, p) && Answers(h, m, b, q)
    ensures p == q || Collide(h, DataOf(a), DataOf(b))
  {
    if i :| 0 <= i < |p| && p[i] != q[i] {
      var j :| 0 <= j < |a| && a[j] == p[i];
      var k :| 0 <= k < |b| && b[k] == q[i];
      CollideAt(h, DataOf(a), DataOf(b), p[i].data, q[i].data);
    }
  }

  /** Two successful reassemblies against one manifest, from any chunk lists, give the same bytes,
      or two different delivered data blocks have one digest. */
  lemma {:induction false} ManifestBindsPayload(h: HashFn, m: Manifest, a: seq<Chunk>, b: seq<Chunk>)
    requires Reassemble(h, m, a).Ok? && Reassemble(h, m, b).Ok?
    ensures Reassemble(h, m, a) == Reassemble(h, m, b) || Collide(h, DataOf(a), DataOf(b))
  {
    hide Collide, Answers, Reassemble;
    var p := ReassembledIs(h, m, a);
    var q := ReassembledIs(h, m, b);
    AnswersAgree(h, m, a, b, p, q);
  }

  /** The same for two stores. */
  lemma {:induction false} ManifestBindsStores(h: HashFn, m: Manifest, s: map<bytes, bytes>, t: map<bytes, bytes>)
    requires ReassembleFrom(h, m, s).Ok? && ReassembleFrom(h, m, t).Ok?
    ensures ReassembleFrom(h, m, s) == ReassembleFrom(h, m, t) || Collide(h, s.Values, t.Values)
  {
    hide Collide, Reassemble, RecoverFrom;
    var a, b := RecoverFrom(h, m, s).value, RecoverFrom(h, m, t).value;
    ManifestBindsPayload(h, m, a, b);
    RecoveredData(h, m, s);
    RecoveredData(h, m, t);
    if Reassemble(h, m, a) != Reassemble(h, m, b) {
      CollideWider(h, DataOf(a), DataOf(b), s.Values, t.Values);
    }
  }

  lemma {:induction false} RecoveredData(h: HashFn, m: Manifest, store: map<bytes, bytes>)
    requires RecoverFrom(h, m, store).Ok?
    ensures DataOf(RecoverFrom(h, m, store).value) <= store.Values
  {
    hide FetchAll;
    FetchAllOk(h, m.chunks, store);
    var cs := RecoverFrom(h, m, store).value;
    forall i | 0 <= i < |cs| ensures cs[i].data in store.Values {
      assert m.chunks[i].hash in store;
    }
  }

  // ----- the round trip -----

  lemma {:induction false} ChunkDataAt(h: HashFn, size: nat, data: bytes)
    requires data != [] ==> size > 0
    ensures var cs := ChunkData(h, size, data);
            && (forall i :: 0 <= i < |cs| ==> cs[i].index == i && cs[i].hash == h(cs[i].data))
            && (data == [] <==> cs == [])
  {
  }

  function JoinAll(pieces: seq<bytes>): bytes {
    if pieces == [] then [] else pieces[0] + JoinAll(pieces[1..])
  }

  /** Pieces put together are the data, and all but the last have the full size. */
  lemma {:induction false} PiecesJoin(size: nat, data: bytes)
    requires size > 0
    ensures JoinAll(Pieces(size, data)) == data
    ensures var ps := Pieces(size, data);
            && (forall i :: 0 <= i < |ps| - 1 ==> |ps[i]| == size)
            && (ps != [] ==> 0 < |ps[|ps| - 1]| <= size)
    decreases |data|
  {
    if |data| > size {
      PiecesJoin(size, data[size..]);
      var ps := Pieces(size, data);
      assert ps[1..] == Pieces(size, data[size..]);
      assert data == data[..size] + data[size..];
    } else if data != [] {
      assert Pieces(size, data)[1..] == [];
    }
  }

  lemma {:induction false} JoinAllSnoc(pieces: seq<bytes>, x: bytes)
    ensures JoinAll(pieces + [x]) == JoinAll(pieces) + x
  {
    if pieces == [] {
      assert pieces + [x] == [x];
      assert [x][1..] == [];
    } else {
      JoinAllSnoc(pieces[1..], x);
      assert (pieces + [x])[1..] == pieces[1..] + [x];
    }
  }

  lemma {:induction false} JoinIsJoinAll(chunks: seq<Chunk>, pieces: seq<bytes>)
    requires |chunks| == |pieces| && forall i :: 0 <= i < |chunks| ==> chunks[i].data == pieces[i]
    ensures Join(chunks) == JoinAll(pieces)
  {
    if chunks != [] {
      var n := |chunks| - 1;
      JoinIsJoinAll(chunks[..n], pieces[..n]);
      JoinAllSnoc(pieces[..n], pieces[n]);
      assert pieces == pieces[..n] + [pieces[n]];
    }
  }

  /** The chunks of a payload, in any arrangement, are put back together as the payload. */
  lemma {:induction false} AssembledIsPayload(h: HashFn, size: nat, data: bytes, shuffled: seq<Chunk>)
    requires data != [] ==> size > 0
    requires multiset(shuffled) == multiset(ChunkData(h, size, data))
    ensures Assembled(shuffled) == data
  {
    hide Sorting.Sort;
    var cs := ChunkData(h, size, data);
    ChunkDataAt(h, size, data);
    Sorting.SortRestores(IndexOf, shuffled, cs);
    if data != [] {
      JoinIsJoinAll(cs, Pieces(size, data));
      PiecesJoin(size, data);
    }
  }

  ghost predicate DistinctHashes(chunks: seq<Chunk>) {
    forall i, j :: 0 <= i < j < |chunks| ==> chunks[i].hash != chunks[j].hash
  }

  lemma {:induction false} ManifestFaultIff(h: HashFn, size: nat, data: bytes)
    requires data != [] ==> size > 0
    ensures Fault(ManifestOf(h, size, data))
         == if DistinctHashes(ChunkData(h, size, data)) then None else Some(DuplicateHash)
  {
    hide ChunkData, FirstRepeat;
    ChunkDataAt(h, size, data);
    var m, cs := ManifestOf(h, size, data), ChunkData(h, size, data);
    assert forall i :: 0 <= i < |cs| ==> m.chunks[i].hash == cs[i].hash && m.chunks[i].index == i;
    RepeatlessIff(m.chunks);
    RepeatIsHash(m.chunks);
  }

  /** Chunking, describing and delivering the chunks in any order, with repeats, gives back the
      payload exactly when no two chunks have one hash; otherwise the manifest is rejected. */
  lemma {:induction false} RoundTripIff(h: HashFn, size: nat, payload: bytes, delivered: seq<Chunk>)
    requires payload != [] ==> size > 0
    requires forall c :: c in delivered <==> c in ChunkData(h, size, payload)
    ensures Reassemble(h, ManifestOf(h, size, payload), delivered)
         == if DistinctHashes(ChunkData(h, size, payload)) then Ok(payload) else Err(InvalidManifest(DuplicateHash))
  {
    hide ChunkData, ManifestOf, ByHash, PickAll, Assembled, Fault;
    ManifestFaultIff(h, size, payload);
    var cs := ChunkData(h, size, payload);
    if DistinctHashes(cs) {
      ByHashOk(h, delivered);
      ChunkDataAt(h, size, payload);
      forall c | c in delivered ensures h(c.data) == c.hash {
        var i :| 0 <= i < |cs| && cs[i] == c;
      }
      PickedAreChunks(h, size, payload, delivered);
      AssembledIsPayload(h, size, payload, cs);
      ManifestLength(h, size, payload);
    }
  }

  lemma ManifestLength(h: HashFn, size: nat, payload: bytes)
    requires payload != [] ==> size > 0
    ensures ManifestOf(h, size, payload).totalLen == |payload|
  {
  }

  lemma {:induction false} PickedAreChunks(h: HashFn, size: nat, payload: bytes, delivered: seq<Chunk>)
    requires payload != [] ==> size > 0
    requires forall c :: c in delivered <==> c in ChunkData(h, size, payload)
    requires DistinctHashes(ChunkData(h, size, payload)) && ByHash(h, delivered).Ok?
    ensures PickAll(ManifestOf(h, size, payload).chunks, ByHash(h, delivered).value)
         == Ok(ChunkData(h, size, payload))
  {
    hide ChunkData, ByHash, PickAll;
    var cs, m, byHash := ChunkData(h, size, payload), ManifestOf(h, size, payload), ByHash(h, delivered).value;
    ByHashOk(h, delivered);
    forall i | 0 <= i < |cs| ensures cs[i].hash in byHash && byHash[cs[i].hash] == cs[i] {
      assert cs[i] in delivered;
      var found := byHash[cs[i].hash];
      assert found in cs;
      var j :| 0 <= j < |cs| && cs[j] == found;
    }
    PickAllOk(m.chunks, byHash);
    assert PickAll(m.chunks, byHash).value == cs;
  }

  /** The same through a store that answers every chunk hash with its data. */
  lemma {:induction false} StoreRoundTripIff(h: HashFn, size: nat, payload: bytes, store: map<bytes, bytes>)
    requires payload != [] ==> size > 0
    requires forall c :: c in ChunkData(h, size, payload) ==> c.hash in store && store[c.hash] == c.data
    ensures ReassembleFrom(h, ManifestOf(h, size, payload), store)
         == if DistinctHashes(ChunkData(h, size, payload)) then Ok(payload) else Err(InvalidManifest(DuplicateHash))
  {
    hide ChunkData, Reassemble, Fault, FetchAll;
    ManifestFaultIff(h, size, payload);
    var m, cs := ManifestOf(h, size, payload), ChunkData(h, size, payload);
    if DistinctHashes(cs) {
      FetchAllOk(h, m.chunks, store);
      ChunkDataAt(h, size, payload);
      forall i | 0 <= i < |cs|
        ensures m.chunks[i] == Descriptor(cs[i].index, cs[i].hash) && cs[i].hash in store
             && store[cs[i].hash] == cs[i].data && h(cs[i].data) == cs[i].hash
      {
        assert cs[i] in cs;
      }
      assert FetchAll(h, m.chunks, store).value == cs;
      RoundTripIff(h, size, payload, cs);
    }
  }

  /** In particular a payload that repeats a chunk cannot be reassembled at all, whatever is
      delivered. */
  lemma {:induction false} RepeatedChunkRejected(h: HashFn, size: nat, payload: bytes, i: nat, j: nat, delivered: seq<Chunk>)
    requires size > 0 && i < j < |Pieces(size, payload)| && Pieces(size, payload)[i] == Pieces(size, payload)[j]
    ensures Reassemble(h, ManifestOf(h, size, payload), delivered) == Err(InvalidManifest(DuplicateHash))
  {
    hide Fault, ByHash, PickAll, Assembled, ManifestOf;
    var cs := ChunkData(h, size, payload);
    assert cs[i].hash == cs[j].hash;
    ManifestFaultIff(h, size, payload);
  }

  // ----- with other chunks among the delivered ones -----

  /** The first delivered chunk with its hash. */
  ghost predicate FirstWithHash(delivered: seq<Chunk>, j: nat) {
    j < |delivered| && forall i :: 0 <= i < j ==> delivered[i].hash != delivered[j].hash
  }

  /** Chunk `i` is answered by a chunk of the same hash that carries another index. */
  ghost predicate Misindexed(cs: seq<Chunk>, delivered: seq<Chunk>, i: nat, j: nat) {
    && i < |cs| && FirstWithHash(delivered, j)
    && delivered[j].hash == cs[i].hash && delivered[j].index != cs[i].index
  }

  ghost predicate MisindexReported(cs: seq<Chunk>, delivered: seq<Chunk>, r: Result<bytes>) {
    exists i: nat, j: nat :: Misindexed(cs, delivered, i, j) && r == Err(ChunkIndexMismatch(i, delivered[j].index))
  }

  lemma {:induction false} FirstExists(delivered: seq<Chunk>, k: nat) returns (j: nat)
    requires k < |delivered|
    ensures FirstWithHash(delivered, j) && delivered[j].hash == delivered[k].hash
  {
    if i :| 0 <= i < k && delivered[i].hash == delivered[k].hash {
      j := FirstExists(delivered, i);
    } else {
      j := k;
    }
  }

  /** What is picked for chunk `i`: the chunk itself, its data under another index, or data that
      collides with it. */
  lemma {:induction false} PickedFor(h: HashFn, cs: seq<Chunk>, delivered: seq<Chunk>, i: nat) returns (j: nat)
    requires i < |cs| && cs[i] in delivered && h(cs[i].data) == cs[i].hash && ByHash(h, delivered).Ok?
    ensures FirstWithHash(delivered, j) && delivered[j].hash == cs[i].hash
    ensures cs[i].hash in ByHash(h, delivered).value && ByHash(h, delivered).value[cs[i].hash] == delivered[j]
    ensures delivered[j] == cs[i] || Misindexed(cs, delivered, i, j) || Collide(h, DataOf(cs), DataOf(delivered))
  {
    hide ByHash, Collide;
    var k :| 0 <= k < |delivered| && delivered[k] == cs[i];
    j := FirstExists(delivered, k);
    FirstOfHash(h, delivered, j);
    ByHashOk(h, delivered);
    assert delivered[j] in delivered;
    if delivered[j].data != cs[i].data {
      CollideAt(h, DataOf(cs), DataOf(delivered), cs[i].data, delivered[j].data);
    }
  }

  /** Delivered in any order among any other chunks that match their own hashes, the chunks of a
      payload give back the payload; or a chunk with the same hash under another index came
      first and is reported; or two delivered blocks have one digest. */
  lemma {:induction false} RoundTripAmongOthers(h: HashFn, size: nat, payload: bytes, delivered: seq<Chunk>)
    requires payload != [] ==> size > 0
    requires DistinctHashes(ChunkData(h, size, payload))
    requires forall c :: c in ChunkData(h, size, payload) ==> c in delivered
    requires forall c :: c in delivered ==> h(c.data) == c.hash
    ensures var cs, r := ChunkData(h, size, payload), Reassemble(h, ManifestOf(h, size, payload), delivered);
            || r == Ok(payload)
            || MisindexReported(cs, delivered, r)
            || Collide(h, DataOf(cs), DataOf(delivered))
  {
    hide ChunkData, ManifestOf, ByHash, PickAll, Assembled, Fault, Collide, Reassemble;
    var cs, m := ChunkData(h, size, payload), ManifestOf(h, size, payload);
    ManifestFaultIff(h, size, payload);
    ManifestAt(h, size, payload);
    ByHashOk(h, delivered);
    ReassembleAfterPick(h, m, delivered);
    if PickAll(m.chunks, ByHash(h, delivered).value).Err? {
      var i, j := FaultAmongOthers(h, cs, m, delivered);
      assert Misindexed(cs, delivered, i, j);
      assert MisindexReported(cs, delivered, Reassemble(h, m, delivered));
    } else if !Collide(h, DataOf(cs), DataOf(delivered)) {
      PickedAreRight(h, cs, m, delivered);
      AssembledIsPayload(h, size, payload, cs);
    }
  }

  lemma {:induction false} ManifestAt(h: HashFn, size: nat, payload: bytes)
    requires payload != [] ==> size > 0
    ensures var m, cs := ManifestOf(h, size, payload), ChunkData(h, size, payload);
            && m.totalLen == |payload| && |m.chunks| == |cs|
            && forall i :: 0 <= i < |cs| ==>
                 && m.chunks[i] == Descriptor(cs[i].index, cs[i].hash) && cs[i].index == i
                 && cs[i] in cs && h(cs[i].data) == cs[i].hash
  {
    hide ChunkData;
    ChunkDataAt(h, size, payload);
  }

  lemma {:induction false} ReassembleAfterPick(h: HashFn, m: Manifest, delivered: seq<Chunk>)
    requires Fault(m).None? && ByHash(h, delivered).Ok?
    ensures var picked := PickAll(m.chunks, ByHash(h, delivered).value);
            && (picked.Err? ==> Reassemble(h, m, delivered) == Err(picked.error))
            && (picked.Ok? ==>
                  Reassemble(h, m, delivered)
                  == if |Assembled(picked.value)| == m.totalLen then Ok(Assembled(picked.value))
                     else Err(PayloadLengthMismatch(m.totalLen, |Assembled(picked.value)|)))
  {
    hide Fault, ByHash, PickAll, Assembled;
  }

  lemma {:induction false} FaultAmongOthers(h: HashFn, cs: seq<Chunk>, m: Manifest, delivered: seq<Chunk>)
    returns (i: nat, j: nat)
    requires |m.chunks| == |cs|
    requires forall i :: 0 <= i < |cs| ==> m.chunks[i] == Descriptor(cs[i].index, cs[i].hash) && cs[i].index == i
    requires forall i :: 0 <= i < |cs| ==> cs[i] in delivered && h(cs[i].data) == cs[i].hash
    requires ByHash(h, delivered).Ok? && PickAll(m.chunks, ByHash(h, delivered).value).Err?
    ensures Misindexed(cs, delivered, i, j)
    ensures PickAll(m.chunks, ByHash(h, delivered).value).error == ChunkIndexMismatch(i, delivered[j].index)
  {
    hide ByHash, PickAll, Collide;
    i := FirstUnserved(m.chunks, ByHash(h, delivered).value);
    j := PickedFor(h, cs, delivered, i);
  }

  lemma {:induction false} PickedAreRight(h: HashFn, cs: seq<Chunk>, m: Manifest, delivered: seq<Chunk>)
    requires |m.chunks| == |cs|
    requires forall i :: 0 <= i < |cs| ==> m.chunks[i] == Descriptor(cs[i].index, cs[i].hash)
    requires forall i :: 0 <= i < |cs| ==> cs[i] in delivered && h(cs[i].data) == cs[i].hash
    requires ByHash(h, delivered).Ok? && PickAll(m.chunks, ByHash(h, delivered).value).Ok?
    requires !Collide(h, DataOf(cs), DataOf(delivered))
    ensures PickAll(m.chunks, ByHash(h, delivered).value).value == cs
  {
    hide ByHash, PickAll, Collide;
    var byHash := ByHash(h, delivered).value;
    PickAllOk(m.chunks, byHash);
    forall i | 0 <= i < |cs| ensures byHash[cs[i].hash] == cs[i] {
      var j := PickedFor(h, cs, delivered, i);
    }
  }
}
