/** The group replica: commits applied in epoch order, gaps closed by recovery. */
module MlsGroup {
  import opened Numbers
  import opened Hashing
  import opened Members
  import opened MlsExtensions
  import Sorting

  datatype Context = Context(protoSuite: ProtoSuite, flags: byte, cfgHashId: u16, cfgHash: bytes,
                             extensions: seq<bytes>)

  datatype Secrets = Secrets(epoch: nat, groupSecret: bytes)

  datatype GroupState = GroupState(epoch: nat, context: Context, members: seq<string>, secrets: Secrets)

  datatype Commit = Commit(
    epoch: nat, protoSuite: Option<ProtoSuite>, flags: Option<byte>, cfgHashId: Option<u16>,
    cfgHash: Option<bytes>, groupSecret: Option<bytes>, added: seq<string>, removed: seq<string>)

  datatype Outcome = Applied | OutOfOrder(expected: nat, received: nat) | UnsupportedHashId(id: u16) | Panicked

  const SHA256_ID: u16 := 1

  function Extensions(p: ProtoSuite, flags: byte, hashId: u16, hash: bytes): seq<bytes>
    requires |hash| <= 255
  {
    [ProtoSuiteExtension(p, flags), CfgHashExtension(hashId, hash)]
  }

  function Rebuilt(c: Context): Context
    requires |c.cfgHash| <= 255
  {
    c.(extensions := Extensions(c.protoSuite, c.flags, c.cfgHashId, c.cfgHash))
  }

  /** A 64-bit number as eight bytes, the highest first. */
  function EightBytes(n: u64): (s: bytes)
    ensures |s| == 8 && FromBigEndian(s) == n
  {
    assert Pow256(8) == 0x1_0000_0000 * Pow256(4) by {
      assert Pow256(8) == 256 * Pow256(7) && Pow256(7) == 256 * Pow256(6);
      assert Pow256(6) == 256 * Pow256(5) && Pow256(5) == 256 * Pow256(4);
    }
    assert Pow256(4) == 0x1_0000_0000;
    FromToBigEndian(n, 8);
    ToBigEndian(n, 8)
  }

  function DeriveSecret(h: HashFn, seed: bytes, epoch: nat): bytes {
    h(seed + EightBytes(epoch % 0x1_0000_0000_0000_0000))
  }

  function OrElse<T>(o: Option<T>, default: T): T {
    if o.Some? then o.value else default
  }

  /** A commit that any group with a short configuration hash can apply. */
  predicate Supported(c: Commit) {
    (c.cfgHashId.Some? ==> c.cfgHashId.value == SHA256_ID) && (c.cfgHash.Some? ==> |c.cfgHash.value| <= 255)
  }

  /** Panicked: a configuration hash longer than 255 bytes trips the extension builder's assertion. */
  function Offer(g: GroupState, c: Commit): Outcome {
    if c.epoch != g.epoch + 1 then OutOfOrder(g.epoch + 1, c.epoch)
    else if c.cfgHashId.Some? && c.cfgHashId.value != SHA256_ID then UnsupportedHashId(c.cfgHashId.value)
    else if |OrElse(c.cfgHash, g.context.cfgHash)| > 255 then Panicked
    else Applied
  }

  /** The first two context updates of a commit, and then the other two. */
  function EarlyContext(x: Context, c: Commit): Context {
    x.(protoSuite := OrElse(c.protoSuite, x.protoSuite), flags := OrElse(c.flags, x.flags))
  }

  function LateContext(x: Context, c: Commit): Context {
    EarlyContext(x, c).(cfgHashId := OrElse(c.cfgHashId, x.cfgHashId), cfgHash := OrElse(c.cfgHash, x.cfgHash))
  }

  /** The state after a commit was offered. An unsupported hash id is noticed only after the
      protocol suite and the flags have been written. */
  function After(h: HashFn, g: GroupState, c: Commit): GroupState {
    var members := RetainAll(AddAll(g.members, c.added), c.removed);
    match Offer(g, c)
    case OutOfOrder(_, _) => g
    case UnsupportedHashId(_) => g.(context := EarlyContext(g.context, c))
    case Panicked => GroupState(g.epoch, LateContext(g.context, c), members, NextSecrets(h, g.secrets, c))
    case Applied => GroupState(c.epoch, Rebuilt(LateContext(g.context, c)), members, NextSecrets(h, g.secrets, c))
  }

  function NextSecrets(h: HashFn, s: Secrets, c: Commit): Secrets {
    if c.groupSecret.Some? then Secrets(c.epoch, c.groupSecret.value)
    else if c.epoch != s.epoch then Secrets(c.epoch, DeriveSecret(h, s.groupSecret, c.epoch))
    else s
  }

  /** A commit refused with an error leaves the group as it was exactly when it is out of order,
      or carries no new protocol suite and no new flags. */
  lemma RefusalUntouchedIff(h: HashFn, g: GroupState, c: Commit)
    requires c.epoch != g.epoch + 1 || (c.cfgHashId.Some? && c.cfgHashId.value != SHA256_ID)
    ensures After(h, g, c) == g <==>
              || c.epoch != g.epoch + 1
              || (&& (c.protoSuite == None || c.protoSuite.value == g.context.protoSuite)
                  && (c.flags == None || c.flags.value == g.context.flags))
    ensures c.epoch == g.epoch + 1 ==>
              && After(h, g, c) == g.(context := After(h, g, c).context)
              && After(h, g, c).context
              == g.context.(protoSuite := if c.protoSuite.Some? then c.protoSuite.value else g.context.protoSuite,
                            flags := if c.flags.Some? then c.flags.value else g.context.flags)
  {
    hide AddAll, RetainAll, Rebuilt, NextSecrets;
  }

  /** The next commit for a group, changing nothing. */
  function EmptyCommit(epoch: nat): Commit {
    Commit(epoch, None, None, None, None, None, [], [])
  }

  /** In any group the next commit, with another suite and hash id 2, is refused and leaves the
      other suite behind. */
  lemma RefusedCommitLeavesItsSuite(h: HashFn, g: GroupState, suite: ProtoSuite)
    requires suite != g.context.protoSuite
    ensures var c := EmptyCommit(g.epoch + 1).(protoSuite := Some(suite), cfgHashId := Some(2));
            && Offer(g, c) == UnsupportedHashId(2)
            && After(h, g, c) == g.(context := g.context.(protoSuite := suite)) && After(h, g, c) != g
  {
  }

  /** A commit is applied exactly when it is for the next epoch, names no hash id but 1, and leaves a
      configuration hash of at most 255 bytes. */
  lemma AppliedIff(g: GroupState, c: Commit)
    ensures Offer(g, c) == Applied
       <==> && c.epoch == g.epoch + 1 && (c.cfgHashId == None || c.cfgHashId.value == 1)
            && (if c.cfgHash.Some? then |c.cfgHash.value| <= 255 else |g.context.cfgHash| <= 255)
  {
  }

  /** What an applied commit leaves, field by field: each context field is the commit's if it brings
      one and the old one otherwise, the two extensions read back as those fields, and epoch
      and secrets are at the next epoch. */
  lemma {:induction false} AppliedContext(h: HashFn, g: GroupState, c: Commit)
    requires Offer(g, c) == Applied
    ensures var x := After(h, g, c).context;
            && x.protoSuite == (if c.protoSuite.Some? then c.protoSuite.value else g.context.protoSuite)
            && x.flags == (if c.flags.Some? then c.flags.value else g.context.flags)
            && x.cfgHashId == (if c.cfgHashId.Some? then c.cfgHashId.value else g.context.cfgHashId)
            && x.cfgHash == (if c.cfgHash.Some? then c.cfgHash.value else g.context.cfgHash)
            && |x.extensions| == 2
            && ReadProtoSuite(x.extensions[0]) == Some((x.protoSuite, x.flags))
            && ReadCfgHash(x.extensions[1]) == Some((x.cfgHashId, x.cfgHash))
    ensures After(h, g, c).epoch == g.epoch + 1
  {
    hide AddAll, RetainAll, NextSecrets, ReadProtoSuite, ReadCfgHash, ProtoSuiteExtension, CfgHashExtension;
    var x := After(h, g, c).context;
    ProtoSuiteReadsIff(x.extensions[0], x.protoSuite, x.flags);
    CfgHashReadsIff(x.extensions[1], x.cfgHashId, x.cfgHash);
  }

  /** After an applied commit the secrets are of the new epoch. The secret is the commit's own if it
      brings one; else the digest of the old secret and the new epoch as eight big-endian bytes,
      unless the secrets had already been moved to that epoch by a commit that then panicked. */
  lemma {:induction false} AppliedSecret(h: HashFn, g: GroupState, c: Commit)
    requires Offer(g, c) == Applied && g.epoch + 1 < 0x1_0000_0000_0000_0000
    ensures After(h, g, c).secrets.epoch == g.epoch + 1
    ensures After(h, g, c).secrets.groupSecret
         == if c.groupSecret.Some? then c.groupSecret.value
            else if g.secrets.epoch == g.epoch + 1 then g.secrets.groupSecret
            else h(g.secrets.groupSecret + EightBytes(g.epoch + 1))
  {
    AppliedNext(h, g, c);
    hide After, Offer, EightBytes, NextSecrets;
    NextSecretsAre(h, g.secrets, c);
  }

  lemma NextSecretsAre(h: HashFn, s: Secrets, c: Commit)
    requires c.epoch < 0x1_0000_0000_0000_0000
    ensures NextSecrets(h, s, c).epoch == c.epoch
    ensures NextSecrets(h, s, c).groupSecret
         == if c.groupSecret.Some? then c.groupSecret.value
            else if s.epoch == c.epoch then s.groupSecret
            else h(s.groupSecret + EightBytes(c.epoch))
  {
    DerivedFrom(h, s.groupSecret, c.epoch);
    hide EightBytes, DeriveSecret;
  }

  lemma DerivedFrom(h: HashFn, seed: bytes, epoch: nat)
    requires epoch < 0x1_0000_0000_0000_0000
    ensures DeriveSecret(h, seed, epoch) == h(seed + EightBytes(epoch))
  {
    hide EightBytes;
    assert epoch % 0x1_0000_0000_0000_0000 == epoch;
  }

  lemma AppliedNext(h: HashFn, g: GroupState, c: Commit)
    requires Offer(g, c) == Applied
    ensures After(h, g, c).secrets == NextSecrets(h, g.secrets, c) && c.epoch == g.epoch + 1
  {
    hide AddAll, RetainAll, Rebuilt, NextSecrets;
  }

  /** An applied commit leaves exactly the old and added members that it does not remove; a member
      both added and removed is gone. */
  lemma {:induction false} MembersAfter(h: HashFn, g: GroupState, c: Commit, who: string)
    requires Offer(g, c) == Applied
    ensures who in After(h, g, c).members <==> (who in g.members || who in c.added) && who !in c.removed
  {
    hide AddAll, RetainAll, Rebuilt, NextSecrets;
    AddAllMember(g.members, c.added, who);
    RetainAllMember(AddAll(g.members, c.added), c.removed, who);
  }

  // ----- recovery -----

  datatype Gap = Current | Next | Stale | Missing(epochs: seq<nat>)

  function Range(a: nat, b: nat): (r: seq<nat>)
    ensures |r| == if a < b then b - a else 0
    ensures forall i :: 0 <= i < |r| ==> r[i] == a + i
  {
    if a < b then seq(b - a, i requires 0 <= i => a + i) else []
  }

  function DetectGap(local: nat, received: nat): Gap {
    if received == local then Current
    else if received == local + 1 then Next
    else if received < local then Stale
    else Missing(Range(local + 1, received))
  }

  /** A received epoch is the local one, the next one, an earlier one, or leaves out exactly the epochs
      strictly between. */
  lemma GapMeans(local: nat, received: nat)
    ensures DetectGap(local, received) == Current <==> received == local
    ensures DetectGap(local, received) == Next <==> received == local + 1
    ensures DetectGap(local, received) == Stale <==> received < local
    ensures DetectGap(local, received).Missing? ==>
              && received > local + 1
              && forall e :: e in DetectGap(local, received).epochs <==> local < e < received
    ensures DetectGap(local, received).Missing? ==>
              && var es := DetectGap(local, received).epochs;
              && forall i, j :: 0 <= i < j < |es| ==> es[i] < es[j]
  {
    if received > local + 1 {
      var es := Range(local + 1, received);
      forall e | local < e < received ensures e in es {
        assert es[e - local - 1] == e;
      }
    }
  }

  function EpochOf(c: Commit): nat {
    c.epoch
  }

  function SortByEpoch(s: seq<Commit>): seq<Commit> {
    Sorting.Sort(EpochOf, Sorting.NatLeq, s)
  }

  function Epochs(s: seq<Commit>): (r: seq<nat>)
    ensures |r| == |s| && forall i :: 0 <= i < |s| ==> r[i] == s[i].epoch
  {
    seq(|s|, i requires 0 <= i < |s| => s[i].epoch)
  }

  /** Commits applied one after another, stopping at the first that is not applied. */
  function ApplyAll(h: HashFn, g: GroupState, cs: seq<Commit>): (Outcome, GroupState) {
    if cs == [] then (Applied, g)
    else
      var (o, mid) := ApplyAll(h, g, cs[..|cs| - 1]);
      if o != Applied then (o, mid)
      else
        var c := cs[|cs| - 1];
        (Offer(mid, c), After(h, mid, c))
  }

  /** Recovery: sort the missing commits, insist on exactly the missing epochs, apply them all,
      then the target. */
  function Recover(h: HashFn, g: GroupState, target: Commit, missing: seq<Commit>): (Outcome, GroupState) {
    match DetectGap(g.epoch, target.epoch)
    case Missing(epochs) =>
      if Epochs(SortByEpoch(missing)) != epochs then (OutOfOrder(g.epoch + 1, target.epoch), g)
      else ApplyAll(h, g, SortByEpoch(missing) + [target])
    case _ => (Offer(g, target), After(h, g, target))
  }

  // ----- a replica fed from one chain -----

  /** Commit `i` of the chain is for epoch `i + 1`, and every commit is supported. */
  ghost predicate Chain(chain: seq<Commit>) {
    forall i :: 0 <= i < |chain| ==> chain[i].epoch == i + 1 && Supported(chain[i])
  }

  ghost predicate Fresh(g: GroupState) {
    g.epoch == 0 && |g.context.cfgHash| <= 255
  }

  /** The state after the first `n` commits, in order. */
  function StateAt(h: HashFn, g0: GroupState, chain: seq<Commit>, n: nat): GroupState
    requires n <= |chain|
  {
    if n == 0 then g0 else After(h, StateAt(h, g0, chain, n - 1), chain[n - 1])
  }

  lemma {:induction false} ChainApplies(h: HashFn, g0: GroupState, chain: seq<Commit>, n: nat)
    requires Chain(chain) && Fresh(g0) && n <= |chain|
    ensures StateAt(h, g0, chain, n).epoch == n && |StateAt(h, g0, chain, n).context.cfgHash| <= 255
    ensures n < |chain| ==> Offer(StateAt(h, g0, chain, n), chain[n]) == Applied
  {
    hide After;
    if n > 0 {
      ChainApplies(h, g0, chain, n - 1);
      AppliedFacts(h, StateAt(h, g0, chain, n - 1), chain[n - 1]);
    }
  }

  lemma AppliedFacts(h: HashFn, g: GroupState, c: Commit)
    requires Offer(g, c) == Applied
    ensures After(h, g, c).epoch == c.epoch && |After(h, g, c).context.cfgHash| <= 255
  {
  }

  /** Something a replica may be asked to do. */
  datatype Call = Apply(commit: Commit) | ApplyWithRecovery(target: Commit, missing: seq<Commit>)

  function Perform(h: HashFn, g: GroupState, call: Call): (Outcome, GroupState) {
    match call
    case Apply(c) => (Offer(g, c), After(h, g, c))
    case ApplyWithRecovery(target, missing) => Recover(h, g, target, missing)
  }

  ghost predicate FromChain(call: Call, chain: seq<Commit>) {
    match call
    case Apply(c) => c in chain
    case ApplyWithRecovery(target, missing) => target in chain && forall c :: c in missing ==> c in chain
  }

  /** Applying the chain's next commits from epoch `from`. */
  lemma {:induction false} ApplySlice(h: HashFn, g0: GroupState, chain: seq<Commit>, from: nat, end: nat)
    requires Chain(chain) && Fresh(g0) && from <= end <= |chain|
    ensures ApplyAll(h, StateAt(h, g0, chain, from), chain[from..end]) == (Applied, StateAt(h, g0, chain, end))
    decreases end
  {
    hide After, Offer, Supported, ApplyAll, StateAt;
    if from < end {
      var last, prior := chain[end - 1], StateAt(h, g0, chain, end - 1);
      ApplySlice(h, g0, chain, from, end - 1);
      ChainApplies(h, g0, chain, end - 1);
      StateStep(h, g0, chain, end);
      ApplyAllSnoc(h, StateAt(h, g0, chain, from), chain[from..end - 1], last, prior);
      assert chain[from..end - 1] + [last] == chain[from..end];
    } else {
      assert chain[from..end] == [];
      ApplyNone(h, StateAt(h, g0, chain, from));
    }
  }

  lemma StateStep(h: HashFn, g0: GroupState, chain: seq<Commit>, n: nat)
    requires 0 < n <= |chain|
    ensures StateAt(h, g0, chain, n) == After(h, StateAt(h, g0, chain, n - 1), chain[n - 1])
  {
  }

  lemma ApplyNone(h: HashFn, g: GroupState)
    ensures ApplyAll(h, g, []) == (Applied, g)
  {
  }

  lemma {:induction false} ApplyAllSnoc(h: HashFn, g: GroupState, cs: seq<Commit>, c: Commit, mid: GroupState)
    requires ApplyAll(h, g, cs) == (Applied, mid)
    ensures ApplyAll(h, g, cs + [c]) == (Offer(mid, c), After(h, mid, c))
  {
    hide After, Offer;
    assert (cs + [c])[..|cs|] == cs;
  }

  lemma {:induction false} OfferOne(h: HashFn, g0: GroupState, chain: seq<Commit>, n: nat, c: Commit)
    requires Chain(chain) && Fresh(g0) && n <= |chain| && c in chain
    ensures var g := StateAt(h, g0, chain, n);
            if c.epoch == n + 1 then Offer(g, c) == Applied && n < |chain| && After(h, g, c) == StateAt(h, g0, chain, n + 1)
            else Offer(g, c) == OutOfOrder(n + 1, c.epoch) && After(h, g, c) == g
  {
    hide After, Offer, Supported, StateAt;
    ChainApplies(h, g0, chain, n);
    var i :| 0 <= i < |chain| && chain[i] == c;
    if c.epoch == n + 1 {
      StateStep(h, g0, chain, n + 1);
    } else {
      OutOfTurn(h, StateAt(h, g0, chain, n), c);
    }
  }

  lemma OutOfTurn(h: HashFn, g: GroupState, c: Commit)
    requires c.epoch != g.epoch + 1
    ensures Offer(g, c) == OutOfOrder(g.epoch + 1, c.epoch) && After(h, g, c) == g
  {
    hide Rebuilt, NextSecrets, AddAll, RetainAll;
  }

  lemma {:induction false} SortByEpochContents(s: seq<Commit>)
    ensures forall x :: x in SortByEpoch(s) <==> x in s
  {
    Sorting.SortContents(EpochOf, Sorting.NatLeq, s);
  }

  /** Chain commits whose sorted epochs are exactly a range are that slice of the chain. */
  lemma {:induction false} SortedIsSlice(chain: seq<Commit>, missing: seq<Commit>, from: nat, end: nat)
    requires Chain(chain) && from <= end && (forall c :: c in missing ==> c in chain)
    requires Epochs(SortByEpoch(missing)) == Range(from + 1, end + 1)
    requires end <= |chain|
    ensures SortByEpoch(missing) == chain[from..end]
  {
    var s := SortByEpoch(missing);
    SortByEpochContents(missing);
    hide SortByEpoch;
    assert |s| == |Epochs(s)| == end - from;
    forall i | 0 <= i < |s| ensures s[i] == chain[from + i] {
      assert s[i] in missing && s[i].epoch == Epochs(s)[i] == from + 1 + i;
      var j :| 0 <= j < |chain| && chain[j] == s[i];
    }
  }

  ghost predicate OnChain(h: HashFn, g0: GroupState, chain: seq<Commit>, n: nat, r: (Outcome, GroupState)) {
    && n <= r.1.epoch <= |chain| && r.1 == StateAt(h, g0, chain, r.1.epoch)
    && (r.0 == Applied || (r.0.OutOfOrder? && r.1.epoch == n))
  }

  lemma {:induction false} OfferStaysOnChain(h: HashFn, g0: GroupState, chain: seq<Commit>, n: nat, c: Commit)
    requires Chain(chain) && Fresh(g0) && n <= |chain| && c in chain
    ensures OnChain(h, g0, chain, n, (Offer(StateAt(h, g0, chain, n), c), After(h, StateAt(h, g0, chain, n), c)))
  {
    hide After, Offer, StateAt, Chain, Fresh;
    ChainApplies(h, g0, chain, n);
    OfferOne(h, g0, chain, n, c);
    if c.epoch == n + 1 {
      ChainApplies(h, g0, chain, n + 1);
    }
  }

  /** One call keeps the replica on the chain: it applies commits and lands in the state of the
      reached epoch, or refuses as out of order and changes nothing. */
  lemma {:induction false} CallStaysOnChain(h: HashFn, g0: GroupState, chain: seq<Commit>, n: nat, call: Call)
    requires Chain(chain) && Fresh(g0) && n <= |chain| && FromChain(call, chain)
    ensures OnChain(h, g0, chain, n, Perform(h, StateAt(h, g0, chain, n), call))
  {
    hide After, Offer, StateAt, Recover, Chain, Fresh;
    ChainApplies(h, g0, chain, n);
    var c := if call.Apply? then call.commit else call.target;
    OfferStaysOnChain(h, g0, chain, n, c);
    if call.ApplyWithRecovery? {
      if c.epoch > n + 1 {
        RecoverGap(h, g0, chain, n, c, call.missing);
        ChainApplies(h, g0, chain, c.epoch);
      } else {
        RecoverNear(h, StateAt(h, g0, chain, n), c, call.missing);
      }
    }
  }

  lemma RecoverNear(h: HashFn, g: GroupState, target: Commit, missing: seq<Commit>)
    requires target.epoch <= g.epoch + 1
    ensures Recover(h, g, target, missing) == (Offer(g, target), After(h, g, target))
  {
    hide After, Offer;
  }

  lemma {:induction false} RecoverGap(h: HashFn, g0: GroupState, chain: seq<Commit>, n: nat, target: Commit, missing: seq<Commit>)
    requires Chain(chain) && Fresh(g0) && n <= |chain| && target in chain && target.epoch > n + 1
    requires forall c :: c in missing ==> c in chain
    ensures Recover(h, StateAt(h, g0, chain, n), target, missing)
         == if Epochs(SortByEpoch(missing)) == Range(n + 1, target.epoch)
            then (Applied, StateAt(h, g0, chain, target.epoch))
            else (OutOfOrder(n + 1, target.epoch), StateAt(h, g0, chain, n))
    ensures target.epoch <= |chain|
  {
    hide After, Offer, ApplyAll, SortByEpoch, StateAt, Supported;
    ChainApplies(h, g0, chain, n);
    var i :| 0 <= i < |chain| && chain[i] == target;
    var end := target.epoch;
    if Epochs(SortByEpoch(missing)) == Range(n + 1, end) {
      SortedIsSlice(chain, missing, n, end - 1);
      assert chain[n..end - 1] + [target] == chain[n..end];
      ApplySlice(h, g0, chain, n, end);
    }
  }

  lemma {:induction false} MissingSorts(chain: seq<Commit>, n: nat, end: nat, missing: seq<Commit>)
    requires Chain(chain) && n + 1 < end <= |chain| && multiset(missing) == multiset(chain[n..end - 1])
    ensures forall c :: c in missing ==> c in chain
    ensures Epochs(SortByEpoch(missing)) == Range(n + 1, end)
  {
    hide Supported, SortByEpoch;
    var slice := chain[n..end - 1];
    forall c | c in missing ensures c in chain {
      assert c in multiset(missing);
      assert c in slice;
    }
    SliceSorts(chain, n, end, missing);
    assert Epochs(slice) == Range(n + 1, end);
  }

  lemma {:induction false} SliceSorts(chain: seq<Commit>, n: nat, end: nat, missing: seq<Commit>)
    requires Chain(chain) && n + 1 < end <= |chain| && multiset(missing) == multiset(chain[n..end - 1])
    ensures SortByEpoch(missing) == chain[n..end - 1]
  {
    hide Supported, Sorting.Sort;
    Sorting.SortRestores(EpochOf, missing, chain[n..end - 1]);
  }

  /** Recovery closes a gap whenever the missing commits are handed over, in any order. */
  lemma {:induction false} RecoveryInAnyOrder(h: HashFn, g0: GroupState, chain: seq<Commit>, n: nat, target: Commit, missing: seq<Commit>)
    requires Chain(chain) && Fresh(g0) && n < target.epoch <= |chain| && chain[target.epoch - 1] == target
    requires target.epoch > n + 1 ==> multiset(missing) == multiset(chain[n..target.epoch - 1])
    ensures Recover(h, StateAt(h, g0, chain, n), target, missing) == (Applied, StateAt(h, g0, chain, target.epoch))
  {
    hide After, Offer, StateAt, Recover, Supported, SortByEpoch, Epochs, Range;
    assert target in chain;
    ChainApplies(h, g0, chain, n);
    if target.epoch == n + 1 {
      OfferOne(h, g0, chain, n, target);
      RecoverNear(h, StateAt(h, g0, chain, n), target, missing);
    } else {
      MissingSorts(chain, n, target.epoch, missing);
      RecoverGap(h, g0, chain, n, target, missing);
    }
  }

  /** The state after a sequence of calls. */
  function PerformAll(h: HashFn, g: GroupState, calls: seq<Call>): GroupState {
    if calls == [] then g else Perform(h, PerformAll(h, g, calls[..|calls| - 1]), calls[|calls| - 1]).1
  }

  /** A replica fed commits of one chain, in any order, with repeats and through any recovery
      calls, is always in exactly the state of applying commits 1 to its epoch in order. */
  lemma {:induction false} ReplicaIsChainState(h: HashFn, g0: GroupState, chain: seq<Commit>, calls: seq<Call>)
    requires Chain(chain) && Fresh(g0) && forall c :: c in calls ==> FromChain(c, chain)
    ensures var g := PerformAll(h, g0, calls);
            g.epoch <= |chain| && g == StateAt(h, g0, chain, g.epoch)
  {
    hide Perform;
    if calls != [] {
      var init := calls[..|calls| - 1];
      ReplicaIsChainState(h, g0, chain, init);
      CallStaysOnChain(h, g0, chain, PerformAll(h, g0, init).epoch, calls[|calls| - 1]);
    }
  }

  /** So two replicas of one chain at the same epoch are identical, whatever they went through. */
  lemma {:induction false} ReplicasAgree(h: HashFn, g0: GroupState, chain: seq<Commit>, a: seq<Call>, b: seq<Call>)
    requires Chain(chain) && Fresh(g0)
    requires (forall c :: c in a ==> FromChain(c, chain)) && (forall c :: c in b ==> FromChain(c, chain))
    requires PerformAll(h, g0, a).epoch == PerformAll(h, g0, b).epoch
    ensures PerformAll(h, g0, a) == PerformAll(h, g0, b)
  {
    ReplicaIsChainState(h, g0, chain, a);
    ReplicaIsChainState(h, g0, chain, b);
  }

  // ----- the secrets along a chain -----

  /** Commits that bring no secret of their own. */
  ghost predicate NoSupplied(chain: seq<Commit>) {
    forall i :: 0 <= i < |chain| ==> chain[i].groupSecret == None
  }

  /** What the secret of epoch `n` is the digest of. */
  function SecretInput(h: HashFn, g0: GroupState, chain: seq<Commit>, n: nat): bytes
    requires 0 < n <= |chain| && n < 0x1_0000_0000_0000_0000
  {
    StateAt(h, g0, chain, n - 1).secrets.groupSecret + EightBytes(n)
  }

  lemma {:induction false} ChainSecret(h: HashFn, g0: GroupState, chain: seq<Commit>, n: nat)
    requires Chain(chain) && NoSupplied(chain) && Fresh(g0) && g0.secrets.epoch == 0
    requires n <= |chain| && n < 0x1_0000_0000_0000_0000
    ensures StateAt(h, g0, chain, n).secrets.epoch == n
    ensures n > 0 ==> StateAt(h, g0, chain, n).secrets.groupSecret == h(SecretInput(h, g0, chain, n))
  {
    hide After, Offer, Supported, EightBytes;
    if n > 0 {
      ChainSecret(h, g0, chain, n - 1);
      ChainApplies(h, g0, chain, n - 1);
      AppliedSecret(h, StateAt(h, g0, chain, n - 1), chain[n - 1]);
    }
  }

  /** Along a chain without supplied secrets every commit brings a new secret: those of two epochs
      are digests of different inputs, so they differ, or the two inputs collide. */
  lemma {:induction false} SecretsDiffer(h: HashFn, g0: GroupState, chain: seq<Commit>, m: nat, n: nat)
    requires Chain(chain) && NoSupplied(chain) && Fresh(g0) && g0.secrets.epoch == 0
    requires 0 < m < n <= |chain| && n < 0x1_0000_0000_0000_0000
    ensures SecretInput(h, g0, chain, m) != SecretInput(h, g0, chain, n)
    ensures StateAt(h, g0, chain, m).secrets.groupSecret != StateAt(h, g0, chain, n).secrets.groupSecret
         || Collide(h, {SecretInput(h, g0, chain, m)}, {SecretInput(h, g0, chain, n)})
  {
    ChainSecret(h, g0, chain, m);
    ChainSecret(h, g0, chain, n);
    hide StateAt, EightBytes, Chain, Collide;
    var x, y := SecretInput(h, g0, chain, m), SecretInput(h, g0, chain, n);
    assert x[|x| - 8..] == EightBytes(m) && y[|y| - 8..] == EightBytes(n);
    if h(x) == h(y) {
      CollideAt(h, {x}, {y}, x, y);
    }
  }

  // ----- what holds of every replica, whatever commits it is fed -----

  /** Commits for the missing epochs, in order, are never refused as out of order. */
  lemma {:induction false} ContiguousNeverOutOfOrder(h: HashFn, g: GroupState, cs: seq<Commit>)
    requires Epochs(cs) == Range(g.epoch + 1, g.epoch + 1 + |cs|)
    ensures !ApplyAll(h, g, cs).0.OutOfOrder?
    ensures ApplyAll(h, g, cs).0 == Applied ==> ApplyAll(h, g, cs).1.epoch == g.epoch + |cs|
    decreases |cs|
  {
    hide After;
    if cs != [] {
      var init, c := cs[..|cs| - 1], cs[|cs| - 1];
      assert Epochs(init) == Epochs(cs)[..|init|] == Range(g.epoch + 1, g.epoch + 1 + |init|);
      ContiguousNeverOutOfOrder(h, g, init);
      assert c.epoch == Epochs(cs)[|cs| - 1] == g.epoch + |cs|;
      var mid := ApplyAll(h, g, init).1;
      if Offer(mid, c) == Applied {
        AppliedFacts(h, mid, c);
      }
    }
  }

  /** An order error changes nothing, in any state, for any commit and any recovery. */
  lemma {:induction false} OrderErrorsChangeNothing(h: HashFn, g: GroupState, call: Call)
    ensures Perform(h, g, call).0.OutOfOrder? ==> Perform(h, g, call).1 == g
  {
    if call.ApplyWithRecovery? && DetectGap(g.epoch, call.target.epoch).Missing? {
      hide After, Offer, ApplyAll, SortByEpoch;
      var sorted := SortByEpoch(call.missing);
      var all := sorted + [call.target];
      if Epochs(sorted) == Range(g.epoch + 1, call.target.epoch) {
        assert |sorted| == call.target.epoch - g.epoch - 1;
        assert Epochs(all) == Epochs(sorted) + [call.target.epoch];
        assert Epochs(all) == Range(g.epoch + 1, g.epoch + 1 + |all|);
        ContiguousNeverOutOfOrder(h, g, all);
      }
    } else {
      hide Rebuilt, NextSecrets, AddAll, RetainAll;
    }
  }

  lemma {:induction false} AfterNoDuplicates(h: HashFn, g: GroupState, c: Commit)
    requires NoDuplicates(g.members)
    ensures NoDuplicates(After(h, g, c).members)
  {
    hide Rebuilt, NextSecrets, AddAll, RetainAll, NoDuplicates;
    AddAllNoDuplicates(g.members, c.added);
    RetainAllNoDuplicates(AddAll(g.members, c.added), c.removed);
  }

  lemma {:induction false} ApplyAllNoDuplicates(h: HashFn, g: GroupState, cs: seq<Commit>)
    requires NoDuplicates(g.members)
    ensures NoDuplicates(ApplyAll(h, g, cs).1.members)
    decreases |cs|
  {
    hide After, Offer, NoDuplicates;
    if cs != [] {
      var init := cs[..|cs| - 1];
      ApplyAllNoDuplicates(h, g, init);
      AfterNoDuplicates(h, ApplyAll(h, g, init).1, cs[|cs| - 1]);
    }
  }

  /** A group that starts without repeated members never has any, whatever it is fed and whether
      it accepts it. */
  lemma {:induction false} MembersNeverRepeat(h: HashFn, g: GroupState, calls: seq<Call>)
    requires NoDuplicates(g.members)
    ensures NoDuplicates(PerformAll(h, g, calls).members)
    decreases |calls|
  {
    if calls != [] {
      hide After, Offer, ApplyAll, SortByEpoch, NoDuplicates;
      var mid, call := PerformAll(h, g, calls[..|calls| - 1]), calls[|calls| - 1];
      MembersNeverRepeat(h, g, calls[..|calls| - 1]);
      var c := if call.Apply? then call.commit else call.target;
      AfterNoDuplicates(h, mid, c);
      if call.ApplyWithRecovery? {
        ApplyAllNoDuplicates(h, mid, SortByEpoch(call.missing) + [c]);
      }
    }
  }

  // ----- members joining one by one -----

  function JoinCommit(epoch: nat, member: string): Commit {
    EmptyCommit(epoch).(added := [member])
  }

  /** The group after the first `n` listed members were each added by a commit of their own. */
  function JoinedUpTo(h: HashFn, g: GroupState, members: seq<string>, n: nat): GroupState
    requires n <= |members|
  {
    if n == 0 then g
    else
      var mid := JoinedUpTo(h, g, members, n - 1);
      After(h, mid, JoinCommit(mid.epoch + 1, members[n - 1]))
  }

  function Joined(h: HashFn, g: GroupState, members: seq<string>): GroupState {
    JoinedUpTo(h, g, members, |members|)
  }

  lemma {:induction false} JoinOne(h: HashFn, g: GroupState, member: string, c: Commit)
    requires |g.context.cfgHash| <= 255 && c == JoinCommit(g.epoch + 1, member)
    ensures Offer(g, c) == Applied && After(h, g, c).epoch == g.epoch + 1
    ensures After(h, g, c).members == Add(g.members, member) && |After(h, g, c).context.cfgHash| <= 255
  {
    hide Extensions;
    assert c.added[..0] == [];
    assert AddAll(g.members, c.added) == Add(AddAll(g.members, []), member);
  }

  lemma JoinedNone(h: HashFn, g: GroupState, members: seq<string>)
    ensures JoinedUpTo(h, g, members, 0) == g
  {
  }

  lemma JoinedStep(h: HashFn, g: GroupState, members: seq<string>, n: nat)
    requires n < |members|
    ensures JoinedUpTo(h, g, members, n + 1)
         == After(h, JoinedUpTo(h, g, members, n), JoinCommit(JoinedUpTo(h, g, members, n).epoch + 1, members[n]))
  {
    hide After, JoinCommit;
  }

  /** One member more: the commit made for it is applied, and appends it if it is missing. */
  lemma {:induction false} JoinedNext(h: HashFn, g: GroupState, members: seq<string>, n: nat, mid: GroupState, c: Commit)
    requires n < |members| && mid == JoinedUpTo(h, g, members, n) && |mid.context.cfgHash| <= 255
    requires c == JoinCommit(mid.epoch + 1, members[n])
    ensures Offer(mid, c) == Applied && JoinedUpTo(h, g, members, n + 1) == After(h, mid, c)
    ensures After(h, mid, c).epoch == mid.epoch + 1 && After(h, mid, c).members == Add(mid.members, members[n])
    ensures |After(h, mid, c).context.cfgHash| <= 255
  {
    hide After, Offer, JoinCommit, Add, JoinedUpTo;
    JoinOne(h, mid, members[n], c);
    JoinedStep(h, g, members, n);
  }

  lemma {:induction false} JoinedFacts(h: HashFn, g: GroupState, members: seq<string>, n: nat)
    requires |g.context.cfgHash| <= 255 && n <= |members|
    ensures JoinedUpTo(h, g, members, n).epoch == g.epoch + n
    ensures JoinedUpTo(h, g, members, n).members == AddAll(g.members, members[..n])
    ensures |JoinedUpTo(h, g, members, n).context.cfgHash| <= 255
  {
    hide After, Offer, JoinCommit, Add, JoinedUpTo;
    if n == 0 {
      JoinedNone(h, g, members);
      assert members[..0] == [];
    } else {
      hide AddAll;
      JoinedFacts(h, g, members, n - 1);
      var mid := JoinedUpTo(h, g, members, n - 1);
      JoinedNext(h, g, members, n - 1, mid, JoinCommit(mid.epoch + 1, members[n - 1]));
      AddAllStep(g.members, members, n);
    }
  }

  lemma {:induction false} JoinedMembers(h: HashFn, g: GroupState, members: seq<string>)
    requires |g.context.cfgHash| <= 255
    ensures Joined(h, g, members).members == AddAll(g.members, members)
  {
    hide JoinedUpTo;
    JoinedFacts(h, g, members, |members|);
    assert members[..|members|] == members;
  }
}
