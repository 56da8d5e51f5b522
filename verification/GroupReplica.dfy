/** The group as it is kept: fields rewritten one after another. */
module GroupReplica {
  import opened Numbers
  import opened Hashing
  import opened Members
  import opened MlsExtensions
  import opened MlsGroup

  class Group {
    var epoch: nat
    var context: Context
    var members: seq<string>
    var secrets: Secrets

    ghost function State(): GroupState
      reads this
    {
      GroupState(epoch, context, members, secrets)
    }

    /** A new group at epoch 0 with a supported hash id and a short configuration hash. */
    constructor (h: HashFn, suite: ProtoSuite, flags: byte, cfgHash: bytes, initialSecret: Option<bytes>)
      requires |cfgHash| <= 255
      ensures Fresh(State()) && members == [] && secrets.epoch == 0
      ensures context == Rebuilt(Context(suite, flags, SHA256_ID, cfgHash, []))
      ensures secrets.groupSecret == DeriveSecret(h, OrElse(initialSecret, InitialSeed(h, context)), 0)
    {
      epoch := 0;
      members := [];
      var built := Rebuilt(Context(suite, flags, SHA256_ID, cfgHash, []));
      context := built;
      secrets := Secrets(0, DeriveSecret(h, OrElse(initialSecret, InitialSeed(h, built)), 0));
    }

    method AddMissing(added: seq<string>)
      modifies this`members
      ensures members == AddAll(old(members), added)
    {
      var i := 0;
      while i < |added|
        invariant 0 <= i <= |added|
        invariant members == AddAll(old(members), added[..i])
      {
        assert added[..i + 1][..i] == added[..i];
        if added[i] !in members {
          members := members + [added[i]];
        }
        i := i + 1;
      }
      assert added[..i] == added;
    }

    method RemoveListed(removed: seq<string>)
      modifies this`members
      ensures members == RetainAll(old(members), removed)
    {
      var i := 0;
      while i < |removed|
        invariant 0 <= i <= |removed|
        invariant members == RetainAll(old(members), removed[..i])
      {
        assert removed[..i + 1][..i] == removed[..i];
        members := Retain(members, removed[i]);
        i := i + 1;
      }
      assert removed[..i] == removed;
    }

    /** The context fields, one after another; the hash id is looked at after the first two. */
    method UpdateContext(commit: Commit) returns (ok: bool)
      modifies this`context
      ensures ok <==> commit.cfgHashId.None? || commit.cfgHashId.value == SHA256_ID
      ensures context == if ok then LateContext(old(context), commit) else EarlyContext(old(context), commit)
    {
      if commit.protoSuite.Some? {
        context := context.(protoSuite := commit.protoSuite.value);
      }
      if commit.flags.Some? {
        context := context.(flags := commit.flags.value);
      }
      if commit.cfgHashId.Some? {
        if commit.cfgHashId.value != SHA256_ID {
          return false;
        }
        context := context.(cfgHashId := commit.cfgHashId.value);
      }
      if commit.cfgHash.Some? {
        context := context.(cfgHash := commit.cfgHash.value);
      }
      ok := true;
    }

    method UpdateSecrets(h: HashFn, commit: Commit)
      modifies this`secrets
      ensures secrets == NextSecrets(h, old(secrets), commit)
    {
      if commit.groupSecret.Some? {
        secrets := Secrets(commit.epoch, commit.groupSecret.value);
      } else if commit.epoch != secrets.epoch {
        secrets := Secrets(commit.epoch, DeriveSecret(h, secrets.groupSecret, commit.epoch));
      }
    }

    method ApplyCommit(h: HashFn, commit: Commit) returns (o: Outcome)
      modifies this
      ensures o == Offer(old(State()), commit)
      ensures State() == After(h, old(State()), commit)
    {
      hide AddAll, RetainAll, Extensions, NextSecrets;
      if commit.epoch != epoch + 1 {
        return OutOfOrder(epoch + 1, commit.epoch);
      }
      var ok := UpdateContext(commit);
      if !ok {
        return UnsupportedHashId(commit.cfgHashId.value);
      }
      AddMissing(commit.added);
      RemoveListed(commit.removed);
      UpdateSecrets(h, commit);
      if |context.cfgHash| > 255 {
        return Panicked;
      }
      context := Rebuilt(context);
      epoch := commit.epoch;
      o := Applied;
    }

    /** Adds one member by a commit made for it. */
    method AddMember(h: HashFn, member: string) returns (o: Outcome, commit: Commit)
      modifies this
      ensures commit == JoinCommit(old(epoch) + 1, member)
      ensures o == Offer(old(State()), commit) && State() == After(h, old(State()), commit)
    {
      commit := JoinCommit(epoch + 1, member);
      o := ApplyCommit(h, commit);
    }

    method ApplyCommitWithRecovery(h: HashFn, target: Commit, missing: seq<Commit>) returns (o: Outcome)
      modifies this
      ensures (o, State()) == Recover(h, old(State()), target, missing)
    {
      hide Offer, After, SortByEpoch, ApplyAll;
      var gap := DetectGap(epoch, target.epoch);
      if !gap.Missing? {
        o := ApplyCommit(h, target);
        return;
      }
      var sorted := SortByEpoch(missing);
      if Epochs(sorted) != gap.epochs {
        return OutOfOrder(epoch + 1, target.epoch);
      }
      o := ApplyEach(h, sorted + [target]);
    }

    /** The contiguous commits, one after another, up to the first that is not applied. */
    method ApplyEach(h: HashFn, commits: seq<Commit>) returns (o: Outcome)
      modifies this
      ensures (o, State()) == ApplyAll(h, old(State()), commits)
    {
      hide Offer, After, ApplyAll;
      ghost var start := State();
      ApplyNone(h, start);
      assert commits[..0] == [];
      var i := 0;
      while i < |commits|
        invariant 0 <= i <= |commits|
        invariant ApplyAll(h, start, commits[..i]) == (Applied, State())
      {
        ApplyAllNext(h, start, commits, i, State());
        o := ApplyCommit(h, commits[i]);
        i := i + 1;
        if o != Applied {
          ApplyAllStuck(h, start, commits, i);
          return;
        }
      }
      assert commits[..i] == commits;
      o := Applied;
    }
  }

  lemma {:induction false} ApplyAllNext(h: HashFn, g: GroupState, cs: seq<Commit>, i: nat, mid: GroupState)
    requires i < |cs| && ApplyAll(h, g, cs[..i]) == (Applied, mid)
    ensures ApplyAll(h, g, cs[..i + 1]) == (Offer(mid, cs[i]), After(h, mid, cs[i]))
  {
    hide Offer, After, ApplyAll;
    ApplyAllSnoc(h, g, cs[..i], cs[i], mid);
    assert cs[..i + 1] == cs[..i] + [cs[i]];
  }

  lemma {:induction false} ApplyAllStuck(h: HashFn, g: GroupState, cs: seq<Commit>, i: nat)
    requires i <= |cs| && ApplyAll(h, g, cs[..i]).0 != Applied
    ensures ApplyAll(h, g, cs) == ApplyAll(h, g, cs[..i])
    decreases |cs| - i
  {
    hide Offer, After;
    if i < |cs| {
      assert cs[..i + 1][..i] == cs[..i];
      ApplyAllStuck(h, g, cs, i + 1);
    } else {
      assert cs[..i] == cs;
    }
  }

  /** A group is created only for a supported hash id. */
  method Create(h: HashFn, suite: ProtoSuite, flags: byte, hashId: u16, cfgHash: bytes, initialSecret: Option<bytes>)
    returns (g: Option<Group>)
    requires hashId == SHA256_ID ==> |cfgHash| <= 255
    ensures g.Some? <==> hashId == SHA256_ID
    ensures g.Some? ==> fresh(g.value) && Fresh(g.value.State()) && g.value.members == []
    ensures g.Some? ==>
              && var x := g.value.context;
              && x == Context(suite, flags, hashId, cfgHash, x.extensions) && |x.extensions| == 2
              && ReadProtoSuite(x.extensions[0]) == Some((suite, flags))
              && ReadCfgHash(x.extensions[1]) == Some((hashId, cfgHash))
    ensures g.Some? ==>
              && var defaultSeed := h(cfgHash + [suite.major / 256, suite.major % 256, suite.minor / 256, suite.minor % 256,
                                                 suite.ciphersuiteId / 256, suite.ciphersuiteId % 256, flags]);
              && var seed := if initialSecret.Some? then initialSecret.value else defaultSeed;
              && g.value.secrets == Secrets(0, h(seed + [0, 0, 0, 0, 0, 0, 0, 0]))
  {
    if hashId != SHA256_ID {
      return None;
    }
    var group := new Group(h, suite, flags, cfgHash, initialSecret);
    ProtoSuiteReadsIff(group.context.extensions[0], suite, flags);
    CfgHashReadsIff(group.context.extensions[1], hashId, cfgHash);
    hide ProtoSuiteExtension, CfgHashExtension, ReadProtoSuite, ReadCfgHash;
    SeedInFull(h, group.context);
    ZeroEpoch();
    hide InitialSeed, EightBytes;
    g := Some(group);
  }

  lemma {:induction false} SeedInFull(h: HashFn, c: Context)
    ensures var p := c.protoSuite;
            InitialSeed(h, c)
            == h(c.cfgHash + [p.major / 256, p.major % 256, p.minor / 256, p.minor % 256,
                              p.ciphersuiteId / 256, p.ciphersuiteId % 256, c.flags])
  {
    var p := c.protoSuite;
    TwoBytes(p.major);
    TwoBytes(p.minor);
    TwoBytes(p.ciphersuiteId);
    hide ToBigEndian;
    assert c.cfgHash + [p.major / 256, p.major % 256] + [p.minor / 256, p.minor % 256]
           + [p.ciphersuiteId / 256, p.ciphersuiteId % 256] + [c.flags]
        == c.cfgHash + [p.major / 256, p.major % 256, p.minor / 256, p.minor % 256,
                        p.ciphersuiteId / 256, p.ciphersuiteId % 256, c.flags];
  }

  lemma ZeroEpoch()
    ensures EightBytes(0) == [0, 0, 0, 0, 0, 0, 0, 0]
  {
    assert ToBigEndian(0, 1) == [0] && ToBigEndian(0, 2) == [0, 0];
    assert ToBigEndian(0, 4) == [0, 0, 0, 0];
    assert ToBigEndian(0, 6) == [0, 0, 0, 0, 0, 0];
  }

  function InitialSeed(h: HashFn, c: Context): bytes {
    h(c.cfgHash + ToBigEndian(c.protoSuite.major, 2) + ToBigEndian(c.protoSuite.minor, 2)
      + ToBigEndian(c.protoSuite.ciphersuiteId, 2) + [c.flags])
  }
}
