/** Which revocations a checkpoint log can come to hold: the checked append, and key rotation,
    which appends a revocation without the check. */
module Revocations {
  import opened Numbers
  import opened Hashing
  import Utf8
  import opened Cbor
  import opened CheckpointEntries
  import opened CheckpointLogs

  type Log = seq<CheckpointEntry>

  datatype Outcome =
    | Appended | AlreadyRevoked | PermissionDenied | RevokedKeyNotFound | RecoveryKeyInvalidOrExpired | LogFailure

  predicate Issued(h: HashFn, log: Log, user: bytes, keyHash: bytes) {
    exists i :: 0 <= i < |log| && log[i].Key? && log[i].userId == user && h(log[i].verifyingKey) == keyHash
  }

  predicate Revoked(log: Log, user: bytes, keyHash: bytes) {
    exists i :: 0 <= i < |log| && log[i].Revocation? && log[i].userId == user && log[i].revokedKeyHash == keyHash
  }

  /** A recovery key of the user with this hash that is not older than `maxAge`; one dated in the
      future counts as new. */
  predicate Recoverable(h: HashFn, log: Log, user: bytes, recoveryHash: bytes, now: nat, maxAge: nat) {
    exists i :: 0 <= i < |log| && log[i].Recovery? && log[i].userId == user
             && h(log[i].recoveryKey) == recoveryHash && now <= log[i].issuedAt + maxAge
  }

  function Verdict(h: HashFn, log: Log, identity: bytes, e: CheckpointEntry, now: nat, maxAge: nat): Outcome
    requires e.Revocation?
  {
    if e.userId != identity then PermissionDenied
    else if !Issued(h, log, e.userId, e.revokedKeyHash) then RevokedKeyNotFound
    else if Revoked(log, e.userId, e.revokedKeyHash) then AlreadyRevoked
    else if e.recoveryKeyHash.Some? && !Recoverable(h, log, e.userId, e.recoveryKeyHash.value, now, maxAge)
    then RecoveryKeyInvalidOrExpired
    else Appended
  }

  /** Each answer, in terms of the log alone. The key was issued: some key entry of the user has a
      verifying key with the revoked hash. It was revoked: some revocation of the user names it.
      It can be recovered: some recovery entry of the user has a key with the named hash and is
      not older than the limit. */
  lemma {:induction false} VerdictIff(h: HashFn, log: Log, identity: bytes, e: CheckpointEntry, now: nat, maxAge: nat)
    requires e.Revocation?
    ensures var issued := exists i :: 0 <= i < |log| && log[i].Key? && log[i].userId == e.userId
                                   && h(log[i].verifyingKey) == e.revokedKeyHash;
            var revoked := exists i :: 0 <= i < |log| && log[i].Revocation? && log[i].userId == e.userId
                                    && log[i].revokedKeyHash == e.revokedKeyHash;
            var recoverable := e.recoveryKeyHash == None
                               || exists i :: 0 <= i < |log| && log[i].Recovery? && log[i].userId == e.userId
                                           && h(log[i].recoveryKey) == e.recoveryKeyHash.value
                                           && now - log[i].issuedAt <= maxAge;
            var r := Verdict(h, log, identity, e, now, maxAge);
            && (r == PermissionDenied <==> e.userId != identity)
            && (r == RevokedKeyNotFound <==> e.userId == identity && !issued)
            && (r == AlreadyRevoked <==> e.userId == identity && issued && revoked)
            && (r == RecoveryKeyInvalidOrExpired <==> e.userId == identity && issued && !revoked && !recoverable)
            && (r == Appended <==> e.userId == identity && issued && !revoked && recoverable)
  {
  }

  method AppendRevocationEntryChecked(h: HashFn, log: CheckpointLog, identity: bytes, entry: CheckpointEntry,
                                      now: nat, maxAge: nat)
    returns (r: Outcome)
    requires log.Valid(h) && entry.Revocation?
    modifies log, log.merkle
    ensures log.Valid(h)
    ensures var verdict := Verdict(h, old(log.entries), identity, entry, now, maxAge);
            && (r == verdict || (verdict == Appended && r == LogFailure))
            && (AllFit(old(log.entries) + [entry]) ==> r == verdict)
    ensures log.entries == if r == Appended then old(log.entries) + [entry] else old(log.entries)
  {
    hide AllFit, Issued, Revoked, Recoverable;
    if entry.userId != identity {
      return PermissionDenied;
    }
    if !Issued(h, log.entries, entry.userId, entry.revokedKeyHash) {
      return RevokedKeyNotFound;
    }
    if Revoked(log.entries, entry.userId, entry.revokedKeyHash) {
      return AlreadyRevoked;
    }
    if entry.recoveryKeyHash.Some? {
      if !Recoverable(h, log.entries, entry.userId, entry.recoveryKeyHash.value, now, maxAge) {
        return RecoveryKeyInvalidOrExpired;
      }
    }
    var root := log.AppendWithRoot(h, entry);
    r := if root.Ok? then Appended else LogFailure;
  }

  lemma {:induction false} AsciiIsText(s: bytes)
    requires forall i :: 0 <= i < |s| ==> s[i] < 0x80
    ensures Utf8.Valid(s)
  {
    if s != [] {
      AsciiIsText(s[1..]);
    }
  }

  /** The words "key rotation". */
  function RotationReason(): text {
    var s: bytes := [107, 101, 121, 32, 114, 111, 116, 97, 116, 105, 111, 110];
    AsciiIsText(s);
    s
  }

  /** The two entries a rotation appends: the old key revoked, then the new key. */
  function RotationEntries(h: HashFn, user: bytes, device: bytes, oldKey: bytes, newKey: bytes, at: u64, at': u64): Log {
    [Revocation(user, h(oldKey), at, None, Some(RotationReason())), Key(user, newKey, device, at')]
  }

  /** Rotation works on a copy of the stored log, so a failure leaves the stored one as it was. */
  method AppendRotationCheckpoint(h: HashFn, stored: Log, user: bytes, device: bytes, oldKey: bytes, newKey: bytes,
                                  at: u64, at': u64)
    returns (ok: bool, saved: Log)
    ensures ok ==> saved == stored + RotationEntries(h, user, device, oldKey, newKey, at, at')
    ensures ok ==>
              && |saved| == |stored| + 2 && saved[..|stored|] == stored
              && saved[|stored|] == Revocation(user, h(oldKey), at, None, Some(RotationReason()))
              && saved[|stored| + 1] == Key(user, newKey, device, at')
    ensures !ok ==> saved == stored
    ensures AllFit(stored + RotationEntries(h, user, device, oldKey, newKey, at, at')) ==> ok
    ensures ok ==> AllFit(stored)
  {
    hide Fits, LogRoot, LeafHashes, HashNode, RotationReason;
    ok, saved := false, stored;
    var first := Revocation(user, h(oldKey), at, None, Some(RotationReason()));
    var second := Key(user, newKey, device, at');
    assert stored + RotationEntries(h, user, device, oldKey, newKey, at, at') == (stored + [first]) + [second];
    hide RotationEntries;
    AllFitSnoc(stored + [first], second);
    AllFitSnoc(stored, first);
    hide AllFit;
    var loaded := Import(h, stored);
    if loaded.Ok? {
      var log := loaded.value;
      var root := log.AppendWithRoot(h, first);
      if root.Ok? {
        root := log.AppendWithRoot(h, second);
        if root.Ok? {
          ok, saved := true, log.entries;
        }
      }
    }
  }

  // ----- every run -----

  datatype Step =
    | AppendKey(key: CheckpointEntry)
    | AppendRecovery(recovery: CheckpointEntry)
    | Revoke(identity: bytes, entry: CheckpointEntry, now: nat, maxAge: nat)
    | Rotate(user: bytes, device: bytes, oldKey: bytes, newKey: bytes, at: u64, at': u64)

  predicate WellFormed(s: Step) {
    match s
    case AppendKey(e) => e.Key?
    case AppendRecovery(e) => e.Recovery?
    case Revoke(_, e, _, _) => e.Revocation?
    case Rotate(_, _, _, _, _, _) => true
  }

  type step = s: Step | WellFormed(s) witness AppendKey(Key([], [], [], 0))

  function Offered(h: HashFn, log: Log, s: step): Log {
    match s
    case AppendKey(e) => [e]
    case AppendRecovery(e) => [e]
    case Revoke(identity, e, now, maxAge) => if Verdict(h, log, identity, e, now, maxAge) == Appended then [e] else []
    case Rotate(user, device, oldKey, newKey, at, at') => RotationEntries(h, user, device, oldKey, newKey, at, at')
  }

  /** A step appends all it offers, or nothing when an entry does not fit the encoding. */
  ghost function After(h: HashFn, log: Log, s: step): Log {
    if AllFit(Offered(h, log, s)) then log + Offered(h, log, s) else log
  }

  ghost function Run(h: HashFn, steps: seq<step>): Log {
    if steps == [] then [] else After(h, Run(h, steps[..|steps| - 1]), steps[|steps| - 1])
  }

  /** Each revocation names a key the same user had issued by then and had not revoked yet. */
  ghost predicate Justified(h: HashFn, before: Log, e: CheckpointEntry) {
    e.Revocation? ==> Issued(h, before, e.userId, e.revokedKeyHash) && !Revoked(before, e.userId, e.revokedKeyHash)
  }

  ghost predicate Sound(h: HashFn, log: Log) {
    forall i :: 0 <= i < |log| ==> Justified(h, log[..i], log[i])
  }

  /** A sound log revokes each key of a user at most once. */
  lemma SoundIsUnique(h: HashFn, log: Log, i: nat, j: nat)
    requires Sound(h, log) && i < j < |log| && log[i].Revocation? && log[j].Revocation?
    ensures log[i].userId != log[j].userId || log[i].revokedKeyHash != log[j].revokedKeyHash
  {
    assert log[..j][i] == log[i];
    assert Justified(h, log[..j], log[j]);
  }

  lemma {:induction false} SoundSnoc(h: HashFn, log: Log, e: CheckpointEntry)
    ensures Sound(h, log + [e]) <==> Sound(h, log) && Justified(h, log, e)
  {
    hide Justified;
    var all := log + [e];
    assert all[..|log|] == log && all[|log|] == e;
    forall i | 0 <= i < |log| ensures all[..i] == log[..i] && all[i] == log[i] {
    }
    if Sound(h, all) {
      forall i | 0 <= i < |log| ensures Justified(h, log[..i], log[i]) {
        assert Justified(h, all[..i], all[i]);
      }
      assert Justified(h, all[..|log|], all[|log|]);
    }
  }

  /** The check a rotation leaves out. */
  ghost predicate Tidy(h: HashFn, log: Log, s: step) {
    s.Rotate? && AllFit(Offered(h, log, s)) ==> Issued(h, log, s.user, h(s.oldKey)) && !Revoked(log, s.user, h(s.oldKey))
  }

  lemma {:induction false} RotationSound(h: HashFn, log: Log, s: step)
    requires s.Rotate?
    ensures Sound(h, log + Offered(h, log, s)) <==>
              Sound(h, log) && Issued(h, log, s.user, h(s.oldKey)) && !Revoked(log, s.user, h(s.oldKey))
  {
    hide Sound, Issued, Revoked, RotationReason;
    var added := Offered(h, log, s);
    assert log + added == (log + [added[0]]) + [added[1]];
    SoundSnoc(h, log + [added[0]], added[1]);
    SoundSnoc(h, log, added[0]);
  }

  lemma {:induction false} StepSound(h: HashFn, log: Log, s: step)
    ensures Sound(h, After(h, log, s)) <==> Sound(h, log) && Tidy(h, log, s)
  {
    hide Sound, Issued, Revoked, Recoverable, AllFit, RotationEntries;
    var added := Offered(h, log, s);
    if AllFit(added) {
      if s.Rotate? {
        RotationSound(h, log, s);
      } else if added != [] {
        SoundSnoc(h, log, added[0]);
      } else {
        assert log + added == log;
      }
    }
  }

  ghost predicate TidyRun(h: HashFn, steps: seq<step>) {
    forall i :: 0 <= i < |steps| ==> Tidy(h, Run(h, steps[..i]), steps[i])
  }

  lemma {:induction false} TidySnoc(h: HashFn, steps: seq<step>)
    requires steps != []
    ensures var n := |steps| - 1; TidyRun(h, steps) <==> TidyRun(h, steps[..n]) && Tidy(h, Run(h, steps[..n]), steps[n])
  {
    hide Run, Tidy;
    var n := |steps| - 1;
    assert forall i :: 0 <= i < n ==> steps[..n][..i] == steps[..i] && steps[..n][i] == steps[i];
  }

  /** Over every run of appends, checked revocations and rotations, the log is sound exactly when
      each rotation that took effect left a key that was on record and not yet revoked. */
  lemma {:induction false} RunSoundIff(h: HashFn, steps: seq<step>)
    ensures Sound(h, Run(h, steps)) <==> TidyRun(h, steps)
  {
    if steps != [] {
      hide After, Sound, Tidy, TidyRun;
      var n := |steps| - 1;
      RunSoundIff(h, steps[..n]);
      StepSound(h, Run(h, steps[..n]), steps[n]);
      TidySnoc(h, steps);
    }
  }

  /** Without rotations every run is sound. */
  lemma {:induction false} CheckedRunsAreSound(h: HashFn, steps: seq<step>)
    requires forall i :: 0 <= i < |steps| ==> !steps[i].Rotate?
    ensures Sound(h, Run(h, steps))
  {
    hide Run, Sound;
    RunSoundIff(h, steps);
  }

  /** A rotation before the first key checkpoint revokes a key the log never held. */
  lemma {:induction false} FirstRotationIsUnsound(h: HashFn, s: step)
    requires s.Rotate? && AllFit(Offered(h, [], s))
    ensures !Sound(h, Run(h, [s]))
  {
    hide AllFit;
    assert [s][..0] == [];
    assert !Tidy(h, [], s);
    assert Run(h, [s]) == After(h, [], s);
    StepSound(h, [], s);
  }

  // ----- recovery keys behind revocations -----

  /** Some recovery entry of the user, before position `p`, has a key with the named hash. */
  ghost predicate Backed(h: HashFn, log: Log, p: nat)
    requires p < |log|
  {
    log[p].Revocation? && log[p].recoveryKeyHash.Some? ==>
      exists i :: 0 <= i < p && log[i].Recovery? && log[i].userId == log[p].userId
               && h(log[i].recoveryKey) == log[p].recoveryKeyHash.value
  }

  lemma {:induction false} BackedSnoc(h: HashFn, log: Log, e: CheckpointEntry, p: nat)
    requires p < |log| && Backed(h, log, p)
    ensures Backed(h, log + [e], p)
  {
    var all := log + [e];
    assert all[p] == log[p];
    if log[p].Revocation? && log[p].recoveryKeyHash.Some? {
      var i :| 0 <= i < p && log[i].Recovery? && log[i].userId == log[p].userId
            && h(log[i].recoveryKey) == log[p].recoveryKeyHash.value;
      assert all[i] == log[i];
    }
  }

  ghost predicate AllBacked(h: HashFn, log: Log) {
    forall p: nat :: p < |log| ==> Backed(h, log, p)
  }

  lemma {:induction false} AllBackedSnoc(h: HashFn, log: Log, e: CheckpointEntry)
    requires AllBacked(h, log) && Backed(h, log + [e], |log|)
    ensures AllBacked(h, log + [e])
  {
    hide Backed;
    forall p: nat | p < |log| ensures Backed(h, log + [e], p) {
      BackedSnoc(h, log, e, p);
    }
  }

  lemma {:induction false} StepBacked(h: HashFn, log: Log, s: step)
    requires AllBacked(h, log)
    ensures AllBacked(h, After(h, log, s))
  {
    hide AllBacked, AllFit, RotationReason;
    var added := Offered(h, log, s);
    if s.Rotate? {
      assert log + added == (log + [added[0]]) + [added[1]];
      AllBackedSnoc(h, log, added[0]);
      AllBackedSnoc(h, log + [added[0]], added[1]);
    } else if s.Revoke? && added != [] {
      VerdictIff(h, log, s.identity, s.entry, s.now, s.maxAge);
      hide Verdict;
      RevocationBacked(h, log, s.entry);
      AllBackedSnoc(h, log, s.entry);
    } else if added != [] {
      AllBackedSnoc(h, log, added[0]);
    } else {
      assert log + added == log;
    }
  }

  lemma {:induction false} RevocationBacked(h: HashFn, log: Log, e: CheckpointEntry)
    requires e.Revocation? && e.recoveryKeyHash.Some? ==>
               exists i :: 0 <= i < |log| && log[i].Recovery? && log[i].userId == e.userId
                        && h(log[i].recoveryKey) == e.recoveryKeyHash.value
    ensures Backed(h, log + [e], |log|)
  {
    if e.Revocation? && e.recoveryKeyHash.Some? {
      var i :| 0 <= i < |log| && log[i].Recovery? && log[i].userId == e.userId
            && h(log[i].recoveryKey) == e.recoveryKeyHash.value;
      assert (log + [e])[i] == log[i];
    }
  }

  /** In the log of every run, rotations included, a revocation that names a recovery key comes after
      a recovery entry of the same user with that hash. */
  lemma {:induction false} RunBacked(h: HashFn, steps: seq<step>)
    ensures AllBacked(h, Run(h, steps))
  {
    hide After, AllBacked;
    if steps != [] {
      RunBacked(h, steps[..|steps| - 1]);
      StepBacked(h, Run(h, steps[..|steps| - 1]), steps[|steps| - 1]);
    } else {
      assert AllBacked(h, []) by {
        NothingToBack(h);
      }
    }
  }

  lemma NothingToBack(h: HashFn)
    ensures AllBacked(h, [])
  {
  }

  /** The log only grows, and a revoked key stays revoked: every later attempt is answered with
      `AlreadyRevoked` and changes nothing. */
  lemma {:induction false} RevokedForever(h: HashFn, steps: seq<step>, n: nat, user: bytes, keyHash: bytes)
    requires n <= |steps|
    ensures Run(h, steps[..n]) <= Run(h, steps)
    ensures Revoked(Run(h, steps[..n]), user, keyHash) ==> Revoked(Run(h, steps), user, keyHash)
    ensures Issued(h, Run(h, steps[..n]), user, keyHash) ==> Issued(h, Run(h, steps), user, keyHash)
    decreases |steps|
  {
    if n == |steps| {
      assert steps[..n] == steps;
    } else {
      hide Offered, AllFit;
      var init := steps[..|steps| - 1];
      assert init[..n] == steps[..n];
      RevokedForever(h, init, n, user, keyHash);
    }
  }

  lemma {:induction false} SecondRevocationIsIdle(h: HashFn, log: Log, e: CheckpointEntry, f: CheckpointEntry, later: Log,
                                                  identity: bytes, now: nat, maxAge: nat, now': nat, maxAge': nat)
    requires e.Revocation? && f.Revocation? && f.userId == e.userId && f.revokedKeyHash == e.revokedKeyHash
    requires Verdict(h, log, identity, e, now, maxAge) == Appended && log + [e] <= later
    ensures Verdict(h, later, identity, f, now', maxAge') == AlreadyRevoked
  {
    hide Recoverable;
    assert later[|log|] == (log + [e])[|log|] == e;
    var i :| 0 <= i < |log| && log[i].Key? && log[i].userId == e.userId && h(log[i].verifyingKey) == e.revokedKeyHash;
    assert later[i] == (log + [e])[i] == log[i];
  }
}
