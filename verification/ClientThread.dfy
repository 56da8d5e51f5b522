/** The client's view of a thread: members and epoch, changed by the same commits, with an event
    for every change. */
module ClientThread {
  import opened Numbers
  import opened Hashing
  import opened Members
  import opened MlsExtensions
  import opened MlsGroup
  import opened GroupReplica

  datatype Event = MembershipUpdated(epoch: nat, member: string)
                 | MembershipRemoved(epoch: nat, member: string)
                 | Rekey(epoch: nat)

  datatype Thread = Thread(epoch: nat, members: seq<string>)

  /** Members and events after the added members, in order. */
  function Added(members: seq<string>, epoch: nat, added: seq<string>): (seq<string>, seq<Event>)
    decreases |added|
  {
    if added == [] then (members, [])
    else
      var (ms, es) := Added(members, epoch, added[..|added| - 1]);
      var m := added[|added| - 1];
      if m in ms then (ms, es) else (ms + [m], es + [MembershipUpdated(epoch, m)])
  }

  /** Members and events after the removed members, in order; only a first occurrence goes. */
  function Removed(members: seq<string>, epoch: nat, removed: seq<string>): (seq<string>, seq<Event>)
    decreases |removed|
  {
    if removed == [] then (members, [])
    else
      var (ms, es) := Removed(members, epoch, removed[..|removed| - 1]);
      var m := removed[|removed| - 1];
      if m in ms then (RemoveFirst(ms, m), es + [MembershipRemoved(epoch, m)]) else (ms, es)
  }

  /** The thread and the emitted events, or nothing for a commit out of order. */
  function ThreadAfter(t: Thread, c: Commit): Option<(Thread, seq<Event>)> {
    if c.epoch != t.epoch + 1 then None
    else
      var (grown, added) := Added(t.members, c.epoch, c.added);
      var (left, removed) := Removed(grown, c.epoch, c.removed);
      Some((Thread(c.epoch, left), added + removed + [Rekey(c.epoch)]))
  }

  class ThreadState {
    var epoch: nat
    var members: seq<string>

    constructor (epoch: nat, members: seq<string>)
      ensures this.epoch == epoch && this.members == members
    {
      this.epoch := epoch;
      this.members := members;
    }

    /** Applies a commit, handing every event to the callback; here they are collected. */
    method ApplyCommitWithEvents(commit: Commit) returns (ok: bool, events: seq<Event>)
      modifies this
      ensures ok <==> ThreadAfter(old(Thread(epoch, members)), commit).Some?
      ensures ok ==> ThreadAfter(old(Thread(epoch, members)), commit) == Some((Thread(epoch, members), events))
      ensures !ok ==> epoch == old(epoch) && members == old(members) && events == []
    {
      events := [];
      if commit.epoch != epoch + 1 {
        return false, [];
      }
      var added := AddListed(commit);
      var removed := RemoveListed(commit);
      epoch := commit.epoch;
      events := added + removed + [Rekey(commit.epoch)];
      ok := true;
    }

    method AddListed(commit: Commit) returns (events: seq<Event>)
      modifies this`members
      ensures (members, events) == Added(old(members), commit.epoch, commit.added)
    {
      events := [];
      var i := 0;
      while i < |commit.added|
        invariant 0 <= i <= |commit.added|
        invariant (members, events) == Added(old(members), commit.epoch, commit.added[..i])
      {
        assert commit.added[..i + 1][..i] == commit.added[..i];
        var member := commit.added[i];
        if member !in members {
          members := members + [member];
          events := events + [MembershipUpdated(commit.epoch, member)];
        }
        i := i + 1;
      }
      assert commit.added[..i] == commit.added;
    }

    method RemoveListed(commit: Commit) returns (events: seq<Event>)
      modifies this`members
      ensures (members, events) == Removed(old(members), commit.epoch, commit.removed)
    {
      events := [];
      var i := 0;
      while i < |commit.removed|
        invariant 0 <= i <= |commit.removed|
        invariant (members, events) == Removed(old(members), commit.epoch, commit.removed[..i])
      {
        assert commit.removed[..i + 1][..i] == commit.removed[..i];
        var member := commit.removed[i];
        if member in members {
          members := RemoveFirst(members, member);
          events := events + [MembershipRemoved(commit.epoch, member)];
        }
        i := i + 1;
      }
      assert commit.removed[..i] == commit.removed;
    }
  }

  // ----- the events tell the whole story -----

  function Replay(members: seq<string>, events: seq<Event>): seq<string>
    decreases |events|
  {
    if events == [] then members
    else
      var ms := Replay(members, events[..|events| - 1]);
      match events[|events| - 1]
      case MembershipUpdated(_, m) => ms + [m]
      case MembershipRemoved(_, m) => RemoveFirst(ms, m)
      case Rekey(_) => ms
  }

  lemma {:induction false} ReplayConcat(members: seq<string>, a: seq<Event>, b: seq<Event>)
    ensures Replay(members, a + b) == Replay(Replay(members, a), b)
    decreases |b|
  {
    if b == [] {
      assert a + b == a;
    } else {
      ReplayConcat(members, a, b[..|b| - 1]);
      assert (a + b)[..|a + b| - 1] == a + b[..|b| - 1];
    }
  }

  lemma {:induction false} ReplayAdded(members: seq<string>, epoch: nat, added: seq<string>)
    ensures Replay(members, Added(members, epoch, added).1) == Added(members, epoch, added).0
    ensures forall e :: e in Added(members, epoch, added).1 ==> e.MembershipUpdated? && e.epoch == epoch
    decreases |added|
  {
    if added != [] {
      var init := added[..|added| - 1];
      ReplayAdded(members, epoch, init);
      ReplayConcat(members, Added(members, epoch, init).1, [MembershipUpdated(epoch, added[|added| - 1])]);
    }
  }

  lemma {:induction false} ReplayRemoved(members: seq<string>, epoch: nat, removed: seq<string>)
    ensures Replay(members, Removed(members, epoch, removed).1) == Removed(members, epoch, removed).0
    ensures forall e :: e in Removed(members, epoch, removed).1 ==> e.MembershipRemoved? && e.epoch == epoch
    decreases |removed|
  {
    if removed != [] {
      var init := removed[..|removed| - 1];
      ReplayRemoved(members, epoch, init);
      ReplayConcat(members, Removed(members, epoch, init).1, [MembershipRemoved(epoch, removed[|removed| - 1])]);
    }
  }

  /** Replaying the events of an accepted commit over the old members gives the new members,
      for any list; every event carries the new epoch, and the one rekey comes last. */
  lemma {:induction false} EventsReplay(t: Thread, c: Commit)
    requires ThreadAfter(t, c).Some?
    ensures var (after, events) := ThreadAfter(t, c).value;
            && Replay(t.members, events) == after.members
            && events != [] && events[|events| - 1] == Rekey(after.epoch)
            && (forall i :: 0 <= i < |events| - 1 ==> !events[i].Rekey? && events[i].epoch == after.epoch)
  {
    hide Added, Removed, Replay;
    var (grown, added) := Added(t.members, c.epoch, c.added);
    var (left, removed) := Removed(grown, c.epoch, c.removed);
    ReplayAdded(t.members, c.epoch, c.added);
    ReplayRemoved(grown, c.epoch, c.removed);
    ReplayConcat(t.members, added, removed);
    ReplayRekey(t.members, added + removed, c.epoch);
    var events := added + removed + [Rekey(c.epoch)];
    forall i | 0 <= i < |events| - 1 ensures !events[i].Rekey? && events[i].epoch == c.epoch {
      assert events[i] in added || events[i] in removed;
    }
  }

  lemma {:induction false} ReplayRekey(members: seq<string>, events: seq<Event>, epoch: nat)
    ensures Replay(members, events + [Rekey(epoch)]) == Replay(members, events)
  {
    assert (events + [Rekey(epoch)])[..|events|] == events;
  }

  // ----- the client mirrors the group -----

  lemma {:induction false} AddedIsAddAll(members: seq<string>, epoch: nat, added: seq<string>)
    ensures Added(members, epoch, added).0 == AddAll(members, added)
    decreases |added|
  {
    if added != [] {
      AddedIsAddAll(members, epoch, added[..|added| - 1]);
    }
  }

  lemma {:induction false} RemovedIsRemoveAll(members: seq<string>, epoch: nat, removed: seq<string>)
    ensures Removed(members, epoch, removed).0 == RemoveAll(members, removed)
    decreases |removed|
  {
    if removed != [] {
      var init := removed[..|removed| - 1];
      RemovedIsRemoveAll(members, epoch, init);
      RemoveFirstAbsent(RemoveAll(members, init), removed[|removed| - 1]);
    }
  }

  lemma {:induction false} RemoveFirstAbsent(s: seq<string>, x: string)
    ensures x !in s ==> RemoveFirst(s, x) == s
  {
    if s != [] {
      RemoveFirstAbsent(s[1..], x);
      assert s == [s[0]] + s[1..];
    }
  }

  /** From any one member list, the client's removals agree with the group's exactly when every
      removed member is listed at least as often as it occurs. */
  lemma {:induction false} RemovalsAgreeIff(members: seq<string>, epoch: nat, removed: seq<string>)
    ensures Removed(members, epoch, removed).0 == RetainAll(members, removed)
       <==> forall x :: x in removed ==> multiset(members)[x] <= multiset(removed)[x]
  {
    hide Removed, RemoveAll, RetainAll;
    RemovedIsRemoveAll(members, epoch, removed);
    RemoveAllIsRetainAllIff(members, removed);
  }

  ghost predicate Mirrors(t: Thread, g: GroupState) {
    t.epoch == g.epoch && t.members == g.members && NoDuplicates(g.members)
  }

  /** A commit the group applies keeps thread and group in step, and one out of order is refused
      by both without a trace. */
  lemma {:induction false} MirrorStep(h: HashFn, t: Thread, g: GroupState, c: Commit)
    requires Mirrors(t, g)
    ensures Offer(g, c) == Applied ==>
              ThreadAfter(t, c).Some? && Mirrors(ThreadAfter(t, c).value.0, After(h, g, c))
    ensures Offer(g, c).OutOfOrder? <==> ThreadAfter(t, c).None?
  {
    hide Added, Removed, AddAll, RetainAll, Rebuilt, NextSecrets;
    var grown := AddAll(t.members, c.added);
    AddedIsAddAll(t.members, c.epoch, c.added);
    AddAllNoDuplicates(t.members, c.added);
    RemovalsAgreeIff(grown, c.epoch, c.removed);
    forall x | x in c.removed ensures multiset(grown)[x] <= multiset(c.removed)[x] {
      NoDuplicatesOnce(grown, x);
    }
    RetainAllNoDuplicates(grown, c.removed);
  }

  /** The thread after every commit of a list, if all are accepted. */
  function ThreadAfterAll(t: Thread, cs: seq<Commit>): Option<Thread>
    decreases |cs|
  {
    if cs == [] then Some(t)
    else
      match ThreadAfterAll(t, cs[..|cs| - 1])
      case None => None
      case Some(mid) =>
        match ThreadAfter(mid, cs[|cs| - 1])
        case None => None
        case Some(r) => Some(r.0)
  }

  /** After every commit sequence the group applies, the thread has followed it to the same
      epoch and the same duplicate-free members. */
  lemma {:induction false} MirrorRun(h: HashFn, t: Thread, g: GroupState, cs: seq<Commit>)
    requires Mirrors(t, g) && ApplyAll(h, g, cs).0 == Applied
    ensures ThreadAfterAll(t, cs).Some? && Mirrors(ThreadAfterAll(t, cs).value, ApplyAll(h, g, cs).1)
    decreases |cs|
  {
    hide ThreadAfter, After, Offer;
    if cs != [] {
      var init, c := cs[..|cs| - 1], cs[|cs| - 1];
      MirrorRun(h, t, g, init);
      MirrorStep(h, ThreadAfterAll(t, init).value, ApplyAll(h, g, init).1, c);
    }
  }

  // ----- how a thread and its group begin -----

  /** A group built for a list of members: each is added by a commit of its own. */
  method BuildGroup(h: HashFn, members: seq<string>, suite: ProtoSuite, cfgHash: bytes, secret: bytes)
    returns (g: Group, ghost g0: GroupState)
    requires |cfgHash| <= 255
    ensures fresh(g) && Fresh(g0) && g0.members == []
    ensures g.State() == Joined(h, g0, members)
  {
    hide Joined, Rebuilt, DeriveSecret, InitialSeed;
    g := new Group(h, suite, 0, cfgHash, Some(secret));
    g0 := g.State();
    AddMembers(h, g, members);
  }

  method AddMembers(h: HashFn, g: Group, members: seq<string>)
    requires |g.context.cfgHash| <= 255
    modifies g
    ensures g.State() == Joined(h, old(g.State()), members)
  {
    hide After, Offer, JoinedUpTo, JoinCommit, AddAll, Add;
    ghost var g0 := g.State();
    JoinedNone(h, g0, members);
    var i := 0;
    while i < |members|
      invariant 0 <= i <= |members|
      invariant g.State() == JoinedUpTo(h, g0, members, i) && |g.context.cfgHash| <= 255
    {
      JoinedNext(h, g0, members, i, g.State(), JoinCommit(g.epoch + 1, members[i]));
      var o, _ := g.AddMember(h, members[i]);
      assert o == Applied;
      i := i + 1;
    }
  }

  /** A new thread lists the given members, its creator added if missing, at the epoch of the
      group built for that list. */
  method CreateThread(h: HashFn, creator: string, invited: seq<string>, suite: ProtoSuite, cfgHash: bytes, secret: bytes)
    returns (t: ThreadState, g: Group, ghost g0: GroupState)
    requires |cfgHash| <= 255
    ensures fresh(t) && fresh(g) && Fresh(g0) && g0.members == []
    ensures t.members == Add(invited, creator) && t.epoch == g.epoch
    ensures g.State() == Joined(h, g0, Add(invited, creator))
  {
    hide Joined;
    var members := Add(invited, creator);
    g, g0 := BuildGroup(h, members, suite, cfgHash, secret);
    t := new ThreadState(g.epoch, members);
  }

  /** A new thread mirrors its group exactly when no member was given twice. */
  lemma {:induction false} CreationMirrorsIff(h: HashFn, g0: GroupState, creator: string, invited: seq<string>)
    requires Fresh(g0) && g0.members == []
    ensures var members := Add(invited, creator);
            var g := Joined(h, g0, members);
            Mirrors(Thread(g.epoch, members), g) <==> NoDuplicates(invited)
  {
    var members := Add(invited, creator);
    JoinedMembers(h, g0, members);
    hide Joined, AddAll;
    AddAllToNoneIff(members);
    if NoDuplicates(members) {
      assert forall i :: 0 <= i < |invited| ==> invited[i] == members[i];
    }
  }

  /** A creator "a" who names "b" twice starts with a list of three members and a group of two. */
  lemma RepeatedInviteDiverges(h: HashFn, g0: GroupState)
    requires Fresh(g0) && g0.members == []
    ensures Add(["b", "b"], "a") == ["b", "b", "a"]
    ensures Joined(h, g0, ["b", "b", "a"]).members == ["b", "a"]
  {
    assert "a" != "b" by {
      assert "a"[0] != "b"[0];
    }
    JoinedMembers(h, g0, ["b", "b", "a"]);
    hide Joined;
    AddAllTwice("a", "b");
  }

  /** So from its creation, over every commit sequence its group applies, a thread without repeated
      invites keeps the members and the epoch of its group. */
  lemma {:induction false} ThreadFollowsGroup(h: HashFn, g0: GroupState, creator: string, invited: seq<string>, cs: seq<Commit>)
    requires Fresh(g0) && g0.members == [] && NoDuplicates(invited)
    requires ApplyAll(h, Joined(h, g0, Add(invited, creator)), cs).0 == Applied
    ensures var g := Joined(h, g0, Add(invited, creator));
            var t := Thread(g.epoch, Add(invited, creator));
            ThreadAfterAll(t, cs).Some? && Mirrors(ThreadAfterAll(t, cs).value, ApplyAll(h, g, cs).1)
  {
    hide Joined, ThreadAfterAll, ApplyAll, Mirrors;
    CreationMirrorsIff(h, g0, creator, invited);
    var g := Joined(h, g0, Add(invited, creator));
    MirrorRun(h, Thread(g.epoch, Add(invited, creator)), g, cs);
  }
}
