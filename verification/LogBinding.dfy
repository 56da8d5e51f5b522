/** A Merkle root determines the whole log, unless the two logs contain two different hash
    inputs with one digest. */
module LogBinding {
  import opened Numbers
  import opened Hashing
  import opened MerkleTree
  import opened Cbor
  import opened CheckpointEntries
  import opened CheckpointLogs

  // ----- a tree determines its leaves -----

  function CountLeaves<D>(t: Tree<D>): nat {
    match t
    case Leaf(_) => 1
    case Node(l, r) => CountLeaves(l) + CountLeaves(r)
  }

  lemma {:induction false} PerfectCount<D>(s: seq<D>)
    requires IsPow2(|s|)
    ensures CountLeaves(Perfect(s)) == |s|
    decreases |s|
  {
    if |s| > 1 {
      PerfectCount(s[..|s| / 2]);
      PerfectCount(s[|s| / 2..]);
    }
  }

  lemma {:induction false} TreeCount<D>(s: seq<D>)
    requires s != []
    ensures CountLeaves(TreeOf(s)) == |s|
    decreases |s|
  {
    var cut := |s| - LowBit(|s|);
    if cut == 0 {
      PerfectCount(s);
    } else {
      PerfectCount(s[cut..]);
      TreeCount(s[..cut]);
    }
  }

  lemma {:induction false} PerfectInjective<D>(s: seq<D>, t: seq<D>)
    requires IsPow2(|s|) && |s| == |t| && Perfect(s) == Perfect(t)
    ensures s == t
    decreases |s|
  {
    var half := |s| / 2;
    if |s| > 1 {
      PerfectInjective(s[..half], t[..half]);
      PerfectInjective(s[half..], t[half..]);
      assert s == s[..half] + s[half..] && t == t[..half] + t[half..];
    }
  }

  lemma {:induction false} TreeInjective<D>(s: seq<D>, t: seq<D>)
    requires s != [] && t != [] && TreeOf(s) == TreeOf(t)
    ensures s == t
    decreases |s|
  {
    hide Perfect;
    TreeCount(s);
    TreeCount(t);
    var cut := |s| - LowBit(|s|);
    if cut == 0 {
      PerfectInjective(s, t);
    } else {
      PerfectInjective(s[cut..], t[cut..]);
      TreeInjective(s[..cut], t[..cut]);
      assert s == s[..cut] + s[cut..] && t == t[..cut] + t[cut..];
    }
  }

  // ----- a digest determines its tree -----

  ghost function NodeInputs(h: HashFn, t: Tree<bytes>): set<bytes> {
    match t
    case Leaf(_) => {}
    case Node(l, r) =>
      {NodeInput(Digest(HashNode(h), l), Digest(HashNode(h), r))} + NodeInputs(h, l) + NodeInputs(h, r)
  }

  /** Every leaf of the tree is the digest of one of the given leaf inputs. */
  ghost predicate LeavesFrom(h: HashFn, t: Tree<bytes>, inputs: set<bytes>) {
    match t
    case Leaf(d) => exists x :: x in inputs && x != [] && x[0] == 0x00 && h(x) == d
    case Node(l, r) => LeavesFrom(h, l, inputs) && LeavesFrom(h, r, inputs)
  }

  lemma {:induction false} DigestLength(h: HashFn, t: Tree<bytes>, inputs: set<bytes>)
    requires LeavesFrom(h, t, inputs)
    ensures |Digest(HashNode(h), t)| == 32
  {
    match t
    case Leaf(d) =>
      var x :| x in inputs && x != [] && x[0] == 0x00 && h(x) == d;
      HashLength(h, x);
    case Node(l, r) =>
      HashLength(h, NodeInput(Digest(HashNode(h), l), Digest(HashNode(h), r)));
  }

  lemma {:induction false} NodeInputInjective(l: bytes, r: bytes, l': bytes, r': bytes)
    requires |l| == |l'| && NodeInput(l, r) == NodeInput(l', r')
    ensures l == l' && r == r'
  {
    var x, y := NodeInput(l, r), NodeInput(l', r');
    assert l == x[1..1 + |l|] && l' == y[1..1 + |l|];
    assert r == x[1 + |l|..] && r' == y[1 + |l|..];
  }

  lemma {:induction false} LeafIsNoNode(h: HashFn, t: Tree<bytes>, u: Tree<bytes>, xs: set<bytes>, ys: set<bytes>)
    requires t.Leaf? && u.Node? && LeavesFrom(h, t, xs)
    requires Digest(HashNode(h), t) == Digest(HashNode(h), u)
    ensures Collide(h, xs, NodeInputs(h, u)) && Collide(h, NodeInputs(h, u), xs)
  {
    var x :| x in xs && x != [] && x[0] == 0x00 && h(x) == t.digest;
    var y := NodeInput(Digest(HashNode(h), u.left), Digest(HashNode(h), u.right));
    assert y in NodeInputs(h, u) && y[0] == 0x01;
    assert h(y) == Digest(HashNode(h), u);
    hide Collide, NodeInputs, Digest, NodeInput;
    CollideAt(h, xs, NodeInputs(h, u), x, y);
    CollideAt(h, NodeInputs(h, u), xs, y, x);
  }

  lemma {:induction false} TreesBind(h: HashFn, t: Tree<bytes>, u: Tree<bytes>, xs: set<bytes>, ys: set<bytes>)
    requires LeavesFrom(h, t, xs) && LeavesFrom(h, u, ys)
    requires Digest(HashNode(h), t) == Digest(HashNode(h), u)
    ensures t == u || Collide(h, NodeInputs(h, t) + xs, NodeInputs(h, u) + ys)
    decreases t, 1
  {
    hide Collide, HashNode, Digest, NodeInputs, LeavesFrom;
    var all, all' := NodeInputs(h, t) + xs, NodeInputs(h, u) + ys;
    match (t, u)
    case (Leaf(_), Leaf(_)) => SameLeaf(h, t, u);
    case (Leaf(_), Node(_, _)) =>
      LeafIsNoNode(h, t, u, xs, ys);
      CollideWider(h, xs, NodeInputs(h, u), all, all');
    case (Node(_, _), Leaf(_)) =>
      LeafIsNoNode(h, u, t, ys, xs);
      CollideWider(h, NodeInputs(h, t), ys, all, all');
    case (Node(_, _), Node(_, _)) => NodesBind(h, t, u, xs, ys);
  }

  lemma {:induction false} SameLeaf(h: HashFn, t: Tree<bytes>, u: Tree<bytes>)
    requires t.Leaf? && u.Leaf? && Digest(HashNode(h), t) == Digest(HashNode(h), u)
    ensures t == u
  {
  }

  lemma {:induction false} NodesBind(h: HashFn, t: Tree<bytes>, u: Tree<bytes>, xs: set<bytes>, ys: set<bytes>)
    requires t.Node? && u.Node? && LeavesFrom(h, t, xs) && LeavesFrom(h, u, ys)
    requires Digest(HashNode(h), t) == Digest(HashNode(h), u)
    ensures t == u || Collide(h, NodeInputs(h, t) + xs, NodeInputs(h, u) + ys)
    decreases t, 0
  {
    hide Collide, HashNode, Digest, NodeInputs, LeavesFrom, NodeInput;
    var all, all' := NodeInputs(h, t) + xs, NodeInputs(h, u) + ys;
    NodeDigest(h, t);
    NodeDigest(h, u);
    var x, y := ThisInput(h, t), ThisInput(h, u);
    if x != y {
      CollideAt(h, all, all', x, y);
    } else {
      ChildrenFrom(h, t, xs);
      ChildrenFrom(h, u, ys);
      NodeInputInjective(Digest(HashNode(h), t.left), Digest(HashNode(h), t.right),
                         Digest(HashNode(h), u.left), Digest(HashNode(h), u.right));
      TreesBind(h, t.left, u.left, xs, ys);
      TreesBind(h, t.right, u.right, xs, ys);
      if t.left != u.left {
        CollideWider(h, NodeInputs(h, t.left) + xs, NodeInputs(h, u.left) + ys, all, all');
      } else if t.right != u.right {
        CollideWider(h, NodeInputs(h, t.right) + xs, NodeInputs(h, u.right) + ys, all, all');
      }
    }
  }

  function ThisInput(h: HashFn, t: Tree<bytes>): bytes
    requires t.Node?
  {
    NodeInput(Digest(HashNode(h), t.left), Digest(HashNode(h), t.right))
  }

  lemma {:induction false} NodeDigest(h: HashFn, t: Tree<bytes>)
    requires t.Node?
    ensures Digest(HashNode(h), t) == h(ThisInput(h, t))
    ensures ThisInput(h, t) in NodeInputs(h, t)
    ensures NodeInputs(h, t.left) <= NodeInputs(h, t) && NodeInputs(h, t.right) <= NodeInputs(h, t)
  {
  }

  lemma {:induction false} ChildrenFrom(h: HashFn, t: Tree<bytes>, xs: set<bytes>)
    requires t.Node? && LeavesFrom(h, t, xs)
    ensures LeavesFrom(h, t.left, xs) && LeavesFrom(h, t.right, xs)
    ensures |Digest(HashNode(h), t.left)| == 32
  {
    DigestLength(h, t.left, xs);
  }

  // ----- a root determines its log -----

  ghost function LeafInputs(entries: seq<CheckpointEntry>): set<bytes> {
    set i | 0 <= i < |entries| :: LeafInput(entries[i])
  }

  /** Everything that is hashed to compute the root of a log. */
  ghost function LogInputs(h: HashFn, entries: seq<CheckpointEntry>): set<bytes> {
    LeafInputs(entries)
    + if entries == [] then {} else NodeInputs(h, TreeOf(LeafHashes(h, entries)))
  }

  lemma {:induction false} PerfectFrom(h: HashFn, s: seq<bytes>, xs: set<bytes>)
    requires IsPow2(|s|)
    requires forall i :: 0 <= i < |s| ==> LeavesFrom(h, Leaf(s[i]), xs)
    ensures LeavesFrom(h, Perfect(s), xs)
    decreases |s|
  {
    if |s| > 1 {
      PerfectFrom(h, s[..|s| / 2], xs);
      PerfectFrom(h, s[|s| / 2..], xs);
    }
  }

  lemma {:induction false} TreeFrom(h: HashFn, s: seq<bytes>, xs: set<bytes>)
    requires s != []
    requires forall i :: 0 <= i < |s| ==> LeavesFrom(h, Leaf(s[i]), xs)
    ensures LeavesFrom(h, TreeOf(s), xs)
    decreases |s|
  {
    hide Perfect;
    var cut := |s| - LowBit(|s|);
    if cut == 0 {
      PerfectFrom(h, s, xs);
    } else {
      PerfectFrom(h, s[cut..], xs);
      TreeFrom(h, s[..cut], xs);
    }
  }

  lemma {:induction false} LogTreeFrom(h: HashFn, entries: seq<CheckpointEntry>)
    requires entries != []
    ensures LeavesFrom(h, TreeOf(LeafHashes(h, entries)), LeafInputs(entries))
    ensures |LogRoot(h, entries)| == 32
  {
    var s, xs := LeafHashes(h, entries), LeafInputs(entries);
    forall i | 0 <= i < |s| ensures LeavesFrom(h, Leaf(s[i]), xs) {
      var x := LeafInput(entries[i]);
      assert x in xs && x != [] && x[0] == 0x00 && h(x) == s[i];
    }
    TreeFrom(h, s, xs);
    DigestLength(h, TreeOf(s), xs);
  }

  /** Equal leaf digests mean equal entries, or a collision between two leaf inputs. */
  lemma {:induction false} LeavesBind(h: HashFn, a: seq<CheckpointEntry>, b: seq<CheckpointEntry>)
    requires AllFit(a) && AllFit(b) && LeafHashes(h, a) == LeafHashes(h, b)
    ensures a == b || Collide(h, LeafInputs(a), LeafInputs(b))
  {
    hide Fits, EntryBytes;
    assert |a| == |LeafHashes(h, a)| == |b|;
    if i :| 0 <= i < |a| && a[i] != b[i] {
      var x, y := LeafInput(a[i]), LeafInput(b[i]);
      assert x in LeafInputs(a) && y in LeafInputs(b);
      assert h(x) == LeafHashes(h, a)[i] == LeafHashes(h, b)[i] == h(y);
      if x == y {
        assert EntryBytes(a[i]) == x[1..] && EntryBytes(b[i]) == y[1..];
        EntryBytesInjective(a[i], b[i]);
        assert false;
      }
    } else {
      assert a == b;
    }
  }

  /** Logs of any lengths with equal roots are equal, or two different inputs hashed for the
      two roots have one digest. */
  lemma {:induction false} RootBindsLog(h: HashFn, a: seq<CheckpointEntry>, b: seq<CheckpointEntry>)
    requires AllFit(a) && AllFit(b) && LogRoot(h, a) == LogRoot(h, b)
    ensures a == b || Collide(h, LogInputs(h, a), LogInputs(h, b))
  {
    hide AllFit, Collide, TreeOf, NodeInputs, LeafInputs, LeafHashes, LeavesFrom, HashNode;
    if a == [] || b == [] {
      EmptyHolds(h);
      if a != [] {
        LogTreeFrom(h, a);
      }
      if b != [] {
        LogTreeFrom(h, b);
      }
    } else {
      LogTreeFrom(h, a);
      LogTreeFrom(h, b);
      var s, t := LeafHashes(h, a), LeafHashes(h, b);
      TreesBind(h, TreeOf(s), TreeOf(t), LeafInputs(a), LeafInputs(b));
      if TreeOf(s) == TreeOf(t) {
        TreeInjective(s, t);
        LeavesBind(h, a, b);
        if a != b {
          CollideWider(h, LeafInputs(a), LeafInputs(b), LogInputs(h, a), LogInputs(h, b));
        }
      } else {
        CollideWider(h, NodeInputs(h, TreeOf(s)) + LeafInputs(a), NodeInputs(h, TreeOf(t)) + LeafInputs(b),
                     LogInputs(h, a), LogInputs(h, b));
      }
    }
  }

  // ----- comparing two logs -----

  datatype Consistency = Identical | LocalBehind | LocalAhead | Diverged

  predicate IsPrefixOf(a: seq<CheckpointEntry>, b: seq<CheckpointEntry>) {
    |a| <= |b| && forall i :: 0 <= i < |a| ==> a[i] == b[i]
  }

  function CompareWith(a: seq<CheckpointEntry>, b: seq<CheckpointEntry>): Consistency {
    if a == b then Identical
    else if IsPrefixOf(a, b) then LocalBehind
    else if IsPrefixOf(b, a) then LocalAhead
    else Diverged
  }

  /** Two logs diverge exactly when they agree up to some entry and differ there; otherwise one
      extends the other. */
  lemma {:induction false} CompareMeans(a: seq<CheckpointEntry>, b: seq<CheckpointEntry>)
    ensures CompareWith(a, b) == LocalBehind <==> a < b
    ensures CompareWith(a, b) == LocalAhead <==> b < a
    ensures CompareWith(a, b) == Diverged <==>
              exists n :: 0 <= n < |a| && n < |b| && a[..n] == b[..n] && a[n] != b[n]
  {
    if !IsPrefixOf(a, b) && !IsPrefixOf(b, a) {
      var n := FirstDifference(a, b, 0);
      assert a[..n] == b[..n] && a[n] != b[n];
    }
  }

  lemma {:induction false} FirstDifference(a: seq<CheckpointEntry>, b: seq<CheckpointEntry>, from: nat) returns (n: nat)
    requires !IsPrefixOf(a, b) && !IsPrefixOf(b, a) && from <= |a| && from <= |b| && a[..from] == b[..from]
    ensures n < |a| && n < |b| && a[..n] == b[..n] && a[n] != b[n]
    decreases |a| - from
  {
    assert forall i :: 0 <= i < from ==> a[i] == a[..from][i] == b[..from][i] == b[i];
    if a[from] != b[from] {
      n := from;
    } else {
      n := FirstDifference(a, b, from + 1);
    }
  }

  /** Comparing roots is comparing logs: they are equal exactly when the logs are identical, short
      of two hash inputs of the logs with one digest. */
  lemma {:induction false} RootsCompareLogs(h: HashFn, a: seq<CheckpointEntry>, b: seq<CheckpointEntry>)
    requires AllFit(a) && AllFit(b)
    ensures (LogRoot(h, a) == LogRoot(h, b) <==> CompareWith(a, b) == Identical)
         || Collide(h, LogInputs(h, a), LogInputs(h, b))
  {
    hide LogRoot, Collide, LogInputs, AllFit;
    if LogRoot(h, a) == LogRoot(h, b) {
      RootBindsLog(h, a, b);
    }
  }
}
