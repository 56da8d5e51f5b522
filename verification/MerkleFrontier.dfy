/** The binary-counter frontier: one optional digest per level, a filled slot for each set
    bit of the leaf count. */
module MerkleFrontier {
  import opened Numbers
  import opened Hashing
  import opened MerkleTree

  /** The frontier of the digests `s`, read from the lowest level up: an odd digest waits in
      the first slot, the rest move up in pairs. */
  ghost predicate Represents<D>(node: (D, D) -> D, f: seq<Option<D>>, s: seq<D>)
    decreases |f|
  {
    if f == [] then s == []
    else if |s| % 2 == 1 then
      f[0] == Some(s[|s| - 1]) && Represents(node, f[1..], Pairs(node, s[..|s| - 1]))
    else
      f[0] == None && Represents(node, f[1..], Pairs(node, s))
  }

  /** Adding one digest: combine with filled slots until an empty one takes the carry. */
  function Carry<D>(node: (D, D) -> D, f: seq<Option<D>>, d: D): seq<Option<D>>
    decreases |f|
  {
    if f == [] then [Some(d)]
    else
      match f[0]
      case None => [Some(d)] + f[1..]
      case Some(left) => [None] + Carry(node, f[1..], node(left, d))
  }

  /** Folding the slots from the highest level down, each on the left of the result so far. */
  function FoldRoot<D>(node: (D, D) -> D, f: seq<Option<D>>): Option<D>
    decreases |f|
  {
    if f == [] then None
    else
      var above := FoldRoot(node, f[1..]);
      match f[0]
      case None => above
      case Some(d) => Some(if above.Some? then node(d, above.value) else d)
  }

  lemma PairsSnoc<D>(node: (D, D) -> D, s: seq<D>, d: D)
    requires |s| % 2 == 1
    ensures Pairs(node, s + [d]) == Pairs(node, s[..|s| - 1]) + [node(s[|s| - 1], d)]
  {
    var n := |s| - 1;
    var t := s + [d];
    CutPairs(node, t, n);
    assert t[..n] == s[..n] && t[n..] == [s[n], d];
    PairsAt(node, t[n..], 0);
    assert Pairs(node, t) == Pairs(node, t)[..n / 2] + Pairs(node, t)[n / 2..];
  }

  lemma NoPairs<D>(node: (D, D) -> D)
    ensures Pairs(node, []) == []
  {
  }

  /** The carry keeps the frontier of one more leaf. */
  lemma {:induction false} CarryRepresents<D>(node: (D, D) -> D, f: seq<Option<D>>, s: seq<D>, d: D)
    requires Represents(node, f, s)
    ensures Represents(node, Carry(node, f, d), s + [d])
    decreases |f|
  {
    hide Pairs;
    var n := |s|;
    if f == [] {
      assert (s + [d])[..n] == [];
      NoPairs(node);
    } else if n % 2 == 0 {
      assert (s + [d])[..n] == s;
      assert Carry(node, f, d)[1..] == f[1..];
    } else {
      CarryRepresents(node, f[1..], Pairs(node, s[..n - 1]), node(s[n - 1], d));
      PairsSnoc(node, s, d);
      assert Carry(node, f, d)[1..] == Carry(node, f[1..], node(s[n - 1], d));
    }
  }

  /** Folding the frontier gives the root of the tree over all leaves. */
  lemma {:induction false} FoldRootIsRoot<D>(node: (D, D) -> D, f: seq<Option<D>>, s: seq<D>)
    requires Represents(node, f, s)
    ensures FoldRoot(node, f) == RootOf(node, s)
    decreases |f|
  {
    hide Pairs, TreeOf, Digest, Represents;
    if f != [] {
      var n := |s|;
      var even := if n % 2 == 0 then s else s[..n - 1];
      RepresentsStep(node, f, s, even);
      FoldRootIsRoot(node, f[1..], Pairs(node, even));
      if n % 2 == 1 {
        OddRoot(node, s);
      } else if n > 0 {
        TreePairs(node, s);
      }
    } else {
      RepresentsNone(node, s);
    }
  }

  lemma RepresentsStep<D>(node: (D, D) -> D, f: seq<Option<D>>, s: seq<D>, even: seq<D>)
    requires f != [] && Represents(node, f, s)
    requires even == if |s| % 2 == 0 then s else s[..|s| - 1]
    ensures f[0] == if |s| % 2 == 0 then None else Some(s[|s| - 1])
    ensures Represents(node, f[1..], Pairs(node, even))
  {
    hide Pairs;
  }

  lemma RepresentsNone<D>(node: (D, D) -> D, s: seq<D>)
    requires Represents(node, [], s)
    ensures s == []
  {
  }

  lemma OddRoot<D>(node: (D, D) -> D, s: seq<D>)
    requires |s| % 2 == 1
    ensures |s| == 1 ==> Digest(node, TreeOf(s)) == s[0]
    ensures |s| > 1 ==>
              Digest(node, TreeOf(s)) == node(s[|s| - 1], Digest(node, TreeOf(Pairs(node, s[..|s| - 1]))))
  {
    hide Pairs;
    var n := |s|;
    assert LowBit(n) == 1;
    if n > 1 {
      var init := s[..n - 1];
      assert s[n - 1..] == [s[n - 1]];
      assert TreeOf(s) == Node(Leaf(s[n - 1]), TreeOf(init));
      TreePairs(node, init);
    }
  }

  // ----- which slots are filled, and with what -----

  lemma {:induction false} Pow2IsPow2(l: nat)
    ensures IsPow2(Pow2(l))
  {
    if l > 0 {
      Pow2IsPow2(l - 1);
    }
  }

  predicate Bit(n: nat, l: nat)
    decreases l
  {
    if l == 0 then n % 2 == 1 else Bit(n / 2, l - 1)
  }

  /** `n` with its low `l + 1` bits cleared: where the block of slot `l` starts. */
  function BlockStart(n: nat, l: nat): nat
    decreases l
  {
    if l == 0 then n / 2 * 2 else 2 * BlockStart(n / 2, l - 1)
  }

  lemma {:induction false} BlockFits(n: nat, l: nat)
    requires Bit(n, l)
    ensures BlockStart(n, l) + Pow2(l) <= n
    decreases l
  {
    if l > 0 {
      BlockFits(n / 2, l - 1);
    }
  }

  /** Slot `l` is filled exactly when bit `l` of the leaf count is set, and then holds the
      digest of the perfect tree over its block of leaves. */
  lemma {:induction false} SlotContents<D>(node: (D, D) -> D, f: seq<Option<D>>, s: seq<D>, l: nat)
    requires Represents(node, f, s) && l < |f|
    ensures f[l].Some? <==> Bit(|s|, l)
    ensures f[l].Some? ==> BlockStart(|s|, l) + Pow2(l) <= |s| && IsPow2(Pow2(l))
    ensures f[l].Some? ==>
              f[l].value == Digest(node, Perfect(s[BlockStart(|s|, l)..BlockStart(|s|, l) + Pow2(l)]))
    decreases l
  {
    hide Pairs, Represents;
    var n := |s|;
    Pow2IsPow2(l);
    if Bit(n, l) {
      BlockFits(n, l);
    }
    var even := if n % 2 == 0 then s else s[..n - 1];
    RepresentsStep(node, f, s, even);
    if l > 0 {
      SlotContents(node, f[1..], Pairs(node, even), l - 1);
      if f[l].Some? {
        SlotLift(node, s, even, l);
      }
    } else if n % 2 == 1 {
      assert s[n - 1..n] == [s[n - 1]];
    }
  }

  /** Every set bit of the leaf count has its slot. */
  lemma {:induction false} NoBitBeyond<D>(node: (D, D) -> D, f: seq<Option<D>>, s: seq<D>, l: nat)
    requires Represents(node, f, s) && l >= |f|
    ensures !Bit(|s|, l)
    decreases l
  {
    hide Pairs, Represents;
    if f == [] {
      RepresentsNone(node, s);
      NoBits(l);
    } else {
      var even := if |s| % 2 == 0 then s else s[..|s| - 1];
      RepresentsStep(node, f, s, even);
      NoBitBeyond(node, f[1..], Pairs(node, even), l - 1);
    }
  }

  lemma {:induction false} NoBits(l: nat)
    ensures !Bit(0, l)
    decreases l
  {
    if l > 0 {
      NoBits(l - 1);
    }
  }

  lemma SlotLift<D>(node: (D, D) -> D, s: seq<D>, even: seq<D>, l: nat)
    requires l > 0 && Bit(|s|, l)
    requires even == if |s| % 2 == 0 then s else s[..|s| - 1]
    requires IsPow2(Pow2(l)) && IsPow2(Pow2(l - 1))
    requires BlockStart(|s|, l) + Pow2(l) <= |s|
    requires BlockStart(|s| / 2, l - 1) + Pow2(l - 1) <= |s| / 2
    ensures Digest(node, Perfect(s[BlockStart(|s|, l)..BlockStart(|s|, l) + Pow2(l)]))
         == Digest(node, Perfect(Pairs(node, even)[BlockStart(|s| / 2, l - 1)..BlockStart(|s| / 2, l - 1) + Pow2(l - 1)]))
  {
    hide Pairs, Perfect, IsPow2, Digest, Bit;
    var a, w := BlockStart(|s| / 2, l - 1), Pow2(l - 1);
    assert BlockStart(|s|, l) == 2 * a && Pow2(l) == 2 * w;
    hide BlockStart, Pow2;
    var block := s[2 * a..2 * (a + w)];
    assert even[2 * a..2 * (a + w)] == block;
    PairsSlice(node, even, a, a + w);
    PerfectPairs(node, block);
  }

  // ----- the state as it is kept -----

  class MerkleState<D> {
    var frontier: seq<Option<D>>
    var leafCount: nat

    constructor ()
      ensures frontier == [] && leafCount == 0
    {
      frontier := [];
      leafCount := 0;
    }

    /** The state holds exactly the leaves `s`. */
    ghost predicate Holds(node: (D, D) -> D, s: seq<D>)
      reads this
    {
      leafCount == |s| && Represents(node, frontier, s)
    }

    method Root(node: (D, D) -> D) returns (root: Option<D>)
      ensures root == FoldRoot(node, frontier)
    {
      root := None;
      var level := |frontier|;
      while level > 0
        invariant 0 <= level <= |frontier|
        invariant root == FoldRoot(node, frontier[level..])
      {
        level := level - 1;
        assert frontier[level..][1..] == frontier[level + 1..];
        match frontier[level]
        case None =>
        case Some(hash) =>
          root := Some(if root.None? then hash else node(hash, root.value));
      }
      assert frontier[0..] == frontier;
    }

    /** The carry loop follows the set low bits of the leaf count. Every set bit finds its
        left sibling waiting in the slot of its level. */
    method CarryUp(node: (D, D) -> D, leaf: D, ghost leaves: seq<D>) returns (carry: D, level: nat)
      requires Holds(node, leaves)
      modifies this`frontier
      ensures level <= |frontier|
      ensures Carry(node, old(frontier), leaf)
           == if level < |frontier| then frontier[level := Some(carry)] else frontier + [Some(carry)]
    {
      hide Represents, Pairs, Carry;
      ghost var above := leaves;
      carry := leaf;
      level := 0;
      var index := leafCount;
      while index % 2 == 1
        invariant level <= |frontier|
        invariant index == |above| && Represents(node, frontier[level..], above)
        invariant Carry(node, old(frontier), leaf) == frontier[..level] + Carry(node, frontier[level..], carry)
        decreases index
      {
        SlotPresent(node, frontier[level..], above);
        assert level < |frontier| && frontier[level].Some?;
        if level < |frontier| && frontier[level].Some? {
          var left := frontier[level].value;
          CarryPast(node, frontier, level, left, carry);
          carry := node(left, carry);
          frontier := frontier[level := None];
        }
        above := Pairs(node, above[..|above| - 1]);
        index := index / 2;
        level := level + 1;
      }
      SlotAbsent(node, frontier[level..], above);
      CarryStop(node, frontier, level, carry);
    }

    /** Adds one leaf digest and returns the new root, the root of the tree over all leaves. */
    method AppendLeaf(node: (D, D) -> D, leaf: D, ghost leaves: seq<D>) returns (root: Option<D>)
      requires Holds(node, leaves)
      modifies this
      ensures Holds(node, leaves + [leaf])
      ensures root == RootOf(node, leaves + [leaf])
    {
      CarryRepresents(node, frontier, leaves, leaf);
      hide Represents, Carry, RootOf, FoldRoot;
      var carry, level := CarryUp(node, leaf, leaves);
      if |frontier| <= level {
        frontier := frontier + [None];
      }
      frontier := frontier[level := Some(carry)];
      leafCount := leafCount + 1;
      assert frontier == Carry(node, old(frontier), leaf);
      root := Root(node);
      FoldRootIsRoot(node, frontier, leaves + [leaf]);
    }
  }

  // ----- one turn of the carry loop -----

  lemma SlotPresent<D>(node: (D, D) -> D, f: seq<Option<D>>, s: seq<D>)
    requires Represents(node, f, s) && |s| % 2 == 1
    ensures f != [] && f[0] == Some(s[|s| - 1])
    ensures Represents(node, f[1..], Pairs(node, s[..|s| - 1]))
  {
    hide Pairs;
  }

  lemma SlotAbsent<D>(node: (D, D) -> D, f: seq<Option<D>>, s: seq<D>)
    requires Represents(node, f, s) && |s| % 2 == 0
    ensures f == [] || f[0] == None
  {
    hide Pairs;
  }

  lemma CarryPast<D>(node: (D, D) -> D, f: seq<Option<D>>, level: nat, left: D, carry: D)
    requires level < |f| && f[level] == Some(left)
    ensures f[..level] + Carry(node, f[level..], carry)
         == f[level := None][..level + 1] + Carry(node, f[level := None][level + 1..], node(left, carry))
    ensures f[level := None][level + 1..] == f[level..][1..]
  {
    var g := f[level := None];
    assert g[level + 1..] == f[level + 1..] == f[level..][1..];
    assert g[..level + 1] == f[..level] + [None];
  }

  lemma CarryStop<D>(node: (D, D) -> D, f: seq<Option<D>>, level: nat, carry: D)
    requires level <= |f| && (f[level..] == [] || f[level..][0] == None)
    ensures f[..level] + Carry(node, f[level..], carry)
         == if level < |f| then f[level := Some(carry)] else f + [Some(carry)]
  {
  }
}
