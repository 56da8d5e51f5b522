/** SHA-256 as an unknown function with 32-byte results. */
module Hashing {
  import opened Numbers

  type HashFn = h: bytes -> bytes | forall d: bytes :: |h(d)| == 32 witness (_ => seq(32, _ => 0))

  /** Two different inputs, one from each side, with one digest. */
  ghost predicate Collide(h: HashFn, xs: set<bytes>, ys: set<bytes>) {
    exists x, y :: x in xs && y in ys && x != y && h(x) == h(y)
  }

  lemma HashLength(h: HashFn, x: bytes)
    ensures |h(x)| == 32
  {
  }

  lemma CollideAt(h: HashFn, xs: set<bytes>, ys: set<bytes>, x: bytes, y: bytes)
    requires x in xs && y in ys && x != y && h(x) == h(y)
    ensures Collide(h, xs, ys)
  {
  }

  lemma CollideWider(h: HashFn, xs: set<bytes>, ys: set<bytes>, xs': set<bytes>, ys': set<bytes>)
    requires Collide(h, xs, ys) && xs <= xs' && ys <= ys'
    ensures Collide(h, xs', ys')
  {
    var x, y :| x in xs && y in ys && x != y && h(x) == h(y);
    assert x in xs' && y in ys';
  }
}

/** The tree over all leaves that the incremental frontier must agree with, for any way
    `node` of combining the digests of two children. */
module MerkleTree {
  import opened Numbers

  datatype Tree<D> = Leaf(digest: D) | Node(left: Tree<D>, right: Tree<D>)

  predicate IsPow2(n: nat) {
    n == 1 || (n > 0 && n % 2 == 0 && IsPow2(n / 2))
  }

  /** The lowest set bit of `n`, as a power of two. */
  function LowBit(n: nat): (k: nat)
    requires n > 0
    ensures 0 < k <= n && IsPow2(k)
    ensures k == n <==> IsPow2(n)
  {
    if n % 2 == 1 then 1 else 2 * LowBit(n / 2)
  }

  /** The perfect tree over a power of two of leaves. */
  function Perfect<D>(s: seq<D>): Tree<D>
    requires IsPow2(|s|)
    decreases |s|
  {
    if |s| == 1 then Leaf(s[0])
    else Node(Perfect(s[..|s| / 2]), Perfect(s[|s| / 2..]))
  }

  /** With `k` the lowest set bit of the leaf count: the perfect tree over the last `k`
      leaves on the left, and the tree over all earlier leaves on the right. */
  function TreeOf<D>(s: seq<D>): Tree<D>
    requires s != []
    decreases |s|
  {
    var k := LowBit(|s|);
    if k == |s| then Perfect(s)
    else Node(Perfect(s[|s| - k..]), TreeOf(s[..|s| - k]))
  }

  function Digest<D>(node: (D, D) -> D, t: Tree<D>): D {
    match t
    case Leaf(d) => d
    case Node(l, r) => node(Digest(node, l), Digest(node, r))
  }

  /** The Merkle root over all leaves; none for no leaves. */
  function RootOf<D>(node: (D, D) -> D, s: seq<D>): Option<D> {
    if s == [] then None else Some(Digest(node, TreeOf(s)))
  }

  // ----- pairing neighbours -----

  /** The digests one level up: neighbours combined. */
  function Pairs<D>(node: (D, D) -> D, s: seq<D>): (r: seq<D>)
    requires |s| % 2 == 0
    ensures |r| == |s| / 2
  {
    seq(|s| / 2, i requires 0 <= i < |s| / 2 => node(s[2 * i], s[2 * i + 1]))
  }

  lemma PairsAt<D>(node: (D, D) -> D, s: seq<D>, i: nat)
    requires |s| % 2 == 0 && i < |s| / 2
    ensures Pairs(node, s)[i] == node(s[2 * i], s[2 * i + 1])
  {
  }

  lemma PairsSlice<D>(node: (D, D) -> D, s: seq<D>, a: nat, b: nat)
    requires |s| % 2 == 0 && 2 * a <= 2 * b <= |s|
    ensures Pairs(node, s[2 * a..2 * b]) == Pairs(node, s)[a..b]
  {
    hide Pairs;
    var part := s[2 * a..2 * b];
    forall i | 0 <= i < b - a ensures Pairs(node, part)[i] == Pairs(node, s)[a..b][i] {
      PairsAt(node, part, i);
      PairsAt(node, s, a + i);
    }
  }

  lemma CutPairs<D>(node: (D, D) -> D, s: seq<D>, cut: nat)
    requires |s| % 2 == 0 && cut % 2 == 0 && cut <= |s|
    ensures Pairs(node, s)[..cut / 2] == Pairs(node, s[..cut])
    ensures Pairs(node, s)[cut / 2..] == Pairs(node, s[cut..])
  {
    hide Pairs;
    var p, c := Pairs(node, s), cut / 2;
    assert 2 * c == cut && 2 * |p| == |s|;
    PairsSlice(node, s, 0, c);
    PairsSlice(node, s, c, |p|);
    assert s[0..cut] == s[..cut] && s[cut..|s|] == s[cut..];
    assert p[0..c] == p[..c] && p[c..|p|] == p[c..];
  }

  lemma {:induction false} PerfectPairs<D>(node: (D, D) -> D, s: seq<D>)
    requires IsPow2(|s|) && |s| >= 2
    ensures |s| % 2 == 0 && IsPow2(|s| / 2)
    ensures Digest(node, Perfect(s)) == Digest(node, Perfect(Pairs(node, s)))
    decreases |s|
  {
    hide Pairs;
    if |s| == 2 {
      PairsAt(node, s, 0);
      assert s[..1] == [s[0]] && s[1..] == [s[1]];
    } else {
      var half := |s| / 2;
      assert IsPow2(half) && half % 2 == 0;
      CutPairs(node, s, half);
      PerfectPairs(node, s[..half]);
      PerfectPairs(node, s[half..]);
    }
  }

  /** The tree over an even number of leaves has the digest of the tree over the pairs. */
  lemma {:induction false} TreePairs<D>(node: (D, D) -> D, s: seq<D>)
    requires s != [] && |s| % 2 == 0
    ensures Digest(node, TreeOf(s)) == Digest(node, TreeOf(Pairs(node, s)))
    decreases |s|
  {
    hide Pairs, Perfect, IsPow2;
    var n := |s|;
    var cut := n - LowBit(n);
    LowBitCut(n);
    if cut == 0 {
      PerfectPairs(node, s);
    } else {
      CutPairs(node, s, cut);
      PerfectPairs(node, s[cut..]);
      TreePairs(node, s[..cut]);
    }
  }

  lemma {:induction false} LowBitCut(n: nat)
    requires n > 0 && n % 2 == 0
    ensures LowBit(n) >= 2 && (n - LowBit(n)) % 2 == 0
    ensures (n - LowBit(n)) / 2 == n / 2 - LowBit(n / 2)
  {
  }
}
