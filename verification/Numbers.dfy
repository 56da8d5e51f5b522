/** Fixed-width integers, powers of two, big-endian byte strings and the
    lexicographic order on bytes: the arithmetic the wire formats rest on. */
module Numbers {

  type byte = n: int | 0 <= n < 0x100
  type bytes = seq<byte>
  type u16 = n: int | 0 <= n < 0x1_0000
  type u32 = n: int | 0 <= n < 0x1_0000_0000
  type u64 = n: int | 0 <= n < 0x1_0000_0000_0000_0000

  datatype Option<+T> = None | Some(value: T)

  function Min(a: int, b: int): int {
    if a <= b then a else b
  }

  function Max(a: int, b: int): int {
    if a <= b then b else a
  }

  const TWO63: int := 0x8000_0000_0000_0000

  /** A 64-bit pattern read as a signed number. */
  function AsI64(n: u64): int {
    if n < TWO63 then n else n - 2 * TWO63
  }

  lemma TailContents<T>(s: seq<T>)
    requires s != []
    ensures multiset(s[1..]) == multiset(s) - multiset{s[0]}
  {
    assert s == [s[0]] + s[1..];
  }

  lemma PrefixSnoc<T>(s: seq<T>, i: nat)
    requires i < |s|
    ensures s[..i + 1] == s[..i] + [s[i]]
  {
  }

  lemma Associates<T>(a: seq<T>, b: seq<T>, c: seq<T>)
    ensures (a + b) + c == a + (b + c)
  {
  }

  // ----- powers of two -----

  function Pow2(n: nat): (r: nat)
    ensures r > 0
  {
    if n == 0 then 1 else 2 * Pow2(n - 1)
  }

  lemma {:induction false} Pow2Add(a: nat, b: nat)
    ensures Pow2(a + b) == Pow2(a) * Pow2(b)
  {
    if a != 0 {
      Pow2Add(a - 1, b);
      assert Pow2(a + b) == 2 * Pow2(a - 1 + b);
    }
  }

  lemma {:induction false} Pow2Less(a: nat, b: nat)
    requires a < b
    ensures 2 * Pow2(a) <= Pow2(b)
  {
    if a + 1 < b {
      Pow2Less(a, b - 1);
    }
  }

  lemma Pow2Values()
    ensures Pow2(10) == 0x400 && Pow2(23) == 0x80_0000
    ensures Pow2(29) == 0x2000_0000 && Pow2(30) == 0x4000_0000
  {
    assert Pow2(5) == 0x20;
    Pow2Add(5, 5);
    Pow2Add(10, 10);
    assert Pow2(3) == 8;
    Pow2Add(20, 3);
    Pow2Add(20, 10);
    assert Pow2(30) == 2 * Pow2(29);
  }

  lemma Pow2ValuesWide()
    ensures Pow2(42) == 0x400_0000_0000 && Pow2(43) == 0x800_0000_0000
    ensures Pow2(52) == 0x10_0000_0000_0000
  {
    Pow2Values();
    Pow2Add(29, 13);
    Pow2Add(10, 3);
    assert Pow2(3) == 8;
    assert Pow2(43) == 2 * Pow2(42);
    Pow2Add(42, 10);
  }

  /** `n` has its leading one at bit `k`. */
  predicate LeadingBit(n: nat, k: nat) {
    Pow2(k) <= n < Pow2(k + 1)
  }

  function Log2(n: nat): (k: nat)
    requires n > 0
    ensures LeadingBit(n, k)
  {
    if n == 1 then 0 else 1 + Log2(n / 2)
  }

  lemma LeadingBitUnique(n: nat, j: nat, k: nat)
    requires LeadingBit(n, j) && LeadingBit(n, k)
    ensures j == k
  {
    if j < k {
      Pow2Less(j, k);
    } else if k < j {
      Pow2Less(k, j);
    }
  }

  lemma LeadingBitScaled(n: nat, k: nat, shift: nat)
    requires LeadingBit(n, k)
    ensures LeadingBit(n * Pow2(shift), k + shift)
  {
    Pow2Add(k, shift);
    Pow2Add(k + 1, shift);
    MulMono(Pow2(k), n, Pow2(shift));
    MulStrict(n, Pow2(k + 1), Pow2(shift));
    assert k + 1 + shift == k + shift + 1;
  }

  lemma MulMono(a: nat, b: nat, c: nat)
    requires a <= b
    ensures a * c <= b * c
  {
  }

  lemma MulStrict(a: nat, b: nat, c: nat)
    requires a < b && c > 0
    ensures a * c < b * c
  {
  }

  lemma MulAssociative(a: int, b: int, c: int)
    ensures a * (b * c) == (a * b) * c
  {
  }

  lemma MulCancel(a: int, b: int, c: nat)
    requires c > 0 && a * c == b * c
    ensures a == b
  {
    assert (a - b) * c == 0;
  }

  /** A multiple of `d` strictly between `-d` and `d` is zero. */
  lemma MulSmall(k: int, d: int)
    requires -d < k * d < d
    ensures k == 0
  {
  }

  lemma DivLess(n: nat, d: nat, bound: nat)
    requires d > 0 && n < bound * d
    ensures 0 <= n / d < bound
  {
    var q := n / d;
    assert q * d <= n;
    assert (q - bound) * d < 0;
  }

  lemma DivExact(q: nat, d: nat)
    requires d > 0
    ensures (q * d) / d == q && (q * d) % d == 0
  {
    DivUnique(q * d, d, q, 0);
  }

  /** Euclidean quotient and remainder are the only pair that fits. */
  lemma DivUnique(n: nat, d: nat, q: nat, r: nat)
    requires 0 <= r < d && n == q * d + r
    ensures n / d == q && n % d == r
  {
    var q', r' := n / d, n % d;
    assert n == q' * d + r';
    assert (q - q') * d == r' - r;
    MulSmall(q - q', d);
  }

  // ----- big-endian byte strings -----

  function Pow256(w: nat): (r: nat)
    ensures r > 0
  {
    if w == 0 then 1 else 256 * Pow256(w - 1)
  }

  function ToBigEndian(n: nat, w: nat): (s: bytes)
    requires n < Pow256(w)
    ensures |s| == w
  {
    if w == 0 then [] else ToBigEndian(n / 256, w - 1) + [n % 256]
  }

  function FromBigEndian(s: bytes): nat {
    if s == [] then 0 else 256 * FromBigEndian(s[..|s| - 1]) + s[|s| - 1]
  }

  lemma {:induction false} FromToBigEndian(n: nat, w: nat)
    requires n < Pow256(w)
    ensures FromBigEndian(ToBigEndian(n, w)) == n
  {
    if w != 0 {
      FromToBigEndian(n / 256, w - 1);
      var s := ToBigEndian(n, w);
      assert s[..|s| - 1] == ToBigEndian(n / 256, w - 1);
    }
  }

  lemma {:induction false} FromBigEndianBound(s: bytes)
    ensures FromBigEndian(s) < Pow256(|s|)
  {
    if s != [] {
      FromBigEndianBound(s[..|s| - 1]);
    }
  }

  // ----- lexicographic order on equally long strings -----

  predicate LexLess(a: bytes, b: bytes)
    requires |a| == |b|
  {
    a != [] && (a[0] < b[0] || (a[0] == b[0] && LexLess(a[1..], b[1..])))
  }

  /** One string is less than another of its length exactly when they agree up to some position and
      it has the smaller byte there. */
  lemma {:induction false} LexLessIff(a: bytes, b: bytes)
    requires |a| == |b|
    ensures LexLess(a, b) <==> exists p :: 0 <= p < |a| && a[..p] == b[..p] && a[p] < b[p]
  {
    if a != [] {
      var x, y := a[1..], b[1..];
      LexLessIff(x, y);
      if LexLess(a, b) {
        if a[0] < b[0] {
          assert a[..0] == b[..0];
        } else {
          var q :| 0 <= q < |x| && x[..q] == y[..q] && x[q] < y[q];
          assert a[..q + 1] == [a[0]] + x[..q] && b[..q + 1] == [b[0]] + y[..q];
          assert a[q + 1] < b[q + 1];
        }
      }
      if p :| 0 <= p < |a| && a[..p] == b[..p] && a[p] < b[p] {
        if p > 0 {
          assert a[0] == a[..p][0] == b[..p][0] == b[0];
          assert x[..p - 1] == a[..p][1..] && y[..p - 1] == b[..p][1..];
          assert x[p - 1] < y[p - 1];
        }
      }
    }
  }

  lemma {:induction false} LexLessTotal(a: bytes, b: bytes)
    requires |a| == |b|
    ensures LexLess(a, b) || a == b || LexLess(b, a)
  {
    if a != [] && a[0] == b[0] {
      LexLessTotal(a[1..], b[1..]);
      assert a[1..] == b[1..] ==> a == [a[0]] + a[1..] == b;
    }
  }

  lemma {:induction false} LexLessTransitive(a: bytes, b: bytes, c: bytes)
    requires |a| == |b| == |c| && LexLess(a, b) && LexLess(b, c)
    ensures LexLess(a, c)
  {
    if a[0] == b[0] == c[0] {
      LexLessTransitive(a[1..], b[1..], c[1..]);
    }
  }

  lemma {:induction false} LexLessIrreflexive(a: bytes)
    ensures !LexLess(a, a)
  {
    if a != [] {
      LexLessIrreflexive(a[1..]);
    }
  }

  lemma {:induction false} LexLessAppend(a: bytes, b: bytes, x: byte, y: byte)
    requires |a| == |b|
    requires LexLess(a, b) || (a == b && x < y)
    ensures LexLess(a + [x], b + [y])
  {
    if a != [] {
      assert (a + [x])[1..] == a[1..] + [x];
      assert (b + [y])[1..] == b[1..] + [y];
      if a[0] == b[0] {
        LexLessAppend(a[1..], b[1..], x, y);
      }
    }
  }

  /** Big-endian strings of one width compare like the numbers they hold. */
  lemma {:induction false} BigEndianOrder(m: nat, n: nat, w: nat)
    requires m < n < Pow256(w)
    ensures LexLess(ToBigEndian(m, w), ToBigEndian(n, w))
  {
    if w != 0 {
      if m / 256 < n / 256 {
        BigEndianOrder(m / 256, n / 256, w - 1);
      }
      LexLessAppend(ToBigEndian(m / 256, w - 1), ToBigEndian(n / 256, w - 1), m % 256, n % 256);
    }
  }
}
