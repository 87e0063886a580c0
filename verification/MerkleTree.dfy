// The RFC 9162 Merkle tree of ctlog.go: the tree hash, and the inclusion and
// consistency paths, both as the source's top-down recursion and as the layer
// by layer view that the two verifiers follow.

module MerkleTree {
  import opened Wrappers

  // An idealised SHA-256: LeafHash and nodeHash are injective constructors, and
  // Raw stands for any other 32-byte string a proof or a head may carry.
  datatype Digest = Leaf(entry: seq<nat>) | Node(left: Digest, right: Digest) | Raw(id: nat)

  predicate IsPow2(n: nat) {
    n == 1 || (n > 1 && n % 2 == 0 && IsPow2(n / 2))
  }

  lemma {:induction false} Pow2Gap(a: nat, b: nat)
    requires IsPow2(a) && IsPow2(b) && a < b
    ensures 2 * a <= b
  {
    if a > 1 {
      Pow2Gap(a / 2, b / 2);
    }
  }

  /** The largest power of two strictly below n. */
  function SplitPoint(n: nat): (k: nat)
    requires n >= 2
    ensures 1 <= k < n <= 2 * k
  {
    if n == 2 then 1 else 2 * SplitPoint((n + 1) / 2)
  }

  lemma {:induction false} SplitPointIsPow2(n: nat)
    requires n >= 2
    ensures IsPow2(SplitPoint(n))
  {
    if n > 2 {
      SplitPointIsPow2((n + 1) / 2);
    }
  }

  lemma HalfSplit(n: nat) returns (g: nat)
    requires n >= 3
    ensures SplitPoint(n) == 2 * g
  {
    g := SplitPoint((n + 1) / 2);
  }

  method SplitPointLoop(n: nat) returns (k: nat)
    ensures IsPow2(k)
    ensures n >= 2 ==> k == SplitPoint(n)
    ensures n < 2 ==> k == 1
  {
    k := 1;
    while k * 2 < n
      invariant IsPow2(k)
      invariant k == 1 || k < n
    {
      k := k * 2;
    }
    if n >= 2 {
      var s := SplitPoint(n);
      SplitPointIsPow2(n);
      if s < k {
        Pow2Gap(s, k);
      } else if k < s {
        Pow2Gap(k, s);
      }
    }
  }

  // The three recursions of the source, over the leaves [i, j).

  /** The tree hash (section 2.1.1 of RFC 9162). */
  function Mth(leaves: seq<Digest>, i: nat, j: nat): Digest
    requires i < j <= |leaves|
    decreases j - i
  {
    if j - i == 1 then leaves[i]
    else
      var k := SplitPoint(j - i);
      Node(Mth(leaves, i, i + k), Mth(leaves, i + k, j))
  }

  /** The siblings met from leaf idx up to the root, lowest first. */
  function Path(leaves: seq<Digest>, i: nat, j: nat, idx: nat): seq<Digest>
    requires i <= idx < j <= |leaves|
    decreases j - i
  {
    if j - i == 1 then []
    else
      var k := SplitPoint(j - i);
      if idx < i + k then Path(leaves, i, i + k, idx) + [Mth(leaves, i + k, j)]
      else Path(leaves, i + k, j, idx) + [Mth(leaves, i, i + k)]
  }

  /** SUBPROOF of section 2.1.4.1 of RFC 9162, for an old tree of n leaves. */
  function ConsPath(leaves: seq<Digest>, i: nat, j: nat, n: nat, whole: bool): seq<Digest>
    requires i < j <= |leaves| && 1 <= n <= j - i
    decreases j - i
  {
    if n == j - i then (if whole then [] else [Mth(leaves, i, j)])
    else
      var k := SplitPoint(j - i);
      if n <= k then ConsPath(leaves, i, i + k, n, whole) + [Mth(leaves, i + k, j)]
      else ConsPath(leaves, i + k, j, n - k, false) + [Mth(leaves, i, i + k)]
  }

  /** The tree hash of a whole list; an empty tree has none. */
  function RootOf(leaves: seq<Digest>): Option<Digest> {
    if leaves == [] then None else Some(Mth(leaves, 0, |leaves|))
  }

  // ---------------------------------------------------------------- layers

  /** The next layer up: neighbours paired, a last odd node promoted unchanged. */
  function PairUp(layer: seq<Digest>): (up: seq<Digest>)
    ensures |up| == (|layer| + 1) / 2
  {
    seq((|layer| + 1) / 2, i requires 0 <= i < (|layer| + 1) / 2 =>
      if 2 * i + 1 < |layer| then Node(layer[2 * i], layer[2 * i + 1]) else layer[2 * i])
  }

  /** Leaves [2p, j) that pair up among themselves become nodes [p, u) one layer up. */
  predicate Aligned(layer: seq<Digest>, p: nat, j: nat, u: nat) {
    2 * p < j <= |layer| && p < u && (j == 2 * u || j == 2 * u - 1 == |layer|)
  }

  // One step of each recursion, with its cut named.

  predicate SplitsAt(i: nat, m: nat, j: nat) {
    i < m < j && m - i == SplitPoint(j - i)
  }

  lemma MthAt(leaves: seq<Digest>, i: nat, m: nat, j: nat)
    requires SplitsAt(i, m, j) && j <= |leaves|
    ensures Mth(leaves, i, j) == Node(Mth(leaves, i, m), Mth(leaves, m, j))
  {
  }

  lemma PathAt(leaves: seq<Digest>, i: nat, m: nat, j: nat, idx: nat)
    requires SplitsAt(i, m, j) && i <= idx < j <= |leaves|
    ensures idx < m ==> Path(leaves, i, j, idx) == Path(leaves, i, m, idx) + [Mth(leaves, m, j)]
    ensures idx >= m ==> Path(leaves, i, j, idx) == Path(leaves, m, j, idx) + [Mth(leaves, i, m)]
  {
  }

  lemma ConsPathLeft(leaves: seq<Digest>, i: nat, m: nat, j: nat, n: nat, whole: bool)
    requires SplitsAt(i, m, j) && 1 <= n <= m - i && j <= |leaves|
    ensures ConsPath(leaves, i, j, n, whole) == ConsPath(leaves, i, m, n, whole) + [Mth(leaves, m, j)]
  {
  }

  lemma ConsPathRight(leaves: seq<Digest>, i: nat, m: nat, j: nat, n: nat, r: nat, whole: bool)
    requires SplitsAt(i, m, j) && n == m - i + r && 1 <= r && n < j - i && j <= |leaves|
    ensures ConsPath(leaves, i, j, n, whole) == ConsPath(leaves, m, j, r, false) + [Mth(leaves, i, m)]
  {
  }

  lemma Assoc(x: seq<Digest>, y: seq<Digest>, z: seq<Digest>)
    ensures (x + y) + z == x + (y + z)
  {
  }

  /** The same split one layer up. */
  lemma SplitUp(layer: seq<Digest>, p: nat, j: nat, u: nat) returns (m: nat, c: nat)
    requires Aligned(layer, p, j, u) && u - p > 1
    ensures c == 2 * m && SplitsAt(p, m, u) && SplitsAt(2 * p, c, j)
    ensures Aligned(layer, p, c, m) && Aligned(layer, m, j, u)
  {
    m := p + SplitPoint(u - p);
    c := 2 * m;
    assert SplitPoint(j - 2 * p) == 2 * SplitPoint(u - p);
  }

  /** The bridge: a tree hash is unchanged by going one layer up. */
  lemma {:induction false} MthUp(layer: seq<Digest>, p: nat, j: nat, u: nat)
    requires Aligned(layer, p, j, u)
    ensures u <= |PairUp(layer)| && Mth(PairUp(layer), p, u) == Mth(layer, 2 * p, j)
    decreases u - p
  {
    if u - p > 1 {
      var m, c := SplitUp(layer, p, j, u);
      MthUp(layer, p, c, m);
      MthUp(layer, m, j, u);
      MthAt(layer, 2 * p, c, j);
      MthAt(PairUp(layer), p, m, u);
    }
  }

  /** The two nodes below node q of the next layer up are 2q and 2q + 1. */
  function Child(q: nat, odd: bool): nat {
    2 * q + if odd then 1 else 0
  }

  /** The node that Child(q, odd) is paired with in its own layer, if it has one. */
  function SiblingIn(layer: seq<Digest>, q: nat, odd: bool): seq<Digest>
    requires Child(q, odd) < |layer|
  {
    if odd then [layer[2 * q]]
    else if 2 * q + 1 < |layer| then [layer[2 * q + 1]]
    else []
  }

  /** A node's path is its own sibling and then the path of its parent one layer up. */
  lemma {:induction false} PathUp(layer: seq<Digest>, p: nat, j: nat, u: nat, q: nat, odd: bool)
    requires Aligned(layer, p, j, u) && p <= q && Child(q, odd) < j
    ensures q < u <= |PairUp(layer)|
    ensures Path(layer, 2 * p, j, Child(q, odd))
         == SiblingIn(layer, q, odd) + Path(PairUp(layer), p, u, q)
    decreases u - p
  {
    var up, sibling := PairUp(layer), SiblingIn(layer, q, odd);
    if u - p > 1 {
      var m, c := SplitUp(layer, p, j, u);
      PathAt(layer, 2 * p, c, j, Child(q, odd));
      PathAt(up, p, m, u, q);
      if q < m {
        MthUp(layer, m, j, u);
        PathUp(layer, p, c, m, q, odd);
        Assoc(sibling, Path(up, p, m, q), [Mth(layer, c, j)]);
      } else {
        MthUp(layer, p, c, m);
        PathUp(layer, m, j, u, q, odd);
        Assoc(sibling, Path(up, m, u, q), [Mth(layer, 2 * p, c)]);
      }
    }
  }

  /** An even old size moves the whole proof one layer up. */
  lemma {:induction false} ConsPathEven(layer: seq<Digest>, p: nat, j: nat, u: nat, q: nat, whole: bool)
    requires Aligned(layer, p, j, u) && 1 <= q && 2 * q <= j - 2 * p
    ensures u <= |PairUp(layer)| && q <= u - p
    ensures ConsPath(layer, 2 * p, j, 2 * q, whole) == ConsPath(PairUp(layer), p, u, q, whole)
    decreases u - p
  {
    var up := PairUp(layer);
    if 2 * q == j - 2 * p {
      assert q == u - p;
      MthUp(layer, p, j, u);
    } else {
      var m, c := SplitUp(layer, p, j, u);
      if q <= m - p {
        ConsPathLeft(layer, 2 * p, c, j, 2 * q, whole);
        ConsPathLeft(up, p, m, u, q, whole);
        MthUp(layer, m, j, u);
        ConsPathEven(layer, p, c, m, q, whole);
      } else {
        var r: nat := q - (m - p);
        ConsPathRight(layer, 2 * p, c, j, 2 * q, 2 * r, whole);
        ConsPathRight(up, p, m, u, q, r, whole);
        MthUp(layer, p, c, m);
        ConsPathEven(layer, m, j, u, r, false);
      }
    }
  }

  lemma ConsPathOddSmall(leaves: seq<Digest>, i: nat, j: nat, whole: bool)
    requires i < j <= i + 2 && j <= |leaves|
    ensures ConsPath(leaves, i, j, 1, whole)
         == (if whole then [] else [leaves[i]]) + Path(leaves, i, j, i)
  {
    if j == i + 2 {
      ConsPathLeft(leaves, i, i + 1, j, 1, whole);
      PathAt(leaves, i, i + 1, j, i);
    }
  }

  /** An old tree that ends at an even leaf 2h: the proof is that leaf and its own path. */
  lemma {:induction false} ConsPathOdd(leaves: seq<Digest>, p: nat, j: nat, h: nat, whole: bool)
    requires p <= h && 2 * h < j <= |leaves|
    requires 2 * h + 1 == j ==> p == h
    ensures ConsPath(leaves, 2 * p, j, 2 * (h - p) + 1, whole)
         == (if whole && p == h then [] else [leaves[2 * h]]) + Path(leaves, 2 * p, j, 2 * h)
    decreases j - 2 * p
  {
    var i, last, n := 2 * p, 2 * h, 2 * (h - p) + 1;
    if j - i <= 2 {
      ConsPathOddSmall(leaves, i, j, whole);
    } else {
      var g := HalfSplit(j - i);
      var m, first := 2 * (p + g), (if whole && p == h then [] else [leaves[last]]);
      PathAt(leaves, i, m, j, last);
      if h < p + g {
        ConsPathOdd(leaves, p, m, h, whole);
        ConsPathLeft(leaves, i, m, j, n, whole);
        Assoc(first, Path(leaves, i, m, last), [Mth(leaves, m, j)]);
      } else {
        ConsPathOdd(leaves, p + g, j, h, false);
        var r := 2 * (h - (p + g)) + 1;
        assert ConsPath(leaves, m, j, r, false) == first + Path(leaves, m, j, last);
        ConsPathRight(leaves, i, m, j, n, r, whole);
        Assoc(first, Path(leaves, m, j, last), [Mth(leaves, i, m)]);
      }
    }
  }

  // ------------------------------------------------------- lists and roots

  /** Only the leaves of the range decide a tree hash. */
  lemma {:induction false} MthOfPrefix(leaves: seq<Digest>, n: nat, i: nat, j: nat)
    requires i < j <= n <= |leaves|
    ensures Mth(leaves[..n], i, j) == Mth(leaves, i, j)
    decreases j - i
  {
    if j - i > 1 {
      var k := SplitPoint(j - i);
      MthOfPrefix(leaves, n, i, i + k);
      MthOfPrefix(leaves, n, i + k, j);
    }
  }

  /** Ranges of one length with one tree hash hold the same leaves. */
  lemma {:induction false} MthInjective(a: seq<Digest>, b: seq<Digest>, i: nat, j: nat)
    requires i < j <= |a| && j <= |b| && Mth(a, i, j) == Mth(b, i, j)
    ensures forall x | i <= x < j :: a[x] == b[x]
    decreases j - i
  {
    if j - i > 1 {
      var k := SplitPoint(j - i);
      MthInjective(a, b, i, i + k);
      MthInjective(a, b, i + k, j);
    }
  }

  /** Pairing up keeps and reflects "agree on the first 2q". */
  lemma PairUpPrefix(a: seq<Digest>, b: seq<Digest>, q: nat)
    requires 2 * q <= |a| && 2 * q <= |b|
    ensures PairUp(a)[..q] == PairUp(b)[..q] <==> a[..2 * q] == b[..2 * q]
  {
    var ua, ub := PairUp(a), PairUp(b);
    if ua[..q] == ub[..q] {
      forall i | 0 <= i < 2 * q ensures a[i] == b[i] {
        assert ua[..q][i / 2] == ub[..q][i / 2];
      }
    }
    if a[..2 * q] == b[..2 * q] {
      forall i | 0 <= i < q ensures ua[i] == ub[i] {
        assert a[..2 * q][2 * i] == b[..2 * q][2 * i];
        assert a[..2 * q][2 * i + 1] == b[..2 * q][2 * i + 1];
      }
    }
  }

  /** ceil(log2 n). */
  function CeilLog2(n: nat): nat
    requires n >= 1
  {
    if n == 1 then 0 else 1 + CeilLog2((n + 1) / 2)
  }

  /** A path's length depends on the index and the size alone, and is at most ceil(log2 size). */
  lemma {:induction false} PathLength(a: seq<Digest>, b: seq<Digest>, idx: nat)
    requires idx < |a| == |b|
    ensures |Path(a, 0, |a|, idx)| == |Path(b, 0, |b|, idx)| <= CeilLog2(|a|)
    decreases |a|
  {
    if |a| >= 2 {
      var n, q, odd := |PairUp(a)|, idx / 2, idx % 2 == 1;
      PathUp(a, 0, |a|, n, q, odd);
      PathUp(b, 0, |b|, n, q, odd);
      PathLength(PairUp(a), PairUp(b), q);
    }
  }
}
