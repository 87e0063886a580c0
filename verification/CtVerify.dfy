// The two verifiers of ctlog.go. They loop over the bit frontiers fn and sn and
// never see the tree; the theorems here say exactly which proofs they accept.

module CtVerify {
  import opened Wrappers
  import opened MerkleTree

  // --------------------------------------------------------------- inclusion

  /** The verifier's walk one tree layer at a time: a last even node has no sibling. */
  function Climb(r: Digest, fn: nat, sn: nat, proof: seq<Digest>): Option<Digest>
    decreases sn
  {
    if sn == 0 then (if proof == [] then Some(r) else None)
    else if fn == sn && fn % 2 == 0 then Climb(r, fn / 2, sn / 2, proof)
    else if proof == [] then None
    else if fn % 2 == 1 then Climb(Node(proof[0], r), fn / 2, sn / 2, proof[1..])
    else Climb(Node(r, proof[0]), fn / 2, sn / 2, proof[1..])
  }

  method VerifyInclusion(leafHash: Digest, idx: int, size: int, proof: seq<Digest>)
      returns (root: Option<Digest>)
    ensures root == if 0 <= idx < size then Climb(leafHash, idx, size - 1, proof) else None
  {
    if idx < 0 || idx >= size {
      return None;
    }
    var r := leafHash;
    var fn: nat, sn: nat := idx, size - 1;
    for i := 0 to |proof|
      invariant fn <= sn
      invariant Climb(leafHash, idx, size - 1, proof) == Climb(r, fn, sn, proof[i..])
    {
      var p := proof[i];
      if sn == 0 {
        return None;
      }
      assert proof[i..][0] == p && proof[i..][1..] == proof[i + 1..];
      if fn % 2 == 1 || fn == sn {
        ghost var below := r;
        r := Node(p, r);
        if fn % 2 == 0 {
          while fn != 0 && fn % 2 == 0
            invariant 0 < fn == sn
            invariant Climb(leafHash, idx, size - 1, proof) == Climb(below, fn, sn, proof[i..])
          {
            fn := fn / 2;
            sn := sn / 2;
          }
        }
      } else {
        r := Node(r, p);
      }
      fn := fn / 2;
      sn := sn / 2;
    }
    if sn != 0 {
      ClimbNeedsProof(r, fn, sn);
      return None;
    }
    root := Some(r);
  }

  lemma {:induction false} ClimbNeedsProof(r: Digest, fn: nat, sn: nat)
    requires fn <= sn && sn > 0
    ensures Climb(r, fn, sn, []) == None
    decreases sn
  {
    if fn == sn && fn % 2 == 0 {
      ClimbNeedsProof(r, fn / 2, sn / 2);
    }
  }

  /** A whole path is the sibling in the lowest layer and then the path one layer up. */
  lemma PathStep(layer: seq<Digest>, idx: nat)
    requires idx < |layer| && |layer| >= 2
    ensures Path(layer, 0, |layer|, idx)
         == SiblingIn(layer, idx / 2, idx % 2 == 1) + Path(PairUp(layer), 0, |PairUp(layer)|, idx / 2)
  {
    PathUp(layer, 0, |layer|, |PairUp(layer)|, idx / 2, idx % 2 == 1);
  }

  lemma RootStep(layer: seq<Digest>)
    requires |layer| >= 1
    ensures Mth(PairUp(layer), 0, |PairUp(layer)|) == Mth(layer, 0, |layer|)
  {
    MthUp(layer, 0, |layer|, |PairUp(layer)|);
  }

  /** One unfolding of the walk, with the frontiers of the next layer named. */
  lemma ClimbStep(r: Digest, fn: nat, sn: nat, h: nat, up: nat, proof: seq<Digest>)
    requires fn <= sn && sn > 0 && h == fn / 2 && up == sn / 2
    ensures fn == sn == 2 * h ==> Climb(r, fn, sn, proof) == Climb(r, h, up, proof)
    ensures (fn != sn || fn == 2 * h + 1) && proof == [] ==> Climb(r, fn, sn, proof) == None
    ensures fn == 2 * h + 1 && proof != [] ==>
              Climb(r, fn, sn, proof) == Climb(Node(proof[0], r), h, up, proof[1..])
    ensures fn == 2 * h != sn && proof != [] ==>
              Climb(r, fn, sn, proof) == Climb(Node(r, proof[0]), h, up, proof[1..])
  {
  }

  lemma ConsInjective(path: seq<Digest>, c: Digest, rest: seq<Digest>,
                      want: seq<Digest>, sibling: seq<Digest>, above: seq<Digest>)
    requires path == [c] + rest && want == sibling + above && |sibling| == 1
    ensures path == want <==> c == sibling[0] && rest == above
  {
    if path == want {
      assert path[0] == sibling[0] && path[1..] == rest && want[1..] == above;
    }
  }

  lemma ParentOf(layer: seq<Digest>, q: nat, odd: bool, h: Digest, c: Digest)
    requires Child(q, odd) < |layer| && |SiblingIn(layer, q, odd)| == 1
    ensures (if odd then Node(c, h) else Node(h, c)) == PairUp(layer)[q]
       <==> h == layer[Child(q, odd)] && c == SiblingIn(layer, q, odd)[0]
  {
  }

  /** Inclusion is exact: the walk reaches the root from the true leaf along its true path only. */
  lemma {:induction false} InclusionExact(leaves: seq<Digest>, h: Digest, idx: nat, proof: seq<Digest>,
                                          root: Digest, path: seq<Digest>)
    requires idx < |leaves|
    requires root == Mth(leaves, 0, |leaves|) && path == Path(leaves, 0, |leaves|, idx)
    ensures Climb(h, idx, |leaves| - 1, proof) == Some(root) <==> h == leaves[idx] && proof == path
    decreases |leaves|
  {
    if |leaves| >= 2 {
      var up, q, odd := PairUp(leaves), idx / 2, idx % 2 == 1;
      var above, sibling := Path(up, 0, |up|, q), SiblingIn(leaves, q, odd);
      PathStep(leaves, idx);
      RootStep(leaves);
      ClimbStep(h, idx, |leaves| - 1, q, |up| - 1, proof);
      if idx == |leaves| - 1 && !odd {
        InclusionExact(up, h, q, proof, root, above);
      } else if proof != [] {
        var c, rest := proof[0], proof[1..];
        ConsInjective(proof, c, rest, path, sibling, above);
        ParentOf(leaves, q, odd, h, c);
        InclusionExact(up, if odd then Node(c, h) else Node(h, c), q, rest, root, above);
      }
    }
  }

  // ------------------------------------------------------------- consistency

  /** size & (size - 1) == 0, bit by bit. */
  function And(a: nat, b: nat): nat
  {
    if a == 0 || b == 0 then 0
    else (if a % 2 == 1 && b % 2 == 1 then 1 else 0) + 2 * And(a / 2, b / 2)
  }

  lemma {:induction false} AndSelf(a: nat)
    ensures And(a, a) == a
  {
    if a > 0 {
      AndSelf(a / 2);
    }
  }

  /** The bit trick of the source tests for an exact power of two. */
  lemma {:induction false} PowerOfTwoTest(n: nat)
    requires n >= 1
    ensures And(n, n - 1) == 0 <==> IsPow2(n)
  {
    if n % 2 == 1 {
      AndSelf(n / 2);
    } else {
      PowerOfTwoTest(n / 2);
    }
  }

  /** The climb carrying both roots: fr as the last node of the old tree, sr in the new one. */
  function DualClimb(fr: Digest, sr: Digest, fn: nat, sn: nat, path: seq<Digest>): Option<(Digest, Digest)>
    decreases sn
  {
    if sn == 0 then (if path == [] then Some((fr, sr)) else None)
    else if fn == sn && fn % 2 == 0 then DualClimb(fr, sr, fn / 2, sn / 2, path)
    else if path == [] then None
    else if fn % 2 == 1 then DualClimb(Node(path[0], fr), Node(path[0], sr), fn / 2, sn / 2, path[1..])
    else DualClimb(fr, Node(sr, path[0]), fn / 2, sn / 2, path[1..])
  }

  /** Drops the trailing one bits of fn: the layers where the old tree pairs up evenly. */
  function Strip(fn: nat, sn: nat): (nat, nat) {
    if fn % 2 == 1 then Strip(fn / 2, sn / 2) else (fn, sn)
  }

  /** Whether the climb that starts after Strip reaches exactly the two given roots. */
  predicate Reaches(oldRoot: Digest, newRoot: Digest, size1: nat, size2: nat, proof: seq<Digest>)
    requires 1 <= size1 < size2
  {
    var (fn, sn) := Strip(size1 - 1, size2 - 1);
    ReachesFrom(oldRoot, newRoot, fn, sn, if IsPow2(size1) then [oldRoot] + proof else proof)
  }

  predicate ReachesFrom(oldRoot: Digest, newRoot: Digest, fn: nat, sn: nat, path: seq<Digest>) {
    path != [] && DualClimb(path[0], path[0], fn, sn, path[1..]) == Some((oldRoot, newRoot))
  }

  /** What the verifier accepts, over every pair of sizes and roots. */
  predicate Accepts(oldRoot: Option<Digest>, newRoot: Option<Digest>, size1: nat, size2: nat, proof: seq<Digest>) {
    if size1 == 0 then proof == []
    else if size1 > size2 || oldRoot.None? || newRoot.None? then false
    else if size1 == size2 then proof == [] && oldRoot == newRoot
    else proof != [] && Reaches(oldRoot.value, newRoot.value, size1, size2, proof)
  }

  lemma {:induction false} StripKeepsOrder(fn: nat, sn: nat)
    requires fn < sn
    ensures Strip(fn, sn).0 < Strip(fn, sn).1
  {
    if fn % 2 == 1 {
      StripKeepsOrder(fn / 2, sn / 2);
    }
  }

  lemma {:induction false} DualClimbNeedsProof(fr: Digest, sr: Digest, fn: nat, sn: nat)
    requires fn <= sn && sn > 0
    ensures DualClimb(fr, sr, fn, sn, []) == None
    decreases sn
  {
    if fn == sn && fn % 2 == 0 {
      DualClimbNeedsProof(fr, sr, fn / 2, sn / 2);
    }
  }

  method VerifyConsistency(oldRoot: Option<Digest>, newRoot: Option<Digest>, size1: nat, size2: nat,
                           proof: seq<Digest>) returns (ok: bool)
    ensures ok == Accepts(oldRoot, newRoot, size1, size2, proof)
    ensures size1 == 0 ==> (ok <==> proof == [])
    ensures size1 > 0 && ok ==> size1 <= size2 && oldRoot.Some? && newRoot.Some?
    ensures size1 == size2 > 0 ==> (ok <==> proof == [] && oldRoot.Some? && newRoot == oldRoot)
  {
    if size1 == 0 {
      return |proof| == 0;
    }
    if size1 > size2 || oldRoot.None? || newRoot.None? {
      return false;
    }
    if size1 == size2 {
      return |proof| == 0 && oldRoot == newRoot;
    }
    if |proof| == 0 {
      return false;
    }
    var path := proof;
    PowerOfTwoTest(size1);
    if And(size1, size1 - 1) == 0 {
      path := [oldRoot.value] + proof;
    }
    var fn: nat, sn: nat := size1 - 1, size2 - 1;
    while fn % 2 == 1
      invariant fn < sn
      decreases fn
      invariant Strip(size1 - 1, size2 - 1) == Strip(fn, sn)
    {
      fn := fn / 2;
      sn := sn / 2;
    }
    var fr, sr := path[0], path[0];
    ghost var (fn0, sn0) := (fn, sn);
    for i := 1 to |path|
      invariant fn <= sn
      invariant DualClimb(path[0], path[0], fn0, sn0, path[1..]) == DualClimb(fr, sr, fn, sn, path[i..])
    {
      var c := path[i];
      if sn == 0 {
        return false;
      }
      assert path[i..][0] == c && path[i..][1..] == path[i + 1..];
      if fn % 2 == 1 || fn == sn {
        ghost var (fr0, sr0) := (fr, sr);
        fr := Node(c, fr);
        sr := Node(c, sr);
        if fn % 2 == 0 {
          while fn != 0 && fn % 2 == 0
            invariant 0 < fn == sn
            invariant DualClimb(path[0], path[0], fn0, sn0, path[1..]) == DualClimb(fr0, sr0, fn, sn, path[i..])
          {
            fn := fn / 2;
            sn := sn / 2;
          }
        }
      } else {
        sr := Node(sr, c);
      }
      fn := fn / 2;
      sn := sn / 2;
    }
    if sn != 0 {
      DualClimbNeedsProof(fr, sr, fn, sn);
    }
    ok := sn == 0 && fr == oldRoot.value && sr == newRoot.value;
  }

  // One layer of the exactness proof, for an old tree whose last node is 2h or 2h + 1.

  lemma OddLayer(a: seq<Digest>, b: seq<Digest>, h: nat, c: Digest, fr: Digest, sr: Digest)
    requires |a| == 2 * h + 2 <= |b|
    ensures Node(c, fr) == PairUp(a)[h] && Node(c, sr) == PairUp(b)[h] && PairUp(a)[..h] == PairUp(b)[..h]
       <==> c == b[2 * h] && fr == a[2 * h + 1] && sr == b[2 * h + 1] && a[..2 * h + 1] == b[..2 * h + 1]
  {
    PairUpPrefix(a, b, h);
    var last := 2 * h;
    assert a[..last + 1] == a[..last] + [a[last]] && b[..last + 1] == b[..last] + [b[last]];
  }

  lemma EvenLayer(a: seq<Digest>, b: seq<Digest>, h: nat, c: Digest, fr: Digest, sr: Digest)
    requires |a| == 2 * h + 1 < |b|
    ensures fr == PairUp(a)[h] && Node(sr, c) == PairUp(b)[h] && PairUp(a)[..h] == PairUp(b)[..h]
       <==> c == b[2 * h + 1] && fr == a[2 * h] && sr == b[2 * h] && a[..2 * h] == b[..2 * h]
  {
    PairUpPrefix(a, b, h);
  }

  lemma LastLayer(a: seq<Digest>, b: seq<Digest>, h: nat)
    requires |a| == |b| == 2 * h + 1
    ensures PairUp(a)[h] == a[2 * h] && PairUp(b)[h] == b[2 * h]
    ensures PairUp(a)[..h] == PairUp(b)[..h] <==> a[..2 * h] == b[..2 * h]
  {
    PairUpPrefix(a, b, h);
  }

  /** One unfolding of the climb, with the frontiers of the next layer named. */
  lemma DualClimbStep(fr: Digest, sr: Digest, fn: nat, sn: nat, h: nat, up: nat, path: seq<Digest>)
    requires fn <= sn && sn > 0 && h == fn / 2 && up == sn / 2
    ensures fn == sn == 2 * h ==> DualClimb(fr, sr, fn, sn, path) == DualClimb(fr, sr, h, up, path)
    ensures fn != sn && path == [] ==> DualClimb(fr, sr, fn, sn, path) == None
    ensures fn == 2 * h + 1 && path == [] ==> DualClimb(fr, sr, fn, sn, path) == None
    ensures fn == 2 * h + 1 && path != [] ==>
              DualClimb(fr, sr, fn, sn, path) == DualClimb(Node(path[0], fr), Node(path[0], sr), h, up, path[1..])
    ensures fn == 2 * h != sn && path != [] ==>
              DualClimb(fr, sr, fn, sn, path) == DualClimb(fr, Node(sr, path[0]), h, up, path[1..])
  {
  }

  /** The old tree ends at node fn and `roots` are both roots: the climb ends in them if and only if
      the lists agree up to fn, it started from node fn of each, and it was fed node fn's own path. */
  ghost predicate ExactFrom(a: seq<Digest>, b: seq<Digest>, fn: nat, fr: Digest, sr: Digest,
                            path: seq<Digest>, roots: (Digest, Digest), want: seq<Digest>)
    requires |a| == fn + 1 <= |b|
  {
    DualClimb(fr, sr, fn, |b| - 1, path) == Some(roots)
    <==> fr == a[fn] && sr == b[fn] && a[..fn] == b[..fn] && path == want
  }

  lemma {:induction false} DualClimbExact(a: seq<Digest>, b: seq<Digest>, fn: nat, fr: Digest, sr: Digest,
                                          path: seq<Digest>, roots: (Digest, Digest), want: seq<Digest>)
    requires |a| == fn + 1 <= |b|
    requires roots == (Mth(a, 0, |a|), Mth(b, 0, |b|)) && want == Path(b, 0, |b|, fn)
    ensures ExactFrom(a, b, fn, fr, sr, path, roots, want)
    decreases |b|, 1
  {
    if |b| >= 2 {
      var h, odd := fn / 2, fn % 2 == 1;
      var above := Path(PairUp(b), 0, |PairUp(b)|, h);
      PathStep(b, fn);
      RootStep(b);
      RootStep(a);
      DualClimbStep(fr, sr, fn, |b| - 1, h, |PairUp(b)| - 1, path);
      if fn == |b| - 1 && !odd {
        LastLayer(a, b, h);
        DualClimbExact(PairUp(a), PairUp(b), h, fr, sr, path, roots, above);
      } else {
        PairedExact(a, b, fn, h, fr, sr, path, roots, SiblingIn(b, h, odd), above);
      }
    }
  }

  /** The same where node fn has a sibling in its layer. */
  lemma PairedExact(a: seq<Digest>, b: seq<Digest>, fn: nat, h: nat, fr: Digest, sr: Digest,
                    path: seq<Digest>, roots: (Digest, Digest), sibling: seq<Digest>, above: seq<Digest>)
    requires |a| == fn + 1 <= |b| && |b| >= 2
    requires (fn == 2 * h + 1 && sibling == [b[2 * h]]) || (fn == 2 * h < |b| - 1 && sibling == [b[fn + 1]])
    requires roots == (Mth(PairUp(a), 0, |PairUp(a)|), Mth(PairUp(b), 0, |PairUp(b)|))
    requires above == Path(PairUp(b), 0, |PairUp(b)|, h)
    ensures ExactFrom(a, b, fn, fr, sr, path, roots, sibling + above)
    decreases |b|, 0
  {
    DualClimbStep(fr, sr, fn, |b| - 1, h, |PairUp(b)| - 1, path);
    if path != [] {
      var c, rest := path[0], path[1..];
      ConsInjective(path, c, rest, sibling + above, sibling, above);
      if fn == 2 * h {
        EvenLayer(a, b, h, c, fr, sr);
        DualClimbExact(PairUp(a), PairUp(b), h, fr, Node(sr, c), rest, roots, above);
      } else {
        OddLayer(a, b, h, c, fr, sr);
        DualClimbExact(PairUp(a), PairUp(b), h, Node(c, fr), Node(c, sr), rest, roots, above);
      }
    }
  }

  lemma StripStep(x: nat, sn: nat)
    requires x >= 1
    ensures Strip(2 * x - 1, sn) == Strip(x - 1, sn / 2)
    ensures IsPow2(2 * x) == IsPow2(x)
  {
    var fn := 2 * x - 1;
    assert fn % 2 == 1 && fn / 2 == x - 1;
    assert (2 * x) % 2 == 0 && (2 * x) / 2 == x;
  }

  /** The same one layer up, while the old tree pairs up evenly. */
  lemma ReachesUp(oldRoot: Digest, newRoot: Digest, x: nat, n: nat, proof: seq<Digest>)
    requires 1 <= x && 2 * x < n
    ensures x < (n + 1) / 2
    ensures Reaches(oldRoot, newRoot, 2 * x, n, proof) == Reaches(oldRoot, newRoot, x, (n + 1) / 2, proof)
  {
    assert (n + 1) / 2 - 1 == (n - 1) / 2;
    StripStep(x, n - 1);
  }

  /** A single old leaf, or an old tree with a last odd node: the climb starts at once. */
  lemma ReachesOdd(oldRoot: Digest, newRoot: Digest, h: nat, n: nat, proof: seq<Digest>)
    requires 2 * h + 1 < n
    ensures Reaches(oldRoot, newRoot, 2 * h + 1, n, proof)
         == ReachesFrom(oldRoot, newRoot, 2 * h, n - 1, if h == 0 then [oldRoot] + proof else proof)
  {
  }

  lemma StartExact(a: seq<Digest>, b: seq<Digest>, h: nat, proof: seq<Digest>)
    requires |a| == 2 * h + 1 < |b|
    ensures ReachesFrom(Mth(a, 0, |a|), Mth(b, 0, |b|), 2 * h, |b| - 1, if h == 0 then [a[0]] + proof else proof)
       <==> a <= b && proof == (if h == 0 then [] else [b[2 * h]]) + Path(b, 0, |b|, 2 * h)
  {
    var last := 2 * h;
    assert a == a[..last] + [a[last]] && (a <= b <==> a[..last] == b[..last] && a[last] == b[last]);
    var path := if h == 0 then [a[0]] + proof else proof;
    if path != [] {
      DualClimbExact(a, b, last, path[0], path[0], path[1..], (Mth(a, 0, |a|), Mth(b, 0, |b|)), Path(b, 0, |b|, last));
      assert path == [path[0]] + path[1..];
    }
  }

  lemma PrefixUp(a: seq<Digest>, b: seq<Digest>, h: nat)
    requires |a| == 2 * h < |b|
    ensures a <= b <==> PairUp(a) <= PairUp(b)
  {
    var ua, ub := PairUp(a), PairUp(b);
    assert ua[..h] == ua && (ua <= ub <==> ua == ub[..h]);
    assert a[..2 * h] == a && (a <= b <==> a == b[..2 * h]);
    PairUpPrefix(a, b, h);
  }

  predicate Extends(a: seq<Digest>, b: seq<Digest>, proof: seq<Digest>)
    requires 1 <= |a| < |b|
  {
    a <= b && proof == ConsPath(b, 0, |b|, |a|, true)
  }

  predicate RootsReached(a: seq<Digest>, b: seq<Digest>, proof: seq<Digest>)
    requires 1 <= |a| < |b|
  {
    Reaches(Mth(a, 0, |a|), Mth(b, 0, |b|), |a|, |b|, proof)
  }

  lemma ExtendsUp(a: seq<Digest>, b: seq<Digest>, h: nat, proof: seq<Digest>)
    requires |a| == 2 * h < |b| && 1 <= h
    ensures |PairUp(a)| < |PairUp(b)|
    ensures Extends(a, b, proof) == Extends(PairUp(a), PairUp(b), proof)
  {
    PrefixUp(a, b, h);
    ConsPathEven(b, 0, |b|, |PairUp(b)|, h, true);
  }

  lemma RootsReachedUp(a: seq<Digest>, b: seq<Digest>, h: nat, proof: seq<Digest>)
    requires |a| == 2 * h < |b| && 1 <= h
    ensures |PairUp(a)| < |PairUp(b)|
    ensures RootsReached(a, b, proof) == RootsReached(PairUp(a), PairUp(b), proof)
  {
    var m, n := |PairUp(a)|, |PairUp(b)|;
    assert m == h && n == (|b| + 1) / 2;
    var oldRoot, newRoot := Mth(PairUp(a), 0, m), Mth(PairUp(b), 0, n);
    RootStep(a);
    RootStep(b);
    ReachesUp(oldRoot, newRoot, h, |b|, proof);
  }

  lemma ExactOdd(a: seq<Digest>, b: seq<Digest>, h: nat, proof: seq<Digest>)
    requires |a| == 2 * h + 1 < |b|
    ensures RootsReached(a, b, proof) == Extends(a, b, proof)
  {
    ReachesOdd(Mth(a, 0, |a|), Mth(b, 0, |b|), h, |b|, proof);
    StartExact(a, b, h, proof);
    ConsPathOdd(b, 0, |b|, h, true);
  }

  /** Consistency is exact: for two lists of different positive lengths, the walk accepts their two
      roots if and only if the shorter list is a prefix of the longer and the proof is the one that
      section 2.1.4.1 of RFC 9162 generates. */
  lemma {:induction false} ConsistencyExact(a: seq<Digest>, b: seq<Digest>, proof: seq<Digest>)
    requires 1 <= |a| < |b|
    ensures RootsReached(a, b, proof) <==> Extends(a, b, proof)
    decreases |a|
  {
    var h := |a| / 2;
    if |a| == 2 * h {
      ExtendsUp(a, b, h, proof);
      RootsReachedUp(a, b, h, proof);
      ConsistencyExact(PairUp(a), PairUp(b), proof);
    } else {
      ExactOdd(a, b, h, proof);
    }
  }

  /** Section 2.1.4 of RFC 9162 for every pair of lists: shrunk, empty and equal ones included. */
  lemma AcceptsExact(a: seq<Digest>, b: seq<Digest>, proof: seq<Digest>)
    ensures Accepts(RootOf(a), RootOf(b), |a|, |b|, proof)
       <==> a <= b && proof == if a == [] then [] else ConsPath(b, 0, |b|, |a|, true)
  {
    if 0 < |a| < |b| {
      ConsistencyExact(a, b, proof);
      ProofNotEmpty(b, 0, |b|, |a|, true);
    } else if 0 < |a| == |b| {
      if Mth(a, 0, |a|) == Mth(b, 0, |b|) {
        MthInjective(a, b, 0, |a|);
        assert a == b;
      }
      assert a <= b <==> a == b;
    }
  }

  lemma {:induction false} ProofNotEmpty(leaves: seq<Digest>, i: nat, j: nat, n: nat, whole: bool)
    requires i < j <= |leaves| && 1 <= n < j - i
    ensures |ConsPath(leaves, i, j, n, whole)| >= 1
  {
  }
}
