// ctlog.go: the append-only log and its two proof generators. The recursions are
// methods that append to an out slice, as in the source, and each is tied to the
// range functions of MerkleTree.

module CtLog {
  import opened Wrappers
  import opened MerkleTree

  /** mth of the source: no digest for an empty range. */
  function TreeHash(leaves: seq<Digest>, i: nat, j: nat): (r: Option<Digest>)
    requires j <= |leaves|
    ensures r == if i < j then Some(Mth(leaves, i, j)) else None
    decreases if i < j then j - i else 0
  {
    if j <= i then None
    else if j - i == 1 then Some(leaves[i])
    else
      var k := SplitPoint(j - i);
      Some(Node(TreeHash(leaves, i, i + k).value, TreeHash(leaves, i + k, j).value))
  }

  class MerkleLog {
    var leaves: seq<Digest>

    constructor ()
      ensures leaves == []
    {
      leaves := [];
    }

    method Append(entry: seq<nat>) returns (index: nat)
      modifies this
      ensures leaves == old(leaves) + [Leaf(entry)]
      ensures index == |old(leaves)|
    {
      leaves := leaves + [Leaf(entry)];
      index := |leaves| - 1;
    }

    method PathInto(i: nat, j: nat, idx: nat, out: seq<Digest>) returns (grown: seq<Digest>)
      requires i <= idx < j <= |leaves|
      ensures grown == out + Path(leaves, i, j, idx)
      decreases j - i
    {
      if j - i == 1 {
        return out;
      }
      var k := SplitPointLoop(j - i);
      var m := i + k;
      PathAt(leaves, i, m, j, idx);
      if idx < m {
        var low := PathInto(i, m, idx, out);
        var sibling := TreeHash(leaves, m, j).value;
        Assoc(out, Path(leaves, i, m, idx), [sibling]);
        grown := low + [sibling];
      } else {
        var low := PathInto(m, j, idx, out);
        var sibling := TreeHash(leaves, i, m).value;
        Assoc(out, Path(leaves, m, j, idx), [sibling]);
        grown := low + [sibling];
      }
    }

    method ConsPathInto(i: nat, j: nat, n: nat, whole: bool, out: seq<Digest>) returns (grown: seq<Digest>)
      requires i < j <= |leaves| && 1 <= n <= j - i
      ensures grown == out + ConsPath(leaves, i, j, n, whole)
      decreases j - i
    {
      if n == j - i {
        return if whole then out else out + [TreeHash(leaves, i, j).value];
      }
      var k := SplitPointLoop(j - i);
      var m := i + k;
      if n <= k {
        var low := ConsPathInto(i, m, n, whole, out);
        var sibling := TreeHash(leaves, m, j).value;
        ConsPathLeft(leaves, i, m, j, n, whole);
        Assoc(out, ConsPath(leaves, i, m, n, whole), [sibling]);
        grown := low + [sibling];
      } else {
        var low := ConsPathInto(m, j, n - k, false, out);
        var sibling := TreeHash(leaves, i, m).value;
        ConsPathRight(leaves, i, m, j, n, n - k, whole);
        Assoc(out, ConsPath(leaves, m, j, n - k, false), [sibling]);
        grown := low + [sibling];
      }
    }

    /** The root and path for leaf idx of the tree of the first size leaves. */
    method InclusionProof(idx: int, size: int) returns (r: Result<(Digest, seq<Digest>)>)
      ensures r.Ok? <==> 0 <= idx < size <= |leaves|
      ensures r.Ok? ==> r.value == (Mth(leaves[..size], 0, size), Path(leaves[..size], 0, size, idx))
    {
      if idx < 0 || idx >= size || size > |leaves| {
        return Err("ctlog: inclusion proof out of range");
      }
      if size < 1 {
        return Err("ctlog: requested size must be >= 1");
      }
      var path := PathInto(0, size, idx, []);
      assert path == Path(leaves, 0, size, idx);
      MthOfPrefix(leaves, size, 0, size);
      PathOfPrefix(leaves, size, 0, size, idx);
      r := Ok((TreeHash(leaves, 0, size).value, path));
    }

    /** Both roots and the proof that the log at size2 extends the log at size1. */
    method ConsistencyProof(size1: int, size2: int) returns (r: Result<(Digest, Digest, seq<Digest>)>)
      ensures r.Ok? <==> 1 <= size1 < size2 <= |leaves|
      ensures r.Ok? ==>
                && r.value.0 == Mth(leaves[..size1], 0, size1)
                && r.value.1 == Mth(leaves[..size2], 0, size2)
                && r.value.2 == ConsPath(leaves[..size2], 0, size2, size1, true)
    {
      if size1 < 1 || size2 < 1 || size1 >= size2 || size2 > |leaves| {
        return Err("ctlog: need 1 <= from < to <= size");
      }
      var path := ConsPathInto(0, size2, size1, true, []);
      assert path == ConsPath(leaves, 0, size2, size1, true);
      MthOfPrefix(leaves, size1, 0, size1);
      MthOfPrefix(leaves, size2, 0, size2);
      ConsPathOfPrefix(leaves, size2, 0, size2, size1, true);
      r := Ok((TreeHash(leaves, 0, size1).value, TreeHash(leaves, 0, size2).value, path));
    }
  }

  lemma {:induction false} PathOfPrefix(leaves: seq<Digest>, n: nat, i: nat, j: nat, idx: nat)
    requires i <= idx < j <= n <= |leaves|
    ensures Path(leaves[..n], i, j, idx) == Path(leaves, i, j, idx)
    decreases j - i
  {
    if j - i > 1 {
      var m := i + SplitPoint(j - i);
      PathAt(leaves, i, m, j, idx);
      PathAt(leaves[..n], i, m, j, idx);
      MthOfPrefix(leaves, n, i, m);
      MthOfPrefix(leaves, n, m, j);
      if idx < m {
        PathOfPrefix(leaves, n, i, m, idx);
      } else {
        PathOfPrefix(leaves, n, m, j, idx);
      }
    }
  }

  lemma {:induction false} ConsPathOfPrefix(leaves: seq<Digest>, n: nat, i: nat, j: nat, s: nat, whole: bool)
    requires i < j <= n <= |leaves| && 1 <= s <= j - i
    ensures ConsPath(leaves[..n], i, j, s, whole) == ConsPath(leaves, i, j, s, whole)
    decreases j - i
  {
    MthOfPrefix(leaves, n, i, j);
    if s < j - i {
      var m := i + SplitPoint(j - i);
      MthOfPrefix(leaves, n, i, m);
      MthOfPrefix(leaves, n, m, j);
      if s <= m - i {
        ConsPathLeft(leaves, i, m, j, s, whole);
        ConsPathLeft(leaves[..n], i, m, j, s, whole);
        ConsPathOfPrefix(leaves, n, i, m, s, whole);
      } else {
        ConsPathRight(leaves, i, m, j, s, s - (m - i), whole);
        ConsPathRight(leaves[..n], i, m, j, s, s - (m - i), whole);
        ConsPathOfPrefix(leaves, n, m, j, s - (m - i), false);
      }
    }
  }
}
