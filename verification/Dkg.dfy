// Distributed key generation: DkgGenerate and DkgFinalize of frost.go, and the
// pairwise ceremony node of dkg.go. Peers may send anything; whatever they send,
// what a node finishes with is consistent.

module Dkg {
  import opened Wrappers
  import opened PrimeField
  import opened Interpolation
  import opened Accumulate
  import opened Group
  import opened Frost
  import opened KeyShares

  /** One participant's commitments and the shares it computed. */
  datatype Material = Material(id: Id, commits: seq<nat>, shares: map<Id, nat>)

  /** Honest material for n participants: the polynomial [a] + coeff, committed and evaluated. */
  ghost predicate Generated(q: nat, a: nat, coeff: seq<nat>, n: int, m: Material)
    requires q > 0
  {
    && m.commits == CommitTo(q, [a] + coeff)
    && m.shares.Keys == (set x: nat | 1 <= x <= n :: MemberId(x))
    && forall x: nat :: 1 <= x <= n ==> m.shares[MemberId(x)] == PolyValue(q, coeff, a, x)
  }

  method DkgGenerate(q: nat, id: Id, n: int, t: int, a: nat, coeff: seq<nat>) returns (r: Result<Material>)
    requires q > 0 && (1 <= t ==> |coeff| == t - 1)
    ensures r.Ok? <==> 1 <= t <= n
    ensures r.Ok? ==> r.value.id == id && Generated(q, a, coeff, n, r.value)
    ensures r.Ok? ==>
              && r.value.commits == CommitTo(q, [a] + coeff)
              && r.value.shares.Keys == (set x: nat | 1 <= x <= n :: MemberId(x))
              && forall x: nat :: 1 <= x <= n ==> r.value.shares[MemberId(x)] == PolyValue(q, coeff, a, x)
  {
    if t > n || t < 1 {
      return Err("frost: need 1 <= t <= n");
    }
    var commit := CommitCoefficients(q, a, coeff);
    var shares: map<Id, nat> := map[];
    for x := 1 to n + 1
      invariant shares.Keys == set k: nat | 1 <= k < x :: MemberId(k)
      invariant forall k: nat :: 1 <= k < x ==> shares[MemberId(k)] == PolyValue(q, coeff, a, k)
    {
      var y := EvalPoly(q, coeff, a, x);
      NonNegative(q, coeff, a, x);
      forall k: nat | 1 <= k < x ensures MemberId(k) != MemberId(x) {
        MemberRoundTrip(k);
        MemberRoundTrip(x);
      }
      shares := shares[MemberId(x) := y];
    }
    r := Ok(Material(id, commit, shares));
  }

  // ----------------------------------------------------------------- finalize

  function CommitsOf(all: map<Id, Material>): map<Id, seq<nat>> {
    map k | k in all :: all[k].commits
  }

  function ShareFor(all: map<Id, Material>, id: Id): Id -> int {
    k => if k in all && id in all[k].shares then all[k].shares[id] else 0
  }

  /** Sender k's piece for id is there and lies on its commitments. */
  ghost predicate PieceOk(q: nat, all: map<Id, Material>, id: Id, k: Id)
    requires k in all
  {
    && all[k].commits != [] && id in all[k].shares
    && OnCommitments(q, all[k].commits, MemberX(id), all[k].shares[id])
  }

  ghost predicate Finalizable(q: nat, all: map<Id, Material>, id: Id) {
    id in all && forall k :: k in all ==> PieceOk(q, all, id, k)
  }

  /** What can be finalized: own material is there, and every sender's piece is the value of the polynomial behind its
      commitments at this member's index. */
  lemma FinalizableExactly(q: nat, all: map<Id, Material>, id: Id)
    ensures Finalizable(q, all, id) <==>
            && id in all
            && forall k <- all.Keys :: all[k].commits != [] && id in all[k].shares
                                       && Cong(q, Eval(all[k].commits, MemberX(id)), all[k].shares[id])
  {
  }

  /** Sums the verified pieces, in whatever order the map is walked. */
  method DkgFinalize(q: nat, id: Id, all: map<Id, Material>) returns (r: Result<(nat, nat)>)
    requires q > 0
    ensures r.Ok? <==> Finalizable(q, all, id)
    ensures r.Ok? ==> r.value.0 == Sum(all.Keys, ShareFor(all, id)) % q
    ensures r.Ok? ==> r.value.1 == Sum(all.Keys, Coord(CommitsOf(all), 0)) % q
  {
    if id !in all {
      return Err("frost: no material");
    }
    var share, group: nat, done: set<Id> := 0, 0, {};
    CongEqual(q, 0, 0);
    while done != all.Keys
      invariant done <= all.Keys && group < q && share >= 0
      invariant forall k :: k in done ==> PieceOk(q, all, id, k)
      invariant share == Sum(done, ShareFor(all, id))
      invariant EntrySum(q, group, done, CommitsOf(all), 0)
      decreases all.Keys - done
    {
      assert all.Keys == done + (all.Keys - done);
      var k :| k in all.Keys - done;
      var m := all[k];
      if |m.commits| == 0 {
        return Err("frost: empty commitments");
      }
      if id !in m.shares {
        return Err("frost: missing share");
      }
      var ok := ShareVerifies(q, m.commits, MemberX(id), m.shares[id]);
      if !ok {
        return Err("frost: invalid share");
      }
      SumSplit(done + {k}, ShareFor(all, id), k);
      assert done + {k} - {k} == done;
      AddEntry(q, group, m.commits[0], done, CommitsOf(all), k, 0);
      group, share, done := PointAdd(q, group, m.commits[0]), share + m.shares[id], done + {k};
    }
    Settled(q, group, Sum(all.Keys, Coord(CommitsOf(all), 0)));
    r := Ok((share % q, group));
  }

  /** The summed commitment vector; nil, here [], when there is nothing to sum or two lengths differ. */
  method DkgGlobalVK(q: nat, all: map<Id, Material>) returns (out: seq<nat>)
    requires q > 0 && forall k, j :: k in all && 0 <= j < |all[k].commits| ==> all[k].commits[j] < q
    ensures out != [] ==> VectorSum(q, out, all.Keys, CommitsOf(all))
    ensures out != [] ==> forall k :: k in all ==> |all[k].commits| in {0, |out|}
    ensures forall t: nat :: all != map[] && SameLength(all, t) ==> |out| == t
  {
    out := [];
    var done: set<Id> := {};
    while done != all.Keys
      invariant done <= all.Keys && forall k :: k in done ==> |all[k].commits| in {0, |out|}
      invariant VectorSum(q, out, done, CommitsOf(all)) && (out != [] ==> done != {})
      invariant forall t: nat :: done != {} && SameLength(all, t) ==> |out| == t
      decreases all.Keys - done
    {
      assert all.Keys == done + (all.Keys - done);
      var k :| k in all.Keys - done;
      if out == [] {
        out := all[k].commits;
        FirstVector(q, out, done, CommitsOf(all), k);
      } else {
        if |all[k].commits| != |out| {
          assert forall t: nat :: SameLength(all, t) ==> |all[k].commits| == t;
          return [];
        }
        out := AddVector(q, out, all[k].commits, done, CommitsOf(all), k);
      }
      done := done + {k};
    }
  }

  predicate SameLength(all: map<Id, Material>, t: nat) {
    forall k <- all.Keys :: |all[k].commits| == t
  }

  /** The share file's GlobalVK: the whole vector under every participant's id. */
  method DkgGlobalCommitments(global: seq<nat>, all: map<Id, Material>) returns (gv: seq<(Id, seq<nat>)>)
    ensures forall i :: 0 <= i < |gv| ==> gv[i].1 == global
    ensures forall k :: k in all ==> exists i :: 0 <= i < |gv| && gv[i].0 == all[k].id
  {
    gv := [];
    var done: set<Id> := {};
    while done != all.Keys
      invariant done <= all.Keys && forall i :: 0 <= i < |gv| ==> gv[i].1 == global
      invariant forall k :: k in done ==> exists i :: 0 <= i < |gv| && gv[i].0 == all[k].id
      decreases all.Keys - done
    {
      assert all.Keys == done + (all.Keys - done);
      var k :| k in all.Keys - done;
      ghost var before := gv;
      gv := gv + [(all[k].id, global)];
      forall l | l in done + {k} ensures exists i :: 0 <= i < |gv| && gv[i].0 == all[l].id {
        if l != k {
          var i :| 0 <= i < |before| && before[i].0 == all[l].id;
          assert gv[i].0 == all[l].id;
        } else {
          assert gv[|before|].0 == all[k].id;
        }
      }
      done := done + {k};
    }
  }

  // --------------------------------------------------------- a ceremony node

  /** What one accepted exchange left behind. */
  datatype Exchange = Exchange(commits: seq<PointWire>, share: nat)

  ghost predicate ExchangeOk(q: nat, id: Id, t: nat, e: Exchange) {
    && Parses(q, e.commits) && |e.commits| == t && 0 < e.share < q
    && OnCommitments(q, Parsed(q, e.commits), MemberX(id), e.share)
  }

  /** What an exchange holds that is taken: t points of the group, and a non-zero reduced share that is the value of
      the polynomial behind them at this member's index. */
  lemma ExchangeExactly(q: nat, id: Id, t: nat, e: Exchange, points: seq<nat>)
    requires |points| == |e.commits| && forall i :: 0 <= i < |points| ==> e.commits[i] == Enc(points[i])
    ensures ExchangeOk(q, id, t, e) <==>
            && |points| == t && (forall i :: 0 <= i < t ==> points[i] < q) && 0 < e.share < q
            && Cong(q, Eval(points, MemberX(id)), e.share)
  {
    if Parses(q, e.commits) {
      assert Parsed(q, e.commits) == points;
    } else if forall i :: 0 <= i < |points| ==> points[i] < q {
      var i :| 0 <= i < |e.commits| && Decode(q, e.commits[i]).None?;
      assert e.commits[i] == Enc(points[i]);
    }
  }

  /** The checks recordPeer makes on one exchange. */
  method CheckExchange(q: nat, id: Id, t: nat, wires: seq<PointWire>, shareVal: ScalarWire) returns (r: Result<nat>)
    requires q > 0
    ensures r.Ok? <==> shareVal.Scalar? && ExchangeOk(q, id, t, Exchange(wires, shareVal.v % q))
    ensures r.Ok? ==> r.value == shareVal.v % q
  {
    var pts := ParsePoints(q, wires);
    if pts.Err? {
      return Err(pts.reason);
    }
    if |pts.value| != t {
      return Err("dkg: wrong commitment length");
    }
    if shareVal.BadScalar? || shareVal.v % q == 0 {
      return Err("dkg: bad share value");
    }
    var val := shareVal.v % q;
    var ok := ShareVerifies(q, pts.value, MemberX(id), val);
    if !ok {
      return Err("dkg: peer share fails commitment verification");
    }
    r := Ok(val);
  }

  /** The node's own material: t commitments, and its own share if its id is in canonical form. */
  ghost predicate OwnOk(q: nat, id: Id, t: nat, mat: Material) {
    && q > 0 && 2 <= t && |mat.commits| == t && mat.id == id
    && (forall j :: 0 <= j < t ==> mat.commits[j] < q)
    && (id in mat.shares ==> OnCommitments(q, mat.commits, MemberX(id), mat.shares[id]))
  }

  ghost predicate PeersOk(q: nat, id: Id, t: nat, peerCommits: map<Id, seq<PointWire>>, received: map<Id, nat>) {
    && peerCommits.Keys == received.Keys
    && forall p :: p in received ==> ExchangeOk(q, id, t, Exchange(peerCommits[p], received[p]))
  }

  /** Everything a node sums: its own material unless a peer claimed its id, and every peer's. */
  function AllOf(q: nat, id: Id, t: nat, mat: Material, peerCommits: map<Id, seq<PointWire>>, received: map<Id, nat>)
      : map<Id, Material>
    requires PeersOk(q, id, t, peerCommits, received)
  {
    map[id := mat] + map p | p in peerCommits :: Material(p, Parsed(q, peerCommits[p]), map[id := received[p]])
  }

  lemma AllPieces(q: nat, id: Id, t: nat, mat: Material, peerCommits: map<Id, seq<PointWire>>, received: map<Id, nat>)
    requires OwnOk(q, id, t, mat) && PeersOk(q, id, t, peerCommits, received)
    ensures var all := AllOf(q, id, t, mat, peerCommits, received);
            && (Finalizable(q, all, id) <==> id in received || id in mat.shares)
            && id in all && all[id].id == id
            && forall k :: k in all ==> Uniform(q, all[k], t)
  {
    var all := AllOf(q, id, t, mat, peerCommits, received);
    forall k | k in all
      ensures Uniform(q, all[k], t)
      ensures (k == id ==> id in received || id in mat.shares) ==> PieceOk(q, all, id, k)
      ensures k == id && id !in received && id !in mat.shares ==> !PieceOk(q, all, id, k)
    {
      if k in received {
        assert ExchangeOk(q, id, t, Exchange(peerCommits[k], received[k]));
      }
    }
  }

  ghost predicate Uniform(q: nat, m: Material, t: nat) {
    |m.commits| == t && forall j :: 0 <= j < t ==> m.commits[j] < q
  }

  /** DkgFinalize and the global vector, for materials with t commitments each. */
  method Assemble(q: nat, id: Id, t: nat, all: map<Id, Material>) returns (r: Result<KeyShare>)
    requires q > 0 && t >= 1 && id in all && all[id].id == id && forall k :: k in all ==> Uniform(q, all[k], t)
    ensures r.Ok? <==> Finalizable(q, all, id)
    ensures r.Ok? ==> Finished(q, all, id, t, r.value.groupPub, r.value)
  {
    var final := DkgFinalize(q, id, all);
    if final.Err? {
      return Err(final.reason);
    }
    var (share, group) := final.value;
    assert forall k, j :: k in all && 0 <= j < |all[k].commits| ==> Uniform(q, all[k], t) && all[k].commits[j] < q;
    var global := DkgGlobalVK(q, all);
    assert SameLength(all, t) by {
      assert forall k :: k in all ==> Uniform(q, all[k], t);
    }
    FinishedShare(q, all, id, t, global, share, group);
    var gv := DkgGlobalCommitments(global, all);
    var pubShare := ScalarMult(q, share, 1);
    var s := KeyShare(id, MemberX(id), share, group, pubShare, [], gv);
    LoadsGlobal(q, all, id, t, global, gv, s);
    assert FinishedWith(q, all, id, t, group, s, global);
    r := Ok(s);
  }

  class DkgNode {
    const q: nat
    const id: Id
    const n: nat
    const t: nat
    const mat: Material
    var peerCommits: map<Id, seq<PointWire>>
    var received: map<Id, nat>
    var done: nat
    var signer: Option<KeyShare>

    ghost predicate Valid()
      reads this
    {
      OwnOk(q, id, t, mat) && PeersOk(q, id, t, peerCommits, received) && done == |received|
    }

    /** mat is this node's own material, freshly generated for the polynomial [a] + coeff. */
    constructor (q: nat, id: Id, n: nat, t: nat, a: nat, coeff: seq<nat>, mat: Material)
      requires q > 0 && 2 <= t <= n && |coeff| == t - 1 && mat.id == id && Generated(q, a, coeff, n, mat)
      requires 1 <= MemberX(id) <= n
      ensures Valid() && this.q == q && this.id == id && this.n == n && this.t == t && this.mat == mat
      ensures received == map[] && signer == None
    {
      this.q, this.id, this.n, this.t, this.mat := q, id, n, t, mat;
      peerCommits, received, done, signer := map[], map[], 0, None;
      new;
      var f := [a] + coeff;
      forall j | 0 <= j < t ensures mat.commits[j] < q {
        assert mat.commits[j] == Scale(q, f[j], 1);
      }
      if id in mat.shares {
        var x: nat :| 1 <= x <= n && MemberId(x) == id;
        MemberRoundTrip(x);
        HonestShareVerifies(q, coeff, a, x);
      }
    }

    /** Takes one peer's commitments and share, or refuses them and changes nothing. */
    method RecordPeer(pid: Id, wires: seq<PointWire>, shareVal: ScalarWire) returns (r: Result<()>)
      requires Valid()
      modifies this`peerCommits, this`received, this`done
      ensures Valid()
      ensures r.Ok? <==>
                && pid !in old(received) && shareVal.Scalar?
                && ExchangeOk(q, id, t, Exchange(wires, shareVal.v % q))
      ensures peerCommits == if r.Ok? then old(peerCommits)[pid := wires] else old(peerCommits)
      ensures received == if r.Ok? then old(received)[pid := shareVal.v % q] else old(received)
    {
      if pid in received {
        return Err("dkg: duplicate exchange");
      }
      var val := CheckExchange(q, id, t, wires, shareVal);
      if val.Err? {
        return Err(val.reason);
      }
      peerCommits := peerCommits[pid := wires];
      received := received[pid := val.value];
      done := done + 1;
      r := Ok(());
    }

    /** Whatever peers sent: the finished share verifies against the summed commitments, the group key
        is entry 0 of that vector, and the share file loads. */
    method Finish() returns (r: Result<nat>)
      requires Valid()
      modifies this`signer
      ensures Valid()
      ensures r.Ok? <==> id in received || id in mat.shares
      ensures r.Err? ==> signer == old(signer)
      ensures r.Ok? ==> signer.Some? && Finished(q, AllOf(q, id, t, mat, peerCommits, received), id, t, r.value,
                                                 signer.value)
      ensures r.Ok? ==>
                var s, all := signer.value, AllOf(q, id, t, mat, peerCommits, received);
                && s.id == id && s.x == MemberX(id) && s.groupPub == r.value && s.pubShare == Scale(q, s.share, 1)
                && s.share == Sum(all.Keys, ShareFor(all, id)) % q && Loads(q, FileOf(s))
                && forall i :: 0 <= i < |s.globalVK| ==>
                     |s.globalVK[i].1| == t && s.globalVK[i].1[0] == r.value
                     && OnCommitments(q, s.globalVK[i].1, MemberX(id), s.share)
    {
      var s := Collect();
      if s.Err? {
        return Err(s.reason);
      }
      signer := Some(s.value);
      r := Ok(s.value.groupPub);
    }

    /** Finalizes everything received so far together with the node's own material. */
    method Collect() returns (s: Result<KeyShare>)
      requires Valid()
      ensures s.Ok? <==> id in received || id in mat.shares
      ensures s.Ok? ==> Finished(q, AllOf(q, id, t, mat, peerCommits, received), id, t, s.value.groupPub, s.value)
    {
      AllPieces(q, id, t, mat, peerCommits, received);
      s := Assemble(q, id, t, AllOf(q, id, t, mat, peerCommits, received));
    }
  }

  /** The finished share against the materials it was summed from. */
  ghost predicate Finished(q: nat, all: map<Id, Material>, id: Id, t: nat, group: nat, s: KeyShare)
    requires q > 0
  {
    exists global: seq<nat> :: FinishedWith(q, all, id, t, group, s, global)
  }

  ghost predicate FinishedWith(q: nat, all: map<Id, Material>, id: Id, t: nat, group: nat, s: KeyShare,
                               global: seq<nat>)
    requires q > 0
  {
    && |global| == t >= 1 && VectorSum(q, global, all.Keys, CommitsOf(all))
    && OnCommitments(q, global, MemberX(id), s.share) && group == global[0]
    && s.id == id && s.x == MemberX(id) && s.groupPub == group && s.pubShare == Scale(q, s.share, 1)
    && s.share == Sum(all.Keys, ShareFor(all, id)) % q
    && (forall i :: 0 <= i < |s.globalVK| ==> s.globalVK[i].1 == global)
    && Loads(q, FileOf(s))
  }

  lemma FinishedShare(q: nat, all: map<Id, Material>, id: Id, t: nat, global: seq<nat>, share: nat, group: nat)
    requires q > 0 && Finalizable(q, all, id) && t >= 1 && VectorSum(q, global, all.Keys, CommitsOf(all))
    requires |global| == t && forall k :: k in all ==> |all[k].commits| == t
    requires share == Sum(all.Keys, ShareFor(all, id)) % q
    requires group == Sum(all.Keys, Coord(CommitsOf(all), 0)) % q
    ensures OnCommitments(q, global, MemberX(id), share) && group == global[0]
  {
    forall k | k in all.Keys ensures OnVector(q, CommitsOf(all), k, MemberX(id), ShareFor(all, id)(k)) {
      assert PieceOk(q, all, id, k);
    }
    CongMod(q, Sum(all.Keys, ShareFor(all, id)));
    SharesAddUp(q, global, all.Keys, CommitsOf(all), ShareFor(all, id), MemberX(id), share);
    assert EntrySum(q, global[0], all.Keys, CommitsOf(all), 0);
    Settled(q, global[0], Sum(all.Keys, Coord(CommitsOf(all), 0)));
  }

  lemma LoadsGlobal(q: nat, all: map<Id, Material>, id: Id, t: nat, global: seq<nat>, gv: seq<(Id, seq<nat>)>,
                    s: KeyShare)
    requires q > 0 && id in all && all[id].id == id && |global| == t && t >= 1
    requires VectorSum(q, global, all.Keys, CommitsOf(all)) && OnCommitments(q, global, MemberX(id), s.share)
    requires forall i :: 0 <= i < |gv| ==> gv[i].1 == global
    requires exists i :: 0 <= i < |gv| && gv[i].0 == id
    requires s.id == id && s.x == MemberX(id) && s.share < q && s.vk == [] && s.globalVK == gv
    ensures Loads(q, FileOf(s))
  {
    var f := FileOf(s);
    forall j | 0 <= j < |global| ensures global[j] < q {
      assert EntrySum(q, global[j], all.Keys, CommitsOf(all), j);
    }
    PointsRoundTrip(q, global);
    LastEntry(s, global, |gv|);
  }

  lemma {:induction false} LastEntry(s: KeyShare, global: seq<nat>, n: nat)
    requires n <= |s.globalVK| && s.vk == [] && forall i :: 0 <= i < |s.globalVK| ==> s.globalVK[i].1 == global
    ensures FileKey(FileOf(s), n) == [] || FileKey(FileOf(s), n) == Points32(global)
    ensures (exists i :: 0 <= i < n && s.globalVK[i].0 == s.id) ==> FileKey(FileOf(s), n) == Points32(global)
    decreases n
  {
    if n > 0 {
      LastEntry(s, global, n - 1);
    }
  }

  /** Two finished nodes that saw the same commitment vectors have the same group key. */
  lemma SameGroupKey(q: nat, all1: map<Id, Material>, id1: Id, group1: nat, s1: KeyShare,
                     all2: map<Id, Material>, id2: Id, group2: nat, s2: KeyShare, t: nat)
    requires q > 0 && t >= 1 && Finished(q, all1, id1, t, group1, s1) && Finished(q, all2, id2, t, group2, s2)
    requires CommitsOf(all1) == CommitsOf(all2)
    ensures group1 == group2 && s1.groupPub == s2.groupPub
  {
    assert CommitsOf(all1).Keys == all1.Keys && CommitsOf(all2).Keys == all2.Keys;
    var g1: seq<nat> :| FinishedWith(q, all1, id1, t, group1, s1, g1);
    var g2: seq<nat> :| FinishedWith(q, all2, id2, t, group2, s2, g2);
    assert EntrySum(q, g1[0], all1.Keys, CommitsOf(all1), 0) && EntrySum(q, g2[0], all2.Keys, CommitsOf(all2), 0);
    Settled(q, g1[0], Sum(all1.Keys, Coord(CommitsOf(all1), 0)));
    Settled(q, g2[0], Sum(all2.Keys, Coord(CommitsOf(all2), 0)));
  }

  /** Signer id of the session is a finished node that saw these commitment vectors. */
  ghost predicate Enrolled(q: nat, t: nat, seen: map<Id, seq<nat>>, s: Session, id: Id, all: map<Id, Material>,
                           share: KeyShare)
    requires q > 0 && id in s.pubs
  {
    && Finished(q, all, id, t, s.groupPub, share) && CommitsOf(all) == seen
    && s.pubs[id] == share.pubShare && XOf(s.xs, id) == MemberX(id)
  }

  lemma EnrolledOnPolynomial(q: nat, t: nat, seen: map<Id, seq<nat>>, s: Session, id: Id, all: map<Id, Material>,
                             share: KeyShare, global: seq<nat>)
    requires q > 0 && id in s.pubs && Enrolled(q, t, seen, s, id, all, share)
    requires |global| == t && VectorSum(q, global, seen.Keys, seen)
    ensures OnPolynomial(q, global, s, id) && t >= 1 && s.groupPub == global[0]
  {
    var own: seq<nat> :| FinishedWith(q, all, id, t, s.groupPub, share, own);
    assert CommitsOf(all).Keys == all.Keys;
    VectorSumUnique(q, own, global, seen.Keys, seen);
    OwnPoint(q, share.share);
    CongSym(q, Eval(global, MemberX(id)), share.share);
    CongTrans(q, s.pubs[id], share.share, Eval(global, MemberX(id)));
  }

  lemma EnrolledVector(q: nat, t: nat, seen: map<Id, seq<nat>>, s: Session, id: Id, all: map<Id, Material>,
                       share: KeyShare) returns (global: seq<nat>)
    requires q > 0 && id in s.pubs && Enrolled(q, t, seen, s, id, all, share)
    ensures |global| == t >= 1 && VectorSum(q, global, seen.Keys, seen) && s.groupPub == global[0]
  {
    global :| FinishedWith(q, all, id, t, s.groupPub, share, global);
    assert CommitsOf(all).Keys == all.Keys;
  }

  lemma EnrolledShares(q: nat, t: nat, seen: map<Id, seq<nat>>, s: Session, alls: map<Id, map<Id, Material>>,
                       shares: map<Id, KeyShare>, global: seq<nat>)
    requires q > 0 && s.pubs.Keys <= alls.Keys && s.pubs.Keys <= shares.Keys && |s.pubs| >= t
    requires forall id :: id in s.pubs ==> Enrolled(q, t, seen, s, id, alls[id], shares[id])
    requires DistinctPoints(q, s.pubs.Keys, s.xs)
    requires |global| == t >= 1 && VectorSum(q, global, seen.Keys, seen) && s.groupPub == global[0]
    ensures SharesOf(q, global, s)
  {
    forall id | id in s.pubs ensures OnPolynomial(q, global, s, id) {
      EnrolledOnPolynomial(q, t, seen, s, id, alls[id], shares[id], global);
    }
    assert Eval(global, 0) == global[0];
    CongEqual(q, s.groupPub, Eval(global, 0));
  }

  /** Any t members with different indices of one ceremony sign under its group key: their session meets
      the hypothesis of FROST correctness, the summed commitment vector read as the polynomial. */
  lemma DkgMembersSign(q: Prime, h: Hashes, t: nat, seen: map<Id, seq<nat>>, s: Session,
                       alls: map<Id, map<Id, Material>>, shares: map<Id, KeyShare>, z: nat)
    requires q > 0 && s.pubs.Keys <= alls.Keys && s.pubs.Keys <= shares.Keys && |s.pubs| >= t
    requires forall id :: id in s.pubs ==> Enrolled(q, t, seen, s, id, alls[id], shares[id])
    requires s.pubs != map[] && DistinctPoints(q, s.pubs.Keys, s.xs)
    requires s.pubs.Keys == s.commits.Keys == s.shares.Keys
    requires forall id :: id in s.shares ==> Verified(q, h, s, id, s.shares[id])
    requires z == Sum(s.shares.Keys, ShareAt(s.shares)) % q
    ensures Signs(q, h, s, z)
  {
    var first :| first in s.pubs;
    var global := EnrolledVector(q, t, seen, s, first, alls[first], shares[first]);
    EnrolledShares(q, t, seen, s, alls, shares, global);
    AggregateSigns(q, h, global, s, z);
  }
}
