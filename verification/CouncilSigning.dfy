// The recovery council of council.go over its members' FROST shares: the two-round
// ceremony that signs the epoch handoff, and recovery driven by it.

module CouncilSigning {
  import opened Wrappers
  import opened Orders
  import opened Events
  import opened Timelines
  import opened Rollbacks
  import opened Recoveries
  import opened Councils
  import opened PrimeField
  import opened Interpolation
  import opened Group
  import opened Frost
  import opened FrostRound
  import opened KeyShares
  import opened Ceremonies

  /** Members with a loaded share, in order; a nil member is unavailable. */
  function Holders(members: seq<FrostSigner?>): seq<FrostSigner> {
    if members == [] then []
    else
      var front, last := Holders(members[..|members| - 1]), members[|members| - 1];
      if last != null then front + [last] else front
  }

  /** The holders with a wanted id; of two under one id the later counts. */
  function ById(holders: seq<FrostSigner>, ids: seq<Id>): (m: map<Id, FrostSigner>)
    ensures forall id :: id in m ==> m[id].id == id && m[id] in holders && id in ids
    ensures forall k :: 0 <= k < |holders| && holders[k].id in ids ==> holders[k].id in m
  {
    if holders == [] then map[]
    else
      var front, last := ById(holders[..|holders| - 1], ids), holders[|holders| - 1];
      if last.id in ids then front[last.id := last] else front
  }

  function Listing(m: map<Id, FrostSigner>, order: seq<Id>): seq<FrostSigner>
    requires Members(order) == m.Keys
  {
    seq(|order|, i requires 0 <= i < |order| => assert order[i] in Members(order); m[order[i]])
  }

  /** The signers hold shares of f under their canonical indices, no two of which meet modulo q, there
      are enough of them, and f(0) is the group key. */
  ghost predicate Consistent(q: nat, f: seq<int>, groupPub: nat, m: map<Id, FrostSigner>)
    requires q > 0
  {
    && |f| <= |m| && Cong(q, groupPub, Eval(f, 0))
    && (forall a, b :: a in m && b in m && a != b ==> !Cong(q, MemberX(b) - MemberX(a), 0))
    && forall id :: id in m ==> ConsistentAt(q, f, groupPub, id, m[id])
  }

  ghost predicate ConsistentAt(q: nat, f: seq<int>, groupPub: nat, id: Id, s: FrostSigner)
    requires q > 0
  {
    && s.id == id && s.x == MemberX(id) && s.groupPub == groupPub && s.pubShare == Scale(q, s.share, 1)
    && Cong(q, s.share, Eval(f, MemberX(id)))
  }

  ghost predicate AllUnused(m: map<Id, FrostSigner>)
    reads m.Values
  {
    forall id :: id in m ==> !m[id].used
  }

  lemma ListingIsHonest(q: nat, f: seq<int>, groupPub: nat, m: map<Id, FrostSigner>, order: seq<Id>)
    requires q > 0 && Enumerates(order, m.Keys) && Consistent(q, f, groupPub, m)
    ensures Honest(q, f, groupPub, Listing(m, order)) && Canonical(Listing(m, order))
  {
    var signers := Listing(m, order);
    EnumeratedLength(order, m.Keys);
    assert |m.Keys| == |m|;
    forall i | 0 <= i < |signers| ensures order[i] in m && ConsistentAt(q, f, groupPub, order[i], signers[i]) {
      assert order[i] in Members(order);
    }
  }

  /** Every signer's own index is that of its id. */
  predicate Canonical(signers: seq<FrostSigner>) {
    forall i :: 0 <= i < |signers| ==> signers[i].x == MemberX(signers[i].id)
  }

  lemma IndicesAgree(q: nat, signers: seq<FrostSigner>, nonces: seq<(nat, nat)>, g: Gathered)
    requires q > 0 && |signers| == |nonces| && Holds(q, signers, nonces, |signers|, g)
    requires Canonical(signers)
    ensures g.xs == IndicesOf(g.commits)
  {
    assert signers[..|signers|] == signers;
    forall id | id in g.xs ensures g.xs[id] == MemberX(id) {
      var i :| 0 <= i < |signers| && signers[i].id == id;
    }
  }

  /** Both FROST rounds: nonces, challenge, partials, aggregate. */
  method RoundOver(env: Env, groupPub: nat, signers: seq<FrostSigner>, m: Msg, nonces: seq<(nat, nat)>,
                   ghost f: seq<int>)
      returns (r: Option<(nat, nat)>)
    requires env.q > 0 && |signers| == |nonces|
    modifies signers
    ensures r.Some? ==> old(Unused(signers)) && (DistinctIds(signers) ==> Spent(signers))
    ensures signers != [] && Honest(env.q, f, groupPub, signers) && Canonical(signers) && old(Unused(signers)) ==>
              r.Some? && SignatureVerifies(env.q, env.h, groupPub, m, r.value.0, r.value.1)
  {
    var gathered := CommitAll(env.q, signers, nonces);
    if gathered.Err? {
      return None;
    }
    var g := Gathered(gathered.value.pubs, IndicesOf(gathered.value.commits), gathered.value.commits);
    if DistinctIds(signers) && Canonical(signers) {
      IndicesAgree(env.q, signers, nonces, gathered.value);
    }
    var sig := SignGathered(env.q, env.h, groupPub, signers, g, m, nonces, f);
    r := if sig.Ok? then Some(sig.value) else None;
  }

  /** The chosen signers in some order. */
  method Arrange(q: nat, groupPub: nat, chosen: map<Id, FrostSigner>, ghost f: seq<int>)
      returns (signers: seq<FrostSigner>)
    requires q > 0
    ensures |signers| == |chosen| && (forall s <- signers :: s in chosen.Values)
    ensures forall id :: id in chosen ==> chosen[id] in signers
    ensures AllUnused(chosen) <==> Unused(signers)
    ensures NamedById(chosen) ==> DistinctIds(signers)
    ensures Consistent(q, f, groupPub, chosen) ==> Honest(q, f, groupPub, signers) && Canonical(signers)
  {
    var order := OrderOf(chosen.Keys);
    EnumeratedLength(order, chosen.Keys);
    assert |chosen.Keys| == |chosen|;
    signers := Listing(chosen, order);
    ListingCovers(chosen, order);
    ListingUnused(chosen, order);
    if NamedById(chosen) {
      ListingDistinct(chosen, order);
    }
    if Consistent(q, f, groupPub, chosen) {
      ListingIsHonest(q, f, groupPub, chosen, order);
    }
  }

  /** The rounds over the chosen signers, in any order. */
  method Ceremony(env: Env, groupPub: nat, chosen: map<Id, FrostSigner>, m: Msg, nonces: seq<(nat, nat)>,
                  ghost f: seq<int>)
      returns (r: Option<(nat, nat)>)
    requires env.q > 0 && |chosen| <= |nonces|
    modifies chosen.Values
    ensures r.Some? ==> chosen != map[] && old(AllUnused(chosen))
    ensures r.Some? && NamedById(chosen) ==> forall id :: id in chosen ==> chosen[id].used
    ensures chosen != map[] && Consistent(env.q, f, groupPub, chosen) && old(AllUnused(chosen)) ==>
              r.Some? && SignatureVerifies(env.q, env.h, groupPub, m, r.value.0, r.value.1)
  {
    if chosen == map[] {
      return None;
    }
    var signers := Arrange(env.q, groupPub, chosen, f);
    r := RoundOver(env, groupPub, signers, m, nonces[..|signers|], f);
  }

  lemma ListingCovers(m: map<Id, FrostSigner>, order: seq<Id>)
    requires Members(order) == m.Keys
    ensures forall s <- Listing(m, order) :: s in m.Values
    ensures forall id :: id in m ==> m[id] in Listing(m, order)
  {
    var signers := Listing(m, order);
    forall id | id in m ensures m[id] in signers {
      assert id in Members(order);
      var i :| 0 <= i < |order| && order[i] == id;
      assert signers[i] == m[id];
    }
    forall i | 0 <= i < |signers| ensures signers[i] in m.Values {
      assert order[i] in Members(order);
    }
  }

  lemma ListingUnused(m: map<Id, FrostSigner>, order: seq<Id>)
    requires Members(order) == m.Keys
    ensures AllUnused(m) <==> Unused(Listing(m, order))
  {
    ListingCovers(m, order);
    var signers := Listing(m, order);
    forall i | 0 <= i < |signers| ensures order[i] in m && signers[i] == m[order[i]] {
      assert order[i] in Members(order);
    }
    if Unused(signers) {
      forall id | id in m ensures !m[id].used {
        assert m[id] in signers;
      }
    }
  }

  predicate NamedById(m: map<Id, FrostSigner>) {
    forall id :: id in m ==> m[id].id == id
  }

  lemma ListingDistinct(m: map<Id, FrostSigner>, order: seq<Id>)
    requires Enumerates(order, m.Keys) && NamedById(m)
    ensures DistinctIds(Listing(m, order))
  {
    forall i | 0 <= i < |order| ensures order[i] in m && Listing(m, order)[i].id == order[i] {
      assert order[i] in Members(order);
    }
  }

  lemma {:induction false} HoldersFirst(members: seq<FrostSigner?>, i: nat)
    requires i < |members| && members[i] != null && Holders(members[..i]) == []
    ensures Holders(members) != [] && Holders(members)[0] == members[i]
    decreases |members|
  {
    var front := members[..|members| - 1];
    if i < |members| - 1 {
      assert front[..i] == members[..i];
      HoldersFirst(front, i);
    }
  }

  class Council {
    const members: seq<FrostSigner?>
    const group: PubKey
    var epoch: int

    /** The group key is that of the first member with a share. */
    constructor (members: seq<FrostSigner?>)
      ensures this.members == members && epoch == 0
      ensures Holders(members) != [] ==> group == Pub(Holders(members)[0].groupPub)
    {
      this.members, epoch := members, 0;
      var key, i := WrongLength(0), 0;
      while i < |members| && !key.Pub?
        invariant 0 <= i <= |members|
        invariant if key.Pub? then Holders(members) != [] && key == Pub(Holders(members)[0].groupPub)
                  else Holders(members[..i]) == []
      {
        assert members[..i + 1][..i] == members[..i];
        if members[i] != null {
          key := Pub(members[i].groupPub);
          HoldersFirst(members, i);
        }
        i := i + 1;
      }
      assert members[..|members|] == members;
      group := key;
    }

    method ShareHolders() returns (holders: seq<FrostSigner>)
      ensures holders == Holders(members)
    {
      holders := [];
      for i := 0 to |members|
        invariant holders == Holders(members[..i])
      {
        assert members[..i + 1][..i] == members[..i];
        if members[i] != null {
          holders := holders + [members[i]];
        }
      }
      assert members[..|members|] == members;
    }

    method Choose(holders: seq<FrostSigner>, ids: seq<Id>) returns (chosen: map<Id, FrostSigner>)
      ensures chosen == ById(holders, ids)
    {
      chosen := map[];
      for i := 0 to |holders|
        invariant chosen == ById(holders[..i], ids)
      {
        assert holders[..i + 1][..i] == holders[..i];
        if holders[i].id in ids {
          chosen := chosen[holders[i].id := holders[i]];
        }
      }
      assert holders[..|holders|] == holders;
    }

    /** Returns a handoff only when the epoch follows, enough named holders with unused shares signed,
        and the group signature verifies; only then does the epoch advance. A willing council always
        returns one. */
    method SignCommit(env: Env, d: Descriptor, min: int, ids: seq<Id>, nonces: seq<(nat, nat)>, ghost f: seq<int>)
      returns (r: Option<FrostCommit>)
      requires env.q > 0 && |nonces| >= |members|
      modifies this`epoch, Holders(members)
      ensures r.Some? ==> d.epoch == d.prev + 1 && HandoffBy(env, d, group, min, ById(Holders(members), ids), r.value)
      ensures r.Some? ==> forall id :: id in ById(Holders(members), ids) ==> ById(Holders(members), ids)[id].used
      ensures r.Some? ==>
                && r.value.d == d && r.value.sig == Signed(group, HandoffMsg(d)) && |r.value.members| >= min
                && Distinct(r.value.members)
                && forall id :: id in r.value.members <==> id in ById(Holders(members), ids)
      ensures old(Fresh(Holders(members), ids)) && WouldSign(env, f, d, group, min, members, ids) ==> r.Some?
      ensures epoch == if r.Some? then d.epoch else old(epoch)
    {
      ghost var fresh0 := Fresh(Holders(members), ids);
      if d.epoch != d.prev + 1 {
        return None;
      }
      var holders := ShareHolders();
      if |holders| < min {
        return None;
      }
      var chosen := Choose(holders, ids);
      if |chosen| < min {
        return None;
      }
      FewEnough(members, ids);
      assert Fresh(holders, ids) == fresh0;
      if fresh0 {
        FreshlyChosen(holders, ids);
      }
      r := SignWith(env, d, group, min, chosen, nonces, f);
      if r.Some? {
        epoch := d.epoch;
      }
    }

    /** finishRecovery: the roll-back, the signed handoff, and the recovered timeline. */
    method FinishRecovery(env: Env, tl: Timeline, badIdx: nat, minVotes: int, ids: seq<Id>, newRoot: nat,
                          certificate: Option<nat>, nonces: seq<(nat, nat)>, ghost f: seq<int>)
      returns (r: Result<Outcome>)
      requires env.q > 0 && |nonces| >= |members|
      modifies this`epoch, Holders(members)
      ensures unchanged(tl)
      ensures r.Ok? ==> certificate.Some? && Recovered(tl.View(), badIdx, newRoot, old(epoch), group, r.value)
      ensures r.Ok? ==> HandoffBy(env, r.value.commit.d, group, minVotes, ById(Holders(members), ids), r.value.commit)
      ensures old(Fresh(Holders(members), ids))
              && WouldRecover(env, f, tl.View(), badIdx, old(epoch), newRoot, certificate, group, minVotes, members,
                              ids) ==>
                r.Ok?
      ensures epoch == if r.Ok? then old(epoch) + 1 else old(epoch)
    {
      ghost var fresh0, v := Fresh(Holders(members), ids), tl.View();
      if certificate.None? {
        return Err("no CA certificate");
      }
      var fork, affected, identities := RecoverRollback(tl, badIdx, newRoot);
      if fork.Err? {
        return Err(fork.reason);
      }
      var prevEpoch := epoch;
      var d := Descriptor(epoch + 1, CheckpointOf(tl.events, badIdx), epoch, fork.value.pub, certificate.value);
      assert d == HandoffOf(tl.View(), badIdx, epoch, newRoot, certificate.value);
      assert Fresh(Holders(members), ids) == fresh0;
      var commit := SignCommit(env, d, minVotes, ids, nonces, f);
      if commit.None? {
        return Err("commit failed");
      }
      var o := Publish(tl, badIdx, fork.value, commit.value, affected, identities, prevEpoch, newRoot, group);
      r := Ok(o);
    }

    /** Recover: nothing happens unless the evidence parses, the prefix verifies and enough members
        hold shares; every holder is then asked to sign, and a willing council recovers. */
    method Recover(env: Env, tl: Timeline, evidence: Option<Event>, minVotes: int, newRoot: nat,
                   certificate: Option<nat>, nonces: seq<(nat, nat)>, ghost f: seq<int>) returns (r: Result<Outcome>)
      requires env.q > 0 && |nonces| >= |members|
      modifies this`epoch, Holders(members)
      ensures unchanged(tl)
      ensures r.Ok? ==> BadIndexOf(evidence).Some? && PrefixTrusted(tl.View(), BadIndexOf(evidence).value)
                        && |Holders(members)| >= minVotes
      ensures r.Ok? ==> Recovered(tl.View(), BadIndexOf(evidence).value, newRoot, old(epoch), group, r.value)
                        && |r.value.commit.members| >= minVotes
      ensures r.Ok? ==> evidence.Some? && evidence.value.body.typ == Detected
      ensures r.Ok? && evidence.value.body.payload.EvidencePayload? ==>
                var b := evidence.value.body.payload.badIndex;
                b >= 0 && Recovered(tl.View(), b, newRoot, old(epoch), group, r.value)
      ensures BadIndexOf(evidence).Some? && PrefixTrusted(tl.View(), BadIndexOf(evidence).value)
              && |Holders(members)| >= minVotes && old(Fresh(Holders(members), IdsOf(Holders(members))))
              && WouldRecover(env, f, tl.View(), BadIndexOf(evidence).value, old(epoch), newRoot, certificate, group,
                              minVotes,
                              members, IdsOf(Holders(members))) ==>
                r.Ok?
      ensures epoch == if r.Ok? then old(epoch) + 1 else old(epoch)
    {
      ghost var fresh0 := Fresh(Holders(members), IdsOf(Holders(members)));
      var bad := BadIndexOf(evidence);
      if bad.None? {
        return Err("malformed evidence");
      }
      var ok := tl.VerifyPrefix(bad.value);
      if !ok {
        return Err("prefix failed verification");
      }
      var holders := ShareHolders();
      if |holders| < minVotes {
        return Err("BLOCKED: awaiting quorum");
      }
      assert Fresh(Holders(members), IdsOf(holders)) == fresh0;
      r := FinishRecovery(env, tl, bad.value, minVotes, IdsOf(holders), newRoot, certificate, nonces, f);
    }
  }

  function IdsOf(holders: seq<FrostSigner>): seq<Id> {
    seq(|holders|, i requires 0 <= i < |holders| => holders[i].id)
  }

  /** None of the named holders has committed yet. */
  ghost predicate Fresh(holders: seq<FrostSigner>, ids: seq<Id>)
    reads holders
  {
    forall i :: 0 <= i < |holders| && holders[i].id in ids ==> !holders[i].used
  }

  /** Consistent signers, enough of them, and bytes that read as Ed25519 would have it. */
  ghost predicate Signable(env: Env, f: seq<int>, d: Descriptor, group: PubKey, min: int, chosen: map<Id, FrostSigner>)
    requires env.q > 0
  {
    && d.newPub.Pub? && |chosen| >= min && chosen != map[] && group.Pub?
    && Consistent(env.q, f, group.key, chosen) && Reads(env, group.key, d)
  }

  /** With unused shares the council is sure to sign this descriptor. */
  ghost predicate WouldSign(env: Env, f: seq<int>, d: Descriptor, group: PubKey, min: int, members: seq<FrostSigner?>,
                            ids: seq<Id>)
    requires env.q > 0
  {
    && d.epoch == d.prev + 1 && |Holders(members)| >= min
    && Signable(env, f, d, group, min, ById(Holders(members), ids))
  }

  /** And to recover this timeline: it rolls back and the new root has its certificate. */
  ghost predicate WouldRecover(env: Env, f: seq<int>, v: Ledger, badIdx: nat, epoch: int, newRoot: nat,
                               certificate: Option<nat>, group: PubKey, min: int, members: seq<FrostSigner?>,
                               ids: seq<Id>)
    requires env.q > 0
  {
    && certificate.Some? && RolledBack(v, badIdx).Some?
    && WouldSign(env, f, HandoffOf(v, badIdx, epoch, newRoot, certificate.value), group, min, members, ids)
  }

  /** A valid handoff for the descriptor, by exactly the chosen signers. */
  ghost predicate HandoffBy(env: Env, d: Descriptor, group: PubKey, min: int, chosen: map<Id, FrostSigner>,
                            fc: FrostCommit) {
    fc.d == d && fc.Valid(group, min) && fc.Valid(group, 1) && Enumerates(fc.members, chosen.Keys) && SealOf(env, fc)
  }

  /** So the handoff satisfies Ed25519's equation on its descriptor under the group key. */
  lemma HandoffVerifies(env: Env, d: Descriptor, groupPub: nat, min: int, chosen: map<Id, FrostSigner>, fc: FrostCommit)
    requires env.q > 0 && HandoffBy(env, d, Pub(groupPub), min, chosen, fc) && Reads(env, groupPub, d)
    ensures SealVerifies(env, groupPub, fc)
  {
    var r, z :| SealOfPair(env, fc, r, z);
    ValidSealVerifies(env, groupPub, fc, r, z);
  }

  /** The ceremony and the final check of the handoff it signed. */
  method SignWith(env: Env, d: Descriptor, group: PubKey, min: int, chosen: map<Id, FrostSigner>,
                  nonces: seq<(nat, nat)>, ghost f: seq<int>) returns (r: Option<FrostCommit>)
    requires env.q > 0 && |chosen| <= |nonces|
    modifies chosen.Values
    ensures r.Some? ==> old(AllUnused(chosen)) && HandoffBy(env, d, group, min, chosen, r.value)
    ensures r.Some? && NamedById(chosen) ==> forall id :: id in chosen ==> chosen[id].used
    ensures Signable(env, f, d, group, min, chosen) && old(AllUnused(chosen)) ==> r.Some?
  {
    var key := if group.Pub? then group.key else 0;
    var sig := Ceremony(env, key, chosen, env.bytes(d), nonces, f);
    if sig.None? {
      return None;
    }
    var names := OrderOf(chosen.Keys);
    EnumeratedLength(names, chosen.Keys);
    assert |chosen.Keys| == |chosen|;
    var fc := FrostCommit(d, env.seal(sig.value.0, sig.value.1), names);
    assert SealOfPair(env, fc, sig.value.0, sig.value.1);
    assert Reads(env, key, d) ==> ReadsAs(env, key, d, sig.value.0, sig.value.1);
    if !fc.Valid(group, min) {
      return None;
    }
    return Some(fc);
  }

  /** The handoff's signature is 64 bytes R || z. */
  ghost predicate SealOf(env: Env, fc: FrostCommit) {
    exists r, z :: SealOfPair(env, fc, r, z)
  }

  ghost predicate SealOfPair(env: Env, fc: FrostCommit, r: nat, z: nat) {
    fc.sig == env.seal(r, z)
  }

  lemma FreshlyChosen(holders: seq<FrostSigner>, ids: seq<Id>)
    requires Fresh(holders, ids)
    ensures AllUnused(ById(holders, ids))
  {
    forall id | id in ById(holders, ids) ensures !ById(holders, ids)[id].used {
      var i :| 0 <= i < |holders| && holders[i] == ById(holders, ids)[id];
    }
  }

  lemma FewEnough(members: seq<FrostSigner?>, ids: seq<Id>)
    ensures |ById(Holders(members), ids)| <= |Holders(members)| <= |members|
  {
    HoldersFew(members);
    ByIdFew(Holders(members), ids);
  }

  lemma {:induction false} HoldersFew(members: seq<FrostSigner?>)
    ensures |Holders(members)| <= |members|
  {
    if members != [] {
      HoldersFew(members[..|members| - 1]);
    }
  }

  lemma {:induction false} ByIdFew(holders: seq<FrostSigner>, ids: seq<Id>)
    ensures |ById(holders, ids)| <= |holders|
  {
    if holders != [] {
      var front, last := ById(holders[..|holders| - 1], ids), holders[|holders| - 1];
      ByIdFew(holders[..|holders| - 1], ids);
      assert front[last.id := last].Keys == front.Keys + {last.id};
    }
  }
}
