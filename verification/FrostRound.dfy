// The two in-process rounds: FrostRound of frost.go and the blind variant of
// blindfrost.go, which drives the same signers and aggregator under a blinded
// challenge. Random scalars are inputs.

module FrostRound {
  import opened Wrappers
  import opened Orders
  import opened PrimeField
  import opened Interpolation
  import opened Group
  import opened Frost

  ghost function Ids(signers: seq<FrostSigner>): set<Id> {
    set i | 0 <= i < |signers| :: signers[i].id
  }

  ghost predicate DistinctIds(signers: seq<FrostSigner>) {
    forall i, j :: 0 <= i < j < |signers| ==> signers[i].id != signers[j].id
  }

  /** Signers with different ids and indices whose shares are points of f, with f(0) the group key. */
  ghost predicate Honest(q: nat, f: seq<int>, groupPub: nat, signers: seq<FrostSigner>)
    requires q > 0
  {
    && DistinctIds(signers) && |f| <= |signers| && Cong(q, groupPub, Eval(f, 0))
    && (forall i, j :: 0 <= i < |signers| && 0 <= j < |signers| && i != j ==> !Cong(q, signers[j].x - signers[i].x, 0))
    && forall i :: 0 <= i < |signers| ==>
         && signers[i].groupPub == groupPub && signers[i].pubShare == Scale(q, signers[i].share, 1)
         && Cong(q, signers[i].share, Eval(f, signers[i].x))
  }

  ghost predicate Unused(signers: seq<FrostSigner>)
    reads signers
  {
    forall i :: 0 <= i < |signers| ==> !signers[i].used
  }

  ghost predicate Spent(signers: seq<FrostSigner>)
    reads signers
  {
    forall i :: 0 <= i < |signers| ==> signers[i].used
  }

  datatype Gathered = Gathered(pubs: map<Id, PointWire>, xs: map<Id, int>, commits: map<Id, CommitWire>)

  /** The maps hold exactly what the first n signers published. */
  ghost predicate Holds(q: nat, signers: seq<FrostSigner>, nonces: seq<(nat, nat)>, n: nat, g: Gathered)
    requires q > 0 && n <= |signers| == |nonces|
  {
    && g.pubs.Keys == g.xs.Keys == g.commits.Keys == Ids(signers[..n])
    && forall i :: 0 <= i < n ==>
         && g.pubs[signers[i].id] == Enc(signers[i].pubShare) && g.xs[signers[i].id] == signers[i].x
         && g.commits[signers[i].id] == CommitmentOf(q, nonces[i])
  }

  ghost predicate NoncesSet(signers: seq<FrostSigner>, nonces: seq<(nat, nat)>, n: nat)
    requires n <= |signers| == |nonces|
    reads signers
  {
    forall i :: 0 <= i < n ==> signers[i].d == Some(nonces[i].0) && signers[i].e == Some(nonces[i].1)
  }

  lemma IdsGrow(signers: seq<FrostSigner>, n: nat)
    requires n < |signers|
    ensures Ids(signers[..n + 1]) == Ids(signers[..n]) + {signers[n].id}
    ensures DistinctIds(signers) ==> signers[n].id !in Ids(signers[..n])
  {
    var small, big := signers[..n], signers[..n + 1];
    assert forall i :: 0 <= i < n ==> big[i] == small[i];
    assert big[n] == signers[n];
  }

  lemma HoldsGrow(q: nat, signers: seq<FrostSigner>, nonces: seq<(nat, nat)>, i: nat, g: Gathered)
    requires q > 0 && i < |signers| == |nonces| && DistinctIds(signers) && Holds(q, signers, nonces, i, g)
    ensures var s := signers[i];
            Holds(q, signers, nonces, i + 1, Gathered(g.pubs[s.id := Enc(s.pubShare)], g.xs[s.id := s.x],
                                                      g.commits[s.id := CommitmentOf(q, nonces[i])]))
  {
    IdsGrow(signers, i);
  }

  /** Signer i commits and its wire values join the maps. */
  method CommitOne(q: nat, signers: seq<FrostSigner>, nonces: seq<(nat, nat)>, i: nat, g: Gathered)
      returns (r: Result<Gathered>)
    requires q > 0 && i < |signers| == |nonces|
    modifies signers[i]
    ensures r.Ok? <==> !old(signers[i].used)
    ensures signers[i].used && (r.Ok? ==> signers[i].d == Some(nonces[i].0) && signers[i].e == Some(nonces[i].1))
    ensures r.Ok? && DistinctIds(signers) && Holds(q, signers, nonces, i, g) ==>
          Holds(q, signers, nonces, i + 1, r.value)
  {
    var s := signers[i];
    var de := s.Commit(q, nonces[i].0, nonces[i].1);
    if de.Err? {
      return Err(de.reason);
    }
    if DistinctIds(signers) && Holds(q, signers, nonces, i, g) {
      HoldsGrow(q, signers, nonces, i, g);
    }
    r := Ok(Gathered(g.pubs[s.id := Enc(s.pubShare)], g.xs[s.id := s.x], g.commits[s.id := de.value]));
  }

  lemma Apart(signers: seq<FrostSigner>, i: nat)
    requires i < |signers|
    ensures DistinctIds(signers) ==>
              forall k {:trigger signers[k]} :: 0 <= k < |signers| && k != i ==> signers[k] != signers[i]
  {
  }

  /** Every signer commits; a signer that already committed fails the round. */
  method CommitAll(q: nat, signers: seq<FrostSigner>, nonces: seq<(nat, nat)>) returns (r: Result<Gathered>)
    requires q > 0 && |signers| == |nonces|
    modifies signers
    ensures old(!Unused(signers)) ==> r.Err?
    ensures DistinctIds(signers) && old(Unused(signers)) ==> r.Ok?
    ensures DistinctIds(signers) && r.Ok? ==>
              Holds(q, signers, nonces, |signers|, r.value) && NoncesSet(signers, nonces, |signers|)
    ensures DistinctIds(signers) && r.Ok? ==> Spent(signers)
  {
    var g := Gathered(map[], map[], map[]);
    ghost var distinct := DistinctIds(signers);
    for i := 0 to |signers|
      invariant forall k :: 0 <= k < |signers| && old(signers[k].used) ==> signers[k].used
      invariant forall k :: 0 <= k < i ==> !old(signers[k].used)
      invariant distinct ==> forall k :: i <= k < |signers| ==> signers[k].used == old(signers[k].used)
      invariant distinct ==> Holds(q, signers, nonces, i, g)
      invariant distinct ==> NoncesSet(signers, nonces, i)
      invariant distinct ==> forall k :: 0 <= k < i ==> signers[k].used
    {
      Apart(signers, i);
      var next := CommitOne(q, signers, nonces, i, g);
      if next.Err? {
        return Err(next.reason);
      }
      g := next.value;
    }
    r := Ok(g);
  }

  /** Hands every commitment to the aggregator, in whatever order the map is walked. */
  method LoadCommits(agg: FrostAggregator, commits: map<Id, CommitWire>) returns (r: Result<()>)
    requires agg.commits == map[]
    modifies agg
    ensures r.Ok? <==> commits.Keys <= agg.pubs.Keys && forall id :: id in commits ==> commits[id].DE?
    ensures agg.View() == old(agg.View()).(commits := if r.Ok? then commits else agg.commits)
  {
    var done: set<Id> := {};
    while done != commits.Keys
      invariant done <= commits.Keys && done <= agg.pubs.Keys && forall id :: id in done ==> commits[id].DE?
      invariant agg.View() == old(agg.View()).(commits := map id | id in done :: commits[id])
      decreases commits.Keys - done
    {
      assert commits.Keys == done + (commits.Keys - done);
      var id :| id in commits.Keys - done;
      var res := agg.AddCommit(id, commits[id]);
      if res.Err? {
        return Err(res.reason);
      }
      done := done + {id};
    }
    assert (map id | id in done :: commits[id]) == commits;
    r := Ok(());
  }

  /** The transcript agrees with the aggregator's session, and the session holds what this signer published. */
  ghost predicate ReadyAt(q: nat, s: Session, t: Transcript, signer: FrostSigner, nonce: (nat, nat))
    requires q > 0
  {
    && t == Transcript(s.m, s.commits, s.xs, t.c) && t.c % q == s.c && s.r.Some?
    && DistinctPoints(q, s.commits.Keys, s.xs)
    && signer.id in s.commits && s.commits.Keys == s.pubs.Keys == s.xs.Keys
    && signer.groupPub == s.groupPub && s.xs[signer.id] == signer.x
    && s.commits[signer.id] == CommitmentOf(q, nonce) && s.pubs[signer.id] == Scale(q, signer.share, 1)
  }

  /** The whole session is ready for these signers. */
  ghost predicate Ready(q: nat, s: Session, t: Transcript, signers: seq<FrostSigner>, nonces: seq<(nat, nat)>)
    requires q > 0 && |signers| == |nonces|
  {
    && DistinctIds(signers) && s.commits.Keys == Ids(signers)
    && forall i :: 0 <= i < |signers| ==> ReadyAt(q, s, t, signers[i], nonces[i])
  }

  ghost predicate SharesDone(q: nat, h: Hashes, s: Session, signers: seq<FrostSigner>, n: nat)
    requires q > 0 && n <= |signers|
  {
    s.shares.Keys == Ids(signers[..n]) && forall id :: id in s.shares ==> Verified(q, h, s, id, s.shares[id])
  }

  lemma ResidueSelf(q: nat, z: nat)
    requires z < q
    ensures z % q == z
  {
  }

  /** In a ready session the check accepts the partial that the signer computes. */
  lemma SignerAccepted(q: Prime, h: Hashes, s: Session, t: Transcript, signer: FrostSigner,
                       nonce: (nat, nat), signing: seq<Id>, checking: seq<Id>)
    requires q > 0 && ReadyAt(q, s, t, signer, nonce)
    requires Enumerates(signing, s.commits.Keys) && Enumerates(checking, s.commits.Keys)
    ensures LagrangeValue(q, signer.x, XsOf(s.xs, signing)).Some?
    ensures LagrangeValue(q, XOf(s.xs, signer.id), XsOf(s.xs, checking)).Some?
    ensures var rho := Rho(q, h, s.groupPub, s.m, s.commits, signer.id);
            var lam := LagrangeValue(q, signer.x, XsOf(s.xs, signing)).value;
            var z := PartialValue(q, nonce.0, nonce.1, rho, s.c, lam, signer.share);
            z % q == z
            && Equation(q, z, s.commits[signer.id].d.p, s.commits[signer.id].e.p, rho, s.c,
                        LagrangeValue(q, XOf(s.xs, signer.id), XsOf(s.xs, checking)).value, s.pubs[signer.id])
  {
    LagrangeOfSigner(q, s.commits.Keys, s.xs, signing, signer.id);
    var lam := LagrangeValue(q, signer.x, XsOf(s.xs, signing)).value;
    HonestPartial(q, h, s, signer.id, nonce.0, nonce.1, signer.share, lam, checking);
    ResidueSelf(q, PartialValue(q, nonce.0, nonce.1, Rho(q, h, s.groupPub, s.m, s.commits, signer.id), s.c, lam,
                                signer.share));
  }

  /** Signing or the check can fail: for some order of the participants on either side. */
  ghost predicate CanFail(q: nat, h: Hashes, s: Session, t: Transcript, signer: FrostSigner, nonce: (nat, nat))
    requires q > 0
  {
    exists z: Result<nat> ::
      && (t.commits != map[] && t.xs != map[] ==> exists ids :: PartialOf(q, h, signer, nonce, t, ids, z))
      && (z.Err? || !Checkable(q, s, signer.id) || exists ids :: Refuses(q, h, s, signer.id, z.value % q, ids))
  }

  /** One signer signs and the aggregator takes the partial. */
  method SignOne(q: Prime, h: Hashes, agg: FrostAggregator, signer: FrostSigner, t: Transcript,
                 ghost nonce: (nat, nat)) returns (r: Result<()>)
    requires q > 0
    modifies agg
    ensures agg.View() == old(agg.View()).(shares := agg.shares)
    ensures r.Ok? ==> signer.id in agg.shares && Verified(q, h, old(agg.View()), signer.id, agg.shares[signer.id])
    ensures r.Ok? ==> agg.shares == old(agg.shares)[signer.id := agg.shares[signer.id]]
    ensures r.Err? && signer.d == Some(nonce.0) && signer.e == Some(nonce.1) ==>
              CanFail(q, h, old(agg.View()).(shares := map[]), t, signer, nonce)
  {
    ghost var s := agg.View();
    var z := signer.SignShare(q, h, t);
    if z.Err? {
      return Err(z.reason);
    }
    r := agg.AddShare(q, h, signer.id, Scalar(z.value));
    if r.Err? && Checkable(q, s, signer.id) {
      ghost var ids :| Refuses(q, h, s, signer.id, z.value % q, ids);
      assert Refuses(q, h, s.(shares := map[]), signer.id, z.value % q, ids);
    }
  }

  /** A ready session cannot fail. */
  lemma ReadyCannotFail(q: Prime, h: Hashes, s: Session, t: Transcript, signer: FrostSigner, nonce: (nat, nat))
    requires q > 0 && ReadyAt(q, s, t, signer, nonce)
    ensures !CanFail(q, h, s, t, signer, nonce)
  {
    forall z: Result<nat>, signing | PartialOf(q, h, signer, nonce, t, signing, z)
      ensures z.Ok? && Checkable(q, s, signer.id)
      ensures forall ids :: !Refuses(q, h, s, signer.id, z.value % q, ids)
    {
      NotRefused(q, h, s, t, signer, nonce, z, signing);
    }
    assert signer.id in t.commits && signer.id in t.xs;
  }

  lemma NotRefused(q: Prime, h: Hashes, s: Session, t: Transcript, signer: FrostSigner, nonce: (nat, nat),
                   z: Result<nat>, signing: seq<Id>)
    requires q > 0 && ReadyAt(q, s, t, signer, nonce) && PartialOf(q, h, signer, nonce, t, signing, z)
    ensures z.Ok? && Checkable(q, s, signer.id)
    ensures forall ids :: !Refuses(q, h, s, signer.id, z.value % q, ids)
  {
    SignerAccepted(q, h, s, t, signer, nonce, signing, signing);
    assert |s.xs.Keys| == |s.xs| && |s.pubs.Keys| == |s.pubs|;
    forall ids | Enumerates(ids, s.commits.Keys) ensures !Refuses(q, h, s, signer.id, z.value % q, ids) {
      SignerAccepted(q, h, s, t, signer, nonce, signing, ids);
    }
  }

  ghost predicate SomeoneFails(q: nat, h: Hashes, s: Session, t: Transcript, signers: seq<FrostSigner>,
                               nonces: seq<(nat, nat)>)
    requires q > 0 && |signers| == |nonces|
  {
    exists i :: 0 <= i < |signers| && CanFail(q, h, s, t, signers[i], nonces[i])
  }

  /** Every signer signs and the aggregator takes the partial. */
  method SignAll(q: Prime, h: Hashes, agg: FrostAggregator, signers: seq<FrostSigner>, t: Transcript,
                 ghost nonces: seq<(nat, nat)>) returns (r: Result<()>)
    requires q > 0 && |nonces| == |signers| && agg.shares == map[]
    modifies agg
    ensures agg.View() == old(agg.View()).(shares := agg.shares)
    ensures r.Ok? ==> SharesDone(q, h, agg.View(), signers, |signers|)
    ensures r.Err? && NoncesSet(signers, nonces, |signers|) ==> SomeoneFails(q, h, old(agg.View()), t, signers, nonces)
  {
    ghost var s := agg.View();
    for i := 0 to |signers|
      invariant agg.View() == s.(shares := agg.shares)
      invariant SharesDone(q, h, agg.View(), signers, i)
    {
      IdsGrow(signers, i);
      ghost var before := agg.View();
      var res := SignOne(q, h, agg, signers[i], t, nonces[i]);
      if res.Err? {
        assert before.(shares := map[]) == s;
        return Err(res.reason);
      }
      SharesKept(q, h, before, agg.View(), signers[i].id);
    }
    assert signers[..|signers|] == signers;
    r := Ok(());
  }

  /** Accepting one more partial leaves the earlier ones accepted. */
  lemma SharesKept(q: nat, h: Hashes, before: Session, after: Session, id: Id)
    requires q > 0 && after == before.(shares := after.shares) && id in after.shares
    requires after.shares == before.shares[id := after.shares[id]]
    requires Verified(q, h, before, id, after.shares[id])
    requires forall k :: k in before.shares ==> Verified(q, h, before, k, before.shares[k])
    ensures forall k :: k in after.shares ==> Verified(q, h, after, k, after.shares[k])
  {
  }

  /** Sets up the aggregator for the gathered commitments. */
  method Prepare(q: Prime, groupPub: nat, signers: seq<FrostSigner>, g: Gathered,
                 ghost nonces: seq<(nat, nat)>, ghost f: seq<int>) returns (agg: FrostAggregator, r: Result<()>)
    requires q > 0 && |nonces| == |signers|
    ensures fresh(agg) && agg.groupPub == groupPub && agg.shares == map[]
    ensures r.Ok? ==> agg.commits == g.commits && agg.xs == g.xs
    ensures Honest(q, f, groupPub, signers) && Holds(q, signers, nonces, |signers|, g) ==>
              r.Ok? && FromHonest(q, f, groupPub, signers, nonces, g, agg.View())
  {
    agg := new FrostAggregator(q, groupPub, g.pubs);
    agg.SetXs(g.xs);
    if Honest(q, f, groupPub, signers) && Holds(q, signers, nonces, |signers|, g) {
      PubsDecode(q, f, groupPub, signers, nonces, g, agg.View());
    }
    r := LoadCommits(agg, g.commits);
  }

  /** Round two of a prepared session: no honest partial is refused. */
  method SignPrepared(q: Prime, h: Hashes, agg: FrostAggregator, signers: seq<FrostSigner>, t: Transcript,
                      ghost g: Gathered, ghost nonces: seq<(nat, nat)>, ghost f: seq<int>) returns (r: Result<()>)
    requires q > 0 && |nonces| == |signers| && agg.shares == map[]
    modifies agg
    ensures agg.View() == old(agg.View()).(shares := agg.shares)
    ensures r.Ok? ==> SharesDone(q, h, agg.View(), signers, |signers|)
    ensures Prepared(q, f, agg.groupPub, signers, nonces, g, old(agg.View()), t)
            && NoncesSet(signers, nonces, |signers|) ==>
              r.Ok?
  {
    ghost var s := agg.View();
    r := SignAll(q, h, agg, signers, t, nonces);
    if Prepared(q, f, s.groupPub, signers, nonces, g, s, t) {
      NobodyFails(q, h, f, signers, nonces, g, s, t);
    }
  }

  /** Signs and aggregates. For honest signers the sum of the partials satisfies the signing equation. */
  method Finish(q: Prime, h: Hashes, agg: FrostAggregator, signers: seq<FrostSigner>, t: Transcript, ghost g: Gathered,
                ghost nonces: seq<(nat, nat)>, ghost f: seq<int>) returns (r: Result<(nat, nat)>)
    requires q > 0 && |nonces| == |signers| && agg.shares == map[]
    modifies agg
    ensures Prepared(q, f, agg.groupPub, signers, nonces, g, old(agg.View()), t)
            && NoncesSet(signers, nonces, |signers|) ==>
              r.Ok? && Some(r.value.0) == old(agg.r) && Signs(q, h, old(agg.View()), r.value.1)
  {
    ghost var s := agg.View();
    var signed := SignPrepared(q, h, agg, signers, t, g, nonces, f);
    if signed.Err? {
      return Err(signed.reason);
    }
    r := agg.Aggregate(q);
    if Prepared(q, f, s.groupPub, signers, nonces, g, s, t) {
      FinishedSigns(q, h, f, signers, nonces, g, s, agg.View(), t, if r.Ok? then r.value.1 else 0);
    }
  }

  lemma NobodyFails(q: Prime, h: Hashes, f: seq<int>, signers: seq<FrostSigner>, nonces: seq<(nat, nat)>, g: Gathered,
                    s: Session, t: Transcript)
    requires q > 0 && |signers| == |nonces| && Prepared(q, f, s.groupPub, signers, nonces, g, s, t)
    ensures !SomeoneFails(q, h, s, t, signers, nonces)
  {
    SessionReady(q, f, s.groupPub, signers, nonces, g, s, t);
    forall i | 0 <= i < |signers| ensures !CanFail(q, h, s, t, signers[i], nonces[i]) {
      ReadyCannotFail(q, h, s, t, signers[i], nonces[i]);
    }
  }

  /** The first half of the round: commitments are in and the challenge is set. */
  method Start(q: Prime, h: Hashes, groupPub: nat, signers: seq<FrostSigner>, g: Gathered, m: Msg,
               ghost nonces: seq<(nat, nat)>, ghost f: seq<int>) returns (agg: FrostAggregator, r: Result<Transcript>)
    requires q > 0 && |nonces| == |signers|
    ensures fresh(agg) && agg.groupPub == groupPub && agg.shares == map[]
    ensures r.Ok? ==> agg.m == m && ChallengeSet(q, h, agg.View())
    ensures signers != [] && Honest(q, f, groupPub, signers) && Holds(q, signers, nonces, |signers|, g) ==>
              r.Ok? && Prepared(q, f, groupPub, signers, nonces, g, agg.View(), r.value)
  {
    var loaded;
    agg, loaded := Prepare(q, groupPub, signers, g, nonces, f);
    if loaded.Err? {
      return agg, Err(loaded.reason);
    }
    if Honest(q, f, groupPub, signers) && Holds(q, signers, nonces, |signers|, g) {
      PubsDecode(q, f, groupPub, signers, nonces, g, agg.View());
      assert |agg.pubs.Keys| == |agg.pubs| && |agg.commits.Keys| == |agg.commits|;
    }
    var challenge := agg.Challenge(q, h, m);
    if challenge.Err? {
      return agg, Err(challenge.reason);
    }
    ResidueSelf(q, challenge.value.1);
    r := Ok(Transcript(m, g.commits, g.xs, challenge.value.1));
  }

  /** Both aggregator halves over gathered commitments: honest signers get a signature that verifies. */
  method SignGathered(q: Prime, h: Hashes, groupPub: nat, signers: seq<FrostSigner>, g: Gathered, m: Msg,
                      ghost nonces: seq<(nat, nat)>, ghost f: seq<int>) returns (r: Result<(nat, nat)>)
    requires q > 0 && |nonces| == |signers|
    ensures signers != [] && Honest(q, f, groupPub, signers) && Holds(q, signers, nonces, |signers|, g)
            && NoncesSet(signers, nonces, |signers|) ==>
              r.Ok? && SignatureVerifies(q, h, groupPub, m, r.value.0, r.value.1)
  {
    var agg, t := Start(q, h, groupPub, signers, g, m, nonces, f);
    if t.Err? {
      return Err(t.reason);
    }
    ghost var s := agg.View();
    r := Finish(q, h, agg, signers, t.value, g, nonces, f);
    if r.Ok? && Some(r.value.0) == s.r && Signs(q, h, s, r.value.1) {
      SignsVerifies(q, h, s, r.value.1);
    }
  }

  /** The whole round. For honest, unused signers it succeeds and the signature verifies. */
  method Round(q: Prime, h: Hashes, groupPub: nat, signers: seq<FrostSigner>, nonces: seq<(nat, nat)>, m: Msg,
               ghost f: seq<int>) returns (r: Result<(nat, nat)>)
    requires q > 0 && |nonces| == |signers|
    modifies signers
    ensures |signers| < 2 || old(!Unused(signers)) ==> r.Err?
    ensures |signers| >= 2 && Honest(q, f, groupPub, signers) && old(Unused(signers)) ==>
              r.Ok? && SignatureVerifies(q, h, groupPub, m, r.value.0, r.value.1)
  {
    if |signers| < 2 {
      return Err("frost: need >= 2 signers");
    }
    var gathered := CommitAll(q, signers, nonces);
    if gathered.Err? {
      return Err(gathered.reason);
    }
    r := SignGathered(q, h, groupPub, signers, gathered.value, m, nonces, f);
  }

  /** The session's public shares and indices are those gathered from honest signers. */
  ghost predicate FromHonest(q: nat, f: seq<int>, groupPub: nat, signers: seq<FrostSigner>, nonces: seq<(nat, nat)>,
                             g: Gathered, s: Session)
    requires q > 0 && |signers| == |nonces|
  {
    && Honest(q, f, groupPub, signers) && Holds(q, signers, nonces, |signers|, g)
    && s.groupPub == groupPub && s.xs == g.xs
    && s.pubs == map id | id in g.pubs && Decode(q, g.pubs[id]).Some? :: g.pubs[id].p
  }

  lemma PubsDecodeAt(q: nat, f: seq<int>, groupPub: nat, signers: seq<FrostSigner>, nonces: seq<(nat, nat)>,
                     g: Gathered, s: Session, i: nat)
    requires q > 0 && |signers| == |nonces| && FromHonest(q, f, groupPub, signers, nonces, g, s) && i < |signers|
    ensures signers[i].id in s.pubs && s.pubs[signers[i].id] == Scale(q, signers[i].share, 1)
    ensures signers[i].id in g.commits && Decodable(q, g.commits[signers[i].id])
  {
    assert signers[..|signers|] == signers;
    assert signers[i].id in Ids(signers);
  }

  lemma PubsDecode(q: nat, f: seq<int>, groupPub: nat, signers: seq<FrostSigner>, nonces: seq<(nat, nat)>,
                   g: Gathered, s: Session)
    requires q > 0 && |signers| == |nonces| && FromHonest(q, f, groupPub, signers, nonces, g, s)
    ensures s.pubs.Keys == g.commits.Keys == s.xs.Keys == Ids(signers)
    ensures forall id :: id in g.commits ==> Decodable(q, g.commits[id])
    ensures forall i :: 0 <= i < |signers| ==> s.pubs[signers[i].id] == Scale(q, signers[i].share, 1)
    ensures signers != [] ==> g.commits != map[]
  {
    assert signers[..|signers|] == signers;
    forall i | 0 <= i < |signers|
      ensures signers[i].id in s.pubs && s.pubs[signers[i].id] == Scale(q, signers[i].share, 1)
      ensures signers[i].id in g.commits && Decodable(q, g.commits[signers[i].id])
    {
      PubsDecodeAt(q, f, groupPub, signers, nonces, g, s, i);
    }
    if signers != [] {
      assert signers[0].id in g.commits;
    }
  }

  lemma KeysAgree(q: nat, f: seq<int>, groupPub: nat, signers: seq<FrostSigner>, nonces: seq<(nat, nat)>,
                  g: Gathered, s: Session)
    requires q > 0 && |signers| == |nonces| && FromHonest(q, f, groupPub, signers, nonces, g, s)
    ensures s.pubs.Keys == g.commits.Keys == Ids(signers)
  {
    PubsDecode(q, f, groupPub, signers, nonces, g, s);
  }

  lemma IndicesDistinct(q: nat, f: seq<int>, groupPub: nat, signers: seq<FrostSigner>, nonces: seq<(nat, nat)>,
                        g: Gathered, s: Session)
    requires q > 0 && |signers| == |nonces| && FromHonest(q, f, groupPub, signers, nonces, g, s)
    ensures DistinctPoints(q, Ids(signers), s.xs)
  {
    forall i | 0 <= i < |signers| ensures XOf(s.xs, signers[i].id) == signers[i].x {
      IndexAt(q, f, groupPub, signers, nonces, g, s, i);
    }
    PointsByPosition(q, signers, s.xs);
  }

  lemma PointsByPosition(q: nat, signers: seq<FrostSigner>, xs: map<Id, int>)
    requires forall i :: 0 <= i < |signers| ==> XOf(xs, signers[i].id) == signers[i].x
    requires forall i, j :: 0 <= i < |signers| && 0 <= j < |signers| && i != j ==>
          !Cong(q, signers[j].x - signers[i].x, 0)
    ensures DistinctPoints(q, Ids(signers), xs)
  {
    forall a, b | a in Ids(signers) && b in Ids(signers) && a != b
      ensures !Cong(q, XOf(xs, b) - XOf(xs, a), 0)
    {
      var i :| 0 <= i < |signers| && signers[i].id == a;
      var j :| 0 <= j < |signers| && signers[j].id == b;
    }
  }

  lemma IndexAt(q: nat, f: seq<int>, groupPub: nat, signers: seq<FrostSigner>, nonces: seq<(nat, nat)>,
                g: Gathered, s: Session, i: nat)
    requires q > 0 && i < |signers| == |nonces| && FromHonest(q, f, groupPub, signers, nonces, g, s)
    ensures XOf(s.xs, signers[i].id) == signers[i].x
  {
    assert signers[..|signers|] == signers;
    assert signers[i].id in Ids(signers);
  }

  /** An honest session in which the challenge is set and the transcript is the session's own. */
  ghost predicate Prepared(q: nat, f: seq<int>, groupPub: nat, signers: seq<FrostSigner>, nonces: seq<(nat, nat)>,
                           g: Gathered, s: Session, t: Transcript)
    requires q > 0 && |signers| == |nonces|
  {
    && FromHonest(q, f, groupPub, signers, nonces, g, s) && s.commits == g.commits && s.r.Some?
    && t == Transcript(s.m, s.commits, s.xs, t.c) && t.c % q == s.c
  }

  lemma SessionReady(q: Prime, f: seq<int>, groupPub: nat, signers: seq<FrostSigner>, nonces: seq<(nat, nat)>,
                     g: Gathered, s: Session, t: Transcript)
    requires q > 0 && |signers| == |nonces| && Prepared(q, f, groupPub, signers, nonces, g, s, t)
    ensures Ready(q, s, t, signers, nonces)
  {
    PubsDecode(q, f, groupPub, signers, nonces, g, s);
    IndicesDistinct(q, f, groupPub, signers, nonces, g, s);
    forall i | 0 <= i < |signers| ensures ReadyAt(q, s, t, signers[i], nonces[i]) {
      assert signers[i].id in Ids(signers);
    }
  }

  lemma CountIds(signers: seq<FrostSigner>, n: nat)
    requires n <= |signers| && DistinctIds(signers)
    ensures |Ids(signers[..n])| == n
    decreases n
  {
    if n > 0 {
      CountIds(signers, n - 1);
      IdsGrow(signers, n - 1);
    }
  }

  lemma HonestShareAt(q: Prime, f: seq<int>, groupPub: nat, signers: seq<FrostSigner>, nonces: seq<(nat, nat)>,
                      g: Gathered, s: Session, id: Id)
    requires q > 0 && |signers| == |nonces| && FromHonest(q, f, groupPub, signers, nonces, g, s) && id in s.pubs
    requires s.pubs.Keys == Ids(signers)
    ensures OnPolynomial(q, f, s, id)
  {
    var i :| 0 <= i < |signers| && signers[i].id == id;
    OwnPoint(q, signers[i].share);
    PubsDecodeAt(q, f, groupPub, signers, nonces, g, s, i);
    IndexAt(q, f, groupPub, signers, nonces, g, s, i);
    CongTrans(q, s.pubs[id], signers[i].share, Eval(f, signers[i].x));
  }

  /** Honest shares put the public shares on f. */
  lemma HonestShares(q: Prime, f: seq<int>, groupPub: nat, signers: seq<FrostSigner>, nonces: seq<(nat, nat)>,
                     g: Gathered, s: Session)
    requires q > 0 && |signers| == |nonces| && FromHonest(q, f, groupPub, signers, nonces, g, s)
    requires s.pubs.Keys == Ids(signers)
    ensures SharesOf(q, f, s)
  {
    IndicesDistinct(q, f, groupPub, signers, nonces, g, s);
    CountIds(signers, |signers|);
    assert signers[..|signers|] == signers && |s.pubs.Keys| == |s.pubs|;
    forall id | id in s.pubs ensures OnPolynomial(q, f, s, id) {
      HonestShareAt(q, f, groupPub, signers, nonces, g, s, id);
    }
  }

  /** Once every partial was accepted, the sum satisfies the signing equation. */
  lemma FinishedSigns(q: Prime, h: Hashes, f: seq<int>, signers: seq<FrostSigner>, nonces: seq<(nat, nat)>, g: Gathered,
                      s: Session, after: Session, t: Transcript, z: nat)
    requires q > 0 && |signers| == |nonces| && Prepared(q, f, s.groupPub, signers, nonces, g, s, t)
    requires after == s.(shares := after.shares) && SharesDone(q, h, after, signers, |signers|)
    requires |after.shares| == |after.pubs| ==> z == Sum(after.shares.Keys, ShareAt(after.shares)) % q
    ensures |after.shares| == |after.pubs| && Signs(q, h, s, z)
  {
    HonestSession(q, f, s.groupPub, signers, nonces, g, s);
    assert signers[..|signers|] == signers;
    assert |after.shares.Keys| == |after.shares| && |after.pubs.Keys| == |after.pubs|;
    SharesSign(q, h, f, s, after, z);
  }

  lemma HonestSession(q: Prime, f: seq<int>, groupPub: nat, signers: seq<FrostSigner>, nonces: seq<(nat, nat)>,
                      g: Gathered, s: Session)
    requires q > 0 && |signers| == |nonces| && FromHonest(q, f, groupPub, signers, nonces, g, s)
    ensures SharesOf(q, f, s) && s.pubs.Keys == g.commits.Keys == Ids(signers)
  {
    KeysAgree(q, f, groupPub, signers, nonces, g, s);
    HonestShares(q, f, groupPub, signers, nonces, g, s);
  }

  lemma SharesSign(q: Prime, h: Hashes, f: seq<int>, s: Session, after: Session, z: nat)
    requires q > 0 && SharesOf(q, f, s) && s.pubs.Keys == s.commits.Keys == after.shares.Keys
    requires after == s.(shares := after.shares)
    requires forall id :: id in after.shares ==> Verified(q, h, after, id, after.shares[id])
    requires z == Sum(after.shares.Keys, ShareAt(after.shares)) % q
    ensures Signs(q, h, s, z)
  {
    forall id | id in after.pubs ensures OnPolynomial(q, f, after, id) {
      assert OnPolynomial(q, f, s, id);
    }
    AggregateSigns(q, h, f, after, z);
  }

  // -------------------------------------------------------------- blind round

  /** What the user keeps: the blinded message, the blinded challenge, the unblinder, and R'. */
  datatype BlindState = BlindState(mBlind: Msg, cPrime: nat, a: nat, rp: nat)
  {
    /** The signers' context: the blinded message in place of the true one. */
    function Transcript(commits: map<Id, CommitWire>, xs: map<Id, int>): Transcript {
      Frost.Transcript(mBlind, commits, xs, cPrime)
    }

    /** Adds the unblinder back. */
    function Unblind(q: nat, z: nat): (nat, nat)
      requires q > 0
    {
      (rp, (z + a) % q)
    }
  }

  /** The blinded nonce R + a*B + b*X and challenge H(R', X, m) + b. */
  method BlindSetup(q: nat, h: Hashes, groupPub: nat, m: Msg, commits: map<Id, CommitWire>, r: nat, a: nat, b: nat)
      returns (res: Result<BlindState>)
    requires q > 0
    ensures res.Ok? <==> commits != map[] && AllDecodable(q, commits) && groupPub < q
    ensures res.Ok? ==> BlindFrom(q, h, groupPub, m, commits, b, res.value) && res.value.cPrime < q
  {
    if |commits| == 0 {
      return Err("blind: need commitments");
    }
    var mBlind := h.blind(m, r);
    var nonce := AggregateNonce(q, h, groupPub, mBlind, commits);
    if nonce.Err? {
      return Err(nonce.reason);
    }
    if groupPub >= q {
      return Err("frost: invalid point");
    }
    var ab := ScalarMult(q, a, 1);
    var bx := ScalarMult(q, b, groupPub);
    var rp := PointAdd(q, nonce.value, PointAdd(q, ab, bx));
    BlindedNonce(q, nonce.value, a, b, groupPub);
    var c := h.challenge(rp, groupPub, m) % q;
    res := Ok(BlindState(mBlind, (c + b) % q, a, rp));
  }

  lemma BlindedNonce(q: nat, nonce: nat, a: nat, b: nat, x: nat)
    requires q > 0
    ensures Cong(q, PointAdd(q, nonce, PointAdd(q, Scale(q, a, 1), Scale(q, b, x))), nonce + (a + b * x))
  {
    OwnPoint(q, a);
    CongEqual(q, x, x);
    MultipleOfPoint(q, b, x, x);
    SumOfPoints(q, Scale(q, a, 1), Scale(q, b, x), a, b * x);
    CongEqual(q, nonce, nonce);
    SumOfPoints(q, nonce, PointAdd(q, Scale(q, a, 1), Scale(q, b, x)), nonce, a + b * x);
  }

  ghost predicate BlindFrom(q: nat, h: Hashes, groupPub: nat, m: Msg, commits: map<Id, CommitWire>, b: nat,
                            bs: BlindState)
    requires q > 0
  {
    && Cong(q, bs.rp, NoncePoint(q, h, groupPub, bs.mBlind, commits) + (bs.a + b * groupPub))
    && bs.cPrime == (h.challenge(bs.rp, groupPub, m) % q + b) % q
  }

  /** Unblinding an aggregate signed under the blinded challenge gives a signature on the true message. */
  lemma BlindVerifies(q: nat, h: Hashes, s: Session, m: Msg, b: nat, bs: BlindState, z: nat)
    requires q > 0 && BlindFrom(q, h, s.groupPub, m, s.commits, b, bs)
    requires s.m == bs.mBlind && s.c == bs.cPrime && Signs(q, h, s, z)
    ensures SignatureVerifies(q, h, s.groupPub, m, bs.Unblind(q, z).0, bs.Unblind(q, z).1)
  {
    var n, x := NoncePoint(q, h, s.groupPub, bs.mBlind, s.commits), s.groupPub;
    var c := h.challenge(bs.rp, s.groupPub, m) % q;
    CongMod(q, c + b);
    CongEqual(q, x, x);
    CongMul(q, bs.cPrime, c + b, x, x);
    UnblindStep(q, z, n, bs.cPrime * x, c, b, x, bs.a, bs.rp);
  }

  lemma UnblindStep(q: nat, z: int, n: int, cpx: int, c: int, b: int, x: int, a: int, rp: int)
    requires q > 0 && Cong(q, z, n + cpx) && Cong(q, cpx, (c + b) * x) && Cong(q, rp, n + (a + b * x))
    ensures Cong(q, (z + a) % q, rp + c * x)
  {
    var i := CongWitness(q, z, n + cpx);
    var j := CongWitness(q, cpx, (c + b) * x);
    var k := CongWitness(q, rp, n + (a + b * x));
    assert (c + b) * x == c * x + b * x;
    assert (i + j - k) * q == i * q + j * q - k * q;
    CongBy(q, z + a, rp + c * x, i + j - k);
    CongMod(q, z + a);
    CongTrans(q, (z + a) % q, z + a, rp + c * x);
  }

  /** The first half of the blind round: commitments are in and the blinded challenge is set. */
  method BlindStart(q: Prime, h: Hashes, groupPub: nat, signers: seq<FrostSigner>, g: Gathered, m: Msg,
                    r: nat, a: nat, b: nat, ghost nonces: seq<(nat, nat)>, ghost f: seq<int>)
      returns (agg: FrostAggregator, bs: Result<BlindState>)
    requires q > 0 && |nonces| == |signers|
    ensures fresh(agg) && agg.groupPub == groupPub && agg.shares == map[]
    ensures bs.Ok? ==> BlindFrom(q, h, groupPub, m, agg.commits, b, bs.value) && agg.m == bs.value.mBlind
    ensures bs.Ok? ==> agg.c == bs.value.cPrime
    ensures signers != [] && Honest(q, f, groupPub, signers) && groupPub < q
            && Holds(q, signers, nonces, |signers|, g) ==>
              bs.Ok? && Prepared(q, f, groupPub, signers, nonces, g, agg.View(), bs.value.Transcript(g.commits, g.xs))
  {
    var loaded;
    agg, loaded := Prepare(q, groupPub, signers, g, nonces, f);
    if loaded.Err? {
      return agg, Err(loaded.reason);
    }
    if Honest(q, f, groupPub, signers) && Holds(q, signers, nonces, |signers|, g) {
      PubsDecode(q, f, groupPub, signers, nonces, g, agg.View());
    }
    bs := BlindSetup(q, h, groupPub, m, g.commits, r, a, b);
    if bs.Ok? {
      agg.UseBlindedChallenge(q, bs.value.cPrime, bs.value.rp, bs.value.mBlind);
      ResidueSelf(q, bs.value.cPrime);
    }
  }

  /** The whole blind round: for honest, unused signers the unblinded signature verifies for m. */
  method BlindRound(q: Prime, h: Hashes, groupPub: nat, signers: seq<FrostSigner>, nonces: seq<(nat, nat)>, m: Msg,
                    r: nat, a: nat, b: nat, ghost f: seq<int>) returns (res: Result<(nat, nat)>)
    requires q > 0 && |nonces| == |signers|
    modifies signers
    ensures |signers| < 2 || old(!Unused(signers)) ==> res.Err?
    ensures |signers| >= 2 && Honest(q, f, groupPub, signers) && groupPub < q && old(Unused(signers)) ==>
              res.Ok? && SignatureVerifies(q, h, groupPub, m, res.value.0, res.value.1)
  {
    if |signers| < 2 {
      return Err("blind: need >= 2 signers");
    }
    var gathered := CommitAll(q, signers, nonces);
    if gathered.Err? {
      return Err(gathered.reason);
    }
    var g := gathered.value;
    var agg, bs := BlindStart(q, h, groupPub, signers, g, m, r, a, b, nonces, f);
    if bs.Err? {
      return Err(bs.reason);
    }
    ghost var s := agg.View();
    var total := Finish(q, h, agg, signers, bs.value.Transcript(g.commits, g.xs), g, nonces, f);
    if total.Err? {
      return Err(total.reason);
    }
    if Signs(q, h, s, total.value.1) {
      BlindVerifies(q, h, s, m, b, bs.value, total.value.1);
    }
    res := Ok(bs.value.Unblind(q, total.value.1));
  }
}
