// Both ends of the networked recovery together: the requests that RemoteRecover itself
// sends (councilnet.go), and the members that answer them.

module RemoteMembers {
  import opened Wrappers
  import opened Orders
  import opened Events
  import opened Chains
  import opened Timelines
  import opened Rollbacks
  import opened Recoveries
  import opened Councils
  import opened PrimeField
  import opened Interpolation
  import opened Group
  import opened Frost
  import opened FrostRound
  import opened KeyShares
  import opened Ceremonies
  import opened CouncilNets
  import opened RemoteRecovery

  /** A timeline as it arrives: without its private key and its rotations; keys of the wrong length do
      not parse. */
  function Sent(v: Ledger): Option<Ledger> {
    if v.pub.Pub? && v.Start().Pub? && (v.council.Some? ==> v.council.value.Pub?)
    then Some(v.(key := None, start := Some(v.Start()), rotations := []))
    else None
  }

  function VoteRequest(v: Ledger, badIdx: nat): VoteReq {
    VoteReq(Sent(v), badIdx)
  }

  /** The commit request of round two: the fork is the rolled-back prefix, before the handoff and the
      re-issuances are published on it. */
  ghost function CommitRequest(env: Env, groupPub: nat, v: Ledger, badIdx: nat, newRoot: nat, certificate: nat,
                               t: Tally, certs: set<string>, ids: set<string>): CommitReq
    requires env.q > 0 && RolledBack(v, badIdx).Some?
  {
    var d := HandoffOf(v, badIdx, LastEpoch(v.events), newRoot, certificate);
    var s := SessionOf(env, groupPub, t, env.bytes(d));
    CommitReq(Some(d), d.epoch, d.prev, Sent(Rerooted(v, badIdx, newRoot)), badIdx, certs, ids, t.commits,
              Enc(s.r.value), Scalar(s.c))
  }

  lemma {:induction false} KeyStaysWellFormed(events: Link, start: PubKey, n: nat)
    requires n <= |events| && start.Pub?
    ensures PubAfter(events, start, n).Pub?
  {
    if n > 0 {
      KeyStaysWellFormed(events, start, n - 1);
    }
  }

  lemma ForkArrives(v: Ledger, badIdx: nat, newRoot: nat)
    requires Sent(v).Some? && 0 < badIdx <= |v.events|
    ensures var fork := Rerooted(v, badIdx, newRoot);
            Sent(fork).Some? && Sent(fork).value.events == fork.events && (Sent(fork).value.Good() <==> fork.Good())
  {
    KeyStaysWellFormed(v.events, v.Start(), CutAt(v.events, badIdx));
  }

  /** The rolled-back prefix verifies on its own; see RolledBackGood. */
  predicate PrefixStands(v: Ledger, badIdx: nat) {
    0 < badIdx <= |v.events| && NoCopy(v.events, badIdx)
    && (v.After(badIdx) == v.Start() || v.events[0].body.typ == Recovery)
  }

  /** A member that voted for this recovery, and for nothing since. */
  predicate HasVoted(s: MemberState, v: Ledger, badIdx: nat, commit: CommitWire) {
    && badIdx <= |v.events| && s.epoch <= LastEpoch(v.events)
    && s.pending == Some(Pending(LastEpoch(v.events) + 1, CheckpointOf(v.events, badIdx), commit))
  }

  /** Whatever a member holds, it signs RemoteRecover's own request only for a recovery that is not from genesis
      and whose rolled-back prefix verifies. */
  lemma SignedStands(env: Env, id: Id, groupPub: nat, s: MemberState, v: Ledger, badIdx: nat, newRoot: nat,
                     certificate: nat, t: Tally, certs: set<string>, ids: set<string>)
    requires env.q > 0 && RolledBack(v, badIdx).Some? && PrefixTrusted(v, badIdx)
    requires MaySign(env, id, groupPub, s, CommitRequest(env, groupPub, v, badIdx, newRoot, certificate, t, certs, ids))
    ensures PrefixStands(v, badIdx)
  {
    RolledBackGood(v, badIdx, newRoot);
  }

  /** A member that voted signs that request exactly then. It looks at nothing that is published on the fork
      afterwards, and the epoch it stores is the descriptor's. */
  lemma InitiatorIsSigned(env: Env, id: Id, groupPub: nat, s: MemberState, v: Ledger, badIdx: nat, newRoot: nat,
                          certificate: nat, t: Tally, certs: set<string>, ids: set<string>)
    requires env.q > 0 && RolledBack(v, badIdx).Some? && Sent(v).Some? && PrefixTrusted(v, badIdx)
    requires id in t.commits && AllDecodable(env.q, t.commits) && HasVoted(s, v, badIdx, t.commits[id])
    ensures var req := CommitRequest(env, groupPub, v, badIdx, newRoot, certificate, t, certs, ids);
            && (MaySign(env, id, groupPub, s, req) <==> PrefixStands(v, badIdx))
            && req.epoch == req.frost.value.epoch
  {
    var req := CommitRequest(env, groupPub, v, badIdx, newRoot, certificate, t, certs, ids);
    if MaySign(env, id, groupPub, s, req) {
      SignedStands(env, id, groupPub, s, v, badIdx, newRoot, certificate, t, certs, ids);
    }
    if PrefixStands(v, badIdx) {
      ForkArrives(v, badIdx, newRoot);
      RolledBackGood(v, badIdx, newRoot);
      LastAtExactly(v.events, badIdx - 1);
      WholeForkAccepted(req);
      assert TranscriptHonest(env, id, groupPub, s.pending.value.commit, req);
    }
  }

  /** Of the recoveries that its members sign, the timeline that is published verifies exactly when the group is
      the chain's trust anchor and the chain links by SHA-256. */
  lemma SignedVerifiesExactly(v: Ledger, badIdx: nat, newRoot: nat, group: PubKey, o: Outcome)
    requires Recovered(v, badIdx, newRoot, LastEpoch(v.events), group, o) && PrefixTrusted(v, badIdx)
    requires group.Pub? && PrefixStands(v, badIdx)
    ensures o.timeline.View().Good() <==> v.council == Some(group) && v.algo == Sha256
  {
    var order, certs, affected :| RecoveredInOrder(v, badIdx, newRoot, LastEpoch(v.events), group, o, order, certs,
                                                   affected);
    RecoveryTail(v, badIdx, newRoot, LastEpoch(v.events), group, o, affected);
  }

  // ------------------------------------------------------------ one member

  /** The prefix that is voted for can be signed, and arrives as it was sent. */
  predicate Signable(v: Ledger, badIdx: nat) {
    Sent(v).Some? && PrefixTrusted(v, badIdx) && PrefixStands(v, badIdx)
  }

  /** The member's share is a point of f, at its own index, and the initiator knows it by that point. */
  ghost predicate Seated(env: Env, f: seq<int>, groupPub: nat, member: CouncilMemberServer, endpoint: PointWire)
    requires env.q > 0
  {
    && member.share != null && member.share.groupPub == groupPub && member.share.x == MemberX(member.share.id)
    && Cong(env.q, member.share.share, Eval(f, member.share.x)) && endpoint == Enc(Scale(env.q, member.share.share, 1))
  }

  /** The member has spent no nonces and has no epoch above the chain's. */
  predicate Free(member: CouncilMemberServer, v: Ledger)
    reads member, member.share
  {
    member.share != null && !member.share.used && member.epoch <= LastEpoch(v.events)
  }

  /** A vote names the member and holds points. */
  predicate Claims(q: nat, member: CouncilMemberServer, vote: VoteReply) {
    vote.Some? ==> member.share != null && vote.value.0 == member.share.id && Decodable(q, vote.value.1)
  }

  /** The member's vote, if it gave one, is what it holds and what the initiator was told. */
  ghost predicate Told(member: CouncilMemberServer, v: Ledger, badIdx: nat, vote: VoteReply)
    reads member, member.share
  {
    vote.Some? ==> HasVoted(member.View(), v, badIdx, vote.value.1)
  }

  method AskVote(env: Env, member: CouncilMemberServer, v: Ledger, badIdx: nat, nonce: (nat, nat))
    returns (vote: VoteReply)
    requires env.q > 0 && member.Valid(env)
    modifies member, member.share
    ensures member.Valid(env) && Told(member, v, badIdx, vote) && Claims(env.q, member, vote)
    ensures old(Free(member, v)) && Signable(v, badIdx) ==> Voted(vote)
  {
    var resp := member.Vote(env, VoteRequest(v, badIdx), nonce.0, nonce.1);
    match resp
    case NoVote(_) => return None;
    case Vote(_, _, commit) => return Some((member.share.id, commit));
  }

  /** The tally holds the member's vote and the point the initiator knows it by. */
  ghost predicate Counted(env: Env, f: seq<int>, groupPub: nat, member: CouncilMemberServer, endpoint: PointWire,
                          vote: VoteReply, t: Tally)
    requires env.q > 0
  {
    && Seated(env, f, groupPub, member, endpoint) && vote.Some? && vote.value.0 == member.share.id
    && vote.value.0 in t.commits && t.commits[vote.value.0] == vote.value.1
    && vote.value.0 in t.pubs && t.pubs[vote.value.0] == endpoint
  }

  /** Every voter's points decode, and the voters' indices differ modulo q. */
  ghost predicate Sound(env: Env, t: Tally) {
    InStep(t) && Openable(env, t) && PairsApart(env.q, t.commits.Keys)
  }

  /** An answer under the voter's own id that cannot be refused. */
  ghost predicate Stands(env: Env, s: Session, vote: VoteReply, reply: ShareReply)
    requires env.q > 0
  {
    Irrefusable(env, s, reply) && vote.Some? && reply.value.0 == vote.value.0
  }

  /** Round two at one member: its answer to the initiator's own request cannot be refused. */
  method AskCommit(env: Env, member: CouncilMemberServer, req: CommitReq, ghost f: seq<int>, ghost groupPub: nat,
                   ghost v: Ledger, ghost badIdx: nat, ghost newRoot: nat, ghost certificate: nat, ghost t: Tally,
                   ghost endpoint: PointWire, ghost vote: VoteReply)
    returns (reply: ShareReply)
    requires env.q > 0 && member.Valid(env) && Told(member, v, badIdx, vote) && RolledBack(v, badIdx).Some?
    requires req == CommitRequest(env, groupPub, v, badIdx, newRoot, certificate, t, req.certs, req.ids)
    modifies member
    ensures member.Valid(env)
    ensures reply.Some? && PrefixTrusted(v, badIdx) ==> PrefixStands(v, badIdx)
    ensures Counted(env, f, groupPub, member, endpoint, vote, t) && Sound(env, t) && Signable(v, badIdx) ==>
              Stands(env, SessionOf(env, groupPub, t, env.bytes(req.frost.value)), vote, reply)
  {
    ghost var counted := Counted(env, f, groupPub, member, endpoint, vote, t) && Sound(env, t) && Signable(v, badIdx);
    ghost var signer, nonce := member.share, (0, 0);
    if counted {
      InitiatorIsSigned(env, member.share.id, groupPub, member.View(), v, badIdx, newRoot, certificate, t, req.certs,
                        req.ids);
      nonce := (signer.d.value, signer.e.value);
    }
    ghost var before := member.View();
    var resp := member.Commit(env, req);
    if resp.Share? && PrefixTrusted(v, badIdx) {
      SignedStands(env, member.share.id, member.share.groupPub, before, v, badIdx, newRoot, certificate, t, req.certs,
                   req.ids);
    }
    reply := if resp.Share? then Some((member.share.id, Scalar(resp.z))) else None;
    if counted {
      ghost var order, z :| Answer(env, signer, req, order, z, resp);
      PartialCounts(env, groupPub, signer, nonce, t, env.bytes(req.frost.value),
                    SessionOf(env, groupPub, t, env.bytes(req.frost.value)), order, z);
    }
  }

  /** The signer published what the tally holds under its id, and computes over its own index. */
  ghost predicate InTally(q: nat, groupPub: nat, signer: FrostSigner, nonce: (nat, nat), t: Tally)
    requires q > 0
  {
    && signer.groupPub == groupPub && signer.x == MemberX(signer.id)
    && signer.id in t.commits && t.commits[signer.id] == CommitmentOf(q, nonce)
    && signer.id in t.pubs && t.pubs[signer.id] == Enc(Scale(q, signer.share, 1))
  }

  lemma PartialCounts(env: Env, groupPub: nat, signer: FrostSigner, nonce: (nat, nat), t: Tally, m: Msg, s: Session,
                      order: seq<Id>, z: Result<nat>)
    requires env.q > 0 && Sound(env, t) && InTally(env.q, groupPub, signer, nonce, t)
    requires s == SessionOf(env, groupPub, t, m)
    requires PartialOf(env.q, env.h, signer, nonce, Transcript(m, t.commits, t.xs, s.c), order, z)
    ensures z.Ok? && Irrefusable(env, s, Some((signer.id, Scalar(z.value))))
  {
    SessionIsReady(env, groupPub, signer, nonce, t, m, s);
    MemberCannotBeRefused(env, s, signer, nonce, s.c, order, z);
  }

  lemma SessionIsReady(env: Env, groupPub: nat, signer: FrostSigner, nonce: (nat, nat), t: Tally, m: Msg, s: Session)
    requires env.q > 0 && Sound(env, t) && InTally(env.q, groupPub, signer, nonce, t)
    requires s == SessionOf(env, groupPub, t, m)
    ensures ReadyAt(env.q, s, Transcript(m, t.commits, t.xs, s.c), signer, nonce)
  {
    SessionSet(env, groupPub, t, m, s);
    CanonicalApart(env.q, t);
    ChallengeReduced(env.q, env.h.challenge(s.r.value, groupPub, m));
  }

  lemma ChallengeReduced(q: nat, c: nat)
    requires q > 0
    ensures (c % q) % q == c % q
  {
  }

  // ----------------------------------------------------------- the whole net

  /** Different members with different shares. */
  ghost predicate Separate(members: seq<CouncilMemberServer>) {
    forall i, j :: 0 <= i < j < |members| ==>
      members[i] != members[j] && (members[i].share == null || members[i].share != members[j].share)
  }

  function Shares(members: seq<CouncilMemberServer>): set<FrostSigner?> {
    set i | 0 <= i < |members| :: members[i].share
  }

  ghost predicate AllValid(env: Env, members: seq<CouncilMemberServer>)
    requires env.q > 0
    reads members, Shares(members)
  {
    forall i :: 0 <= i < |members| ==> members[i].Valid(env)
  }

  /** The members from number n on are free. */
  ghost predicate FreeFrom(members: seq<CouncilMemberServer>, v: Ledger, n: nat)
    reads members, Shares(members)
  {
    forall i :: n <= i < |members| ==> Free(members[i], v)
  }

  /** The first members were asked, and every vote is what its member holds. */
  ghost predicate Polled(q: nat, members: seq<CouncilMemberServer>, v: Ledger, badIdx: nat, votes: seq<VoteReply>)
    requires |votes| <= |members|
    reads members, Shares(members)
  {
    forall i :: 0 <= i < |votes| ==> Told(members[i], v, badIdx, votes[i]) && Claims(q, members[i], votes[i])
  }

  /** Nobody was passed over before there were enough votes. */
  predicate AskedEnough(endpoints: seq<PointWire>, votes: seq<VoteReply>, minVotes: int)
    requires |endpoints| == |votes|
  {
    forall i :: 0 <= i < |votes| ==> Voted(votes[i]) || |TallyOf(endpoints, votes, minVotes, i).commits| >= minVotes
  }

  lemma {:induction false} TallyOfFront(e: seq<PointWire>, v: seq<VoteReply>, e2: seq<PointWire>, v2: seq<VoteReply>,
                                        minVotes: int, n: nat)
    requires n <= |e| == |v| && n <= |e2| == |v2| && e[..n] == e2[..n] && v[..n] == v2[..n]
    ensures TallyOf(e, v, minVotes, n) == TallyOf(e2, v2, minVotes, n)
  {
    if n > 0 {
      assert e[..n - 1] == e[..n][..n - 1] && v[..n - 1] == v[..n][..n - 1];
      assert e2[..n - 1] == e2[..n][..n - 1] && v2[..n - 1] == v2[..n][..n - 1];
      assert e[n - 1] == e[..n][n - 1] == e2[n - 1] && v[n - 1] == v[..n][n - 1] == v2[n - 1];
      TallyOfFront(e, v, e2, v2, minVotes, n - 1);
    }
  }

  /** The next member in turn; the others are left alone. */
  method AskNext(env: Env, members: seq<CouncilMemberServer>, n: nat, v: Ledger, badIdx: nat, nonce: (nat, nat),
                 ghost votes: seq<VoteReply>) returns (vote: VoteReply)
    requires env.q > 0 && n == |votes| < |members| && Separate(members) && AllValid(env, members)
    requires Polled(env.q, members, v, badIdx, votes)
    modifies members[n], members[n].share
    ensures AllValid(env, members) && Polled(env.q, members, v, badIdx, votes + [vote])
    ensures old(FreeFrom(members, v, n)) ==> FreeFrom(members, v, n + 1)
    ensures old(FreeFrom(members, v, n)) && Signable(v, badIdx) ==> Voted(vote)
  {
    assert forall i :: 0 <= i < |members| && i != n ==>
      members[i] != members[n] && (members[i].share == null || members[i].share != members[n].share);
    vote := AskVote(env, members[n], v, badIdx, nonce);
  }

  /** One turn of round one: nobody is asked once there are enough votes. */
  method AskInTurn(env: Env, members: seq<CouncilMemberServer>, enough: bool, n: nat, v: Ledger, badIdx: nat,
                   nonce: (nat, nat), ghost votes: seq<VoteReply>) returns (vote: VoteReply)
    requires env.q > 0 && n == |votes| < |members| && Separate(members) && AllValid(env, members)
    requires Polled(env.q, members, v, badIdx, votes)
    modifies members, Shares(members)
    ensures AllValid(env, members) && Polled(env.q, members, v, badIdx, votes + [vote])
    ensures old(FreeFrom(members, v, n)) ==> FreeFrom(members, v, n + 1)
    ensures old(FreeFrom(members, v, n)) && Signable(v, badIdx) ==> enough || Voted(vote)
  {
    if enough {
      return None;
    }
    vote := AskNext(env, members, n, v, badIdx, nonce, votes);
  }

  /** Round one: members are asked in turn until there are enough votes. */
  method AskVotes(env: Env, members: seq<CouncilMemberServer>, endpoints: seq<PointWire>, v: Ledger, badIdx: nat,
                  nonces: seq<(nat, nat)>, minVotes: int) returns (votes: seq<VoteReply>)
    requires env.q > 0 && |members| == |endpoints| == |nonces| && Separate(members) && AllValid(env, members)
    modifies members, Shares(members)
    ensures |votes| == |members| && AllValid(env, members) && Polled(env.q, members, v, badIdx, votes)
    ensures old(FreeFrom(members, v, 0)) && Signable(v, badIdx) ==> AskedEnough(endpoints, votes, minVotes)
  {
    votes := [];
    ghost var free := FreeFrom(members, v, 0) && Signable(v, badIdx);
    for i := 0 to |members|
      invariant |votes| == i && AllValid(env, members) && Polled(env.q, members, v, badIdx, votes)
      invariant free ==> FreeFrom(members, v, i) && AskedEnough(endpoints[..i], votes, minVotes)
    {
      var enough := |TallyOf(endpoints[..i], votes, minVotes, i).commits| >= minVotes;
      var vote := AskInTurn(env, members, enough, i, v, badIdx, nonces[i], votes);
      if free {
        OneMoreAsked(endpoints, votes, vote, minVotes);
      }
      votes := votes + [vote];
    }
    assert endpoints[..|members|] == endpoints;
  }

  lemma AskedOneMore(endpoints: seq<PointWire>, votes: seq<VoteReply>, endpoint: PointWire, vote: VoteReply,
                     minVotes: int)
    requires |endpoints| == |votes| && AskedEnough(endpoints, votes, minVotes)
    requires Voted(vote) || |TallyOf(endpoints, votes, minVotes, |votes|).commits| >= minVotes
    ensures AskedEnough(endpoints + [endpoint], votes + [vote], minVotes)
  {
    var e, v := endpoints + [endpoint], votes + [vote];
    forall i | 0 <= i < |v| ensures Voted(v[i]) || |TallyOf(e, v, minVotes, i).commits| >= minVotes {
      assert e[..i] == endpoints[..i] && v[..i] == votes[..i];
      TallyOfFront(e, v, endpoints, votes, minVotes, i);
    }
  }

  lemma OneMoreAsked(endpoints: seq<PointWire>, votes: seq<VoteReply>, vote: VoteReply, minVotes: int)
    requires |votes| < |endpoints| && AskedEnough(endpoints[..|votes|], votes, minVotes)
    requires Voted(vote) || |TallyOf(endpoints[..|votes|], votes, minVotes, |votes|).commits| >= minVotes
    ensures AskedEnough(endpoints[..|votes| + 1], votes + [vote], minVotes)
  {
    AskedOneMore(endpoints[..|votes|], votes, endpoints[|votes|], vote, minVotes);
    assert endpoints[..|votes|] + [endpoints[|votes|]] == endpoints[..|votes| + 1];
  }

  /** Members with different ids who are asked in turn fill the tally. */
  lemma TallyIsFull(endpoints: seq<PointWire>, votes: seq<VoteReply>, minVotes: int, ids: seq<Id>)
    requires |endpoints| == |votes| == |ids| && Distinct(ids) && 0 < minVotes <= |votes|
    requires AskedEnough(endpoints, votes, minVotes)
    requires forall i :: 0 <= i < |votes| && Voted(votes[i]) ==> votes[i].value.0 == ids[i]
    ensures |TallyOf(endpoints, votes, minVotes, |votes|).commits| == minVotes
  {
    var t := TallyOf(endpoints, votes, minVotes, |votes|);
    TallyMeans(endpoints, votes, minVotes, |votes|);
    assert |t.commits.Keys| == |t.commits|;
    if |t.commits| < minVotes {
      forall i | 0 <= i < |votes| ensures ids[i] in t.commits {
        if |TallyOf(endpoints, votes, minVotes, i).commits| >= minVotes {
          TallyStops(endpoints, votes, minVotes, i, |votes|);
        }
        TallyIsComplete(endpoints, votes, minVotes, |votes|, i);
      }
      EnumeratedLength(ids, Members(ids));
      SubsetSize(Members(ids), t.commits.Keys);
    }
  }

  /** Members who hold points of f under ids whose indices differ modulo q, each known to the initiator. */
  ghost predicate Convened(env: Env, f: seq<int>, groupPub: nat, members: seq<CouncilMemberServer>,
                           endpoints: seq<PointWire>)
    requires env.q > 0 && |members| == |endpoints|
  {
    && Cong(env.q, groupPub, Eval(f, 0))
    && (forall i :: 0 <= i < |members| ==> Seated(env, f, groupPub, members[i], endpoints[i]))
    && (forall i, j :: 0 <= i < |members| && 0 <= j < |members| && i != j ==>
                         && members[i].share.id != members[j].share.id
                         && IndicesApart(env.q, members[i].share.id, members[j].share.id))
  }

  predicate AllClaim(q: nat, members: seq<CouncilMemberServer>, votes: seq<VoteReply>)
    requires |votes| == |members|
  {
    forall i :: 0 <= i < |members| ==> Claims(q, members[i], votes[i])
  }

  lemma ShareIsPoint(q: nat, share: nat, value: int)
    requires q > 0 && Cong(q, share, value)
    ensures Cong(q, Scale(q, share, 1), value)
  {
    CongMod(q, share * 1);
    CongTrans(q, Scale(q, share, 1), share, value);
  }

  lemma ConvenedIsKnown(env: Env, f: seq<int>, groupPub: nat, members: seq<CouncilMemberServer>,
                        endpoints: seq<PointWire>, votes: seq<VoteReply>)
    requires env.q > 0 && |members| == |endpoints| == |votes| && Convened(env, f, groupPub, members, endpoints)
    requires AllClaim(env.q, members, votes)
    ensures KnownShares(env.q, f, groupPub, endpoints, votes)
  {
    forall i | 0 <= i < |votes| && Voted(votes[i])
      ensures KeyShareOn(env.q, f, endpoints[i], votes[i].value.0)
    {
      assert Claims(env.q, members[i], votes[i]) && Seated(env, f, groupPub, members[i], endpoints[i]);
      ShareIsPoint(env.q, members[i].share.share, Eval(f, members[i].share.x));
    }
    forall i, j | 0 <= i < |votes| && 0 <= j < |votes| && Voted(votes[i]) && Voted(votes[j])
      ensures IndicesApart(env.q, votes[i].value.0, votes[j].value.0)
    {
      assert Claims(env.q, members[i], votes[i]) && Claims(env.q, members[j], votes[j]);
    }
  }

  ghost predicate ToldFrom(members: seq<CouncilMemberServer>, v: Ledger, badIdx: nat, votes: seq<VoteReply>, n: nat)
    requires |votes| == |members|
    reads members, Shares(members)
  {
    forall i :: n <= i < |members| ==> Told(members[i], v, badIdx, votes[i])
  }

  /** Of the first answers, each of a member that is counted cannot be refused. */
  ghost predicate Standing(env: Env, f: seq<int>, groupPub: nat, members: seq<CouncilMemberServer>,
                           endpoints: seq<PointWire>, votes: seq<VoteReply>, t: Tally, s: Session,
                           replies: seq<ShareReply>)
    requires env.q > 0 && |replies| <= |members| == |endpoints| == |votes|
  {
    forall i :: 0 <= i < |replies| && Counted(env, f, groupPub, members[i], endpoints[i], votes[i], t) ==>
      Stands(env, s, votes[i], replies[i])
  }

  /** Round two: every member is asked; those outside the tally refuse, as their commitment is missing. */
  method AskCommits(env: Env, members: seq<CouncilMemberServer>, req: CommitReq, ghost f: seq<int>, ghost groupPub: nat,
                    ghost v: Ledger, ghost badIdx: nat, ghost newRoot: nat, ghost certificate: nat, ghost t: Tally,
                    ghost endpoints: seq<PointWire>, ghost votes: seq<VoteReply>)
    returns (replies: seq<ShareReply>)
    requires env.q > 0 && |members| == |endpoints| == |votes| && Separate(members) && AllValid(env, members)
    requires ToldFrom(members, v, badIdx, votes, 0) && RolledBack(v, badIdx).Some?
    requires req == CommitRequest(env, groupPub, v, badIdx, newRoot, certificate, t, req.certs, req.ids)
    modifies members
    ensures |replies| == |members| && AllValid(env, members)
    ensures PrefixTrusted(v, badIdx) && !Silent(replies) ==> PrefixStands(v, badIdx)
    ensures Sound(env, t) && Signable(v, badIdx) ==>
              Standing(env, f, groupPub, members, endpoints, votes, t,
                       SessionOf(env, groupPub, t, env.bytes(req.frost.value)), replies)
  {
    replies := [];
    ghost var s := SessionOf(env, groupPub, t, env.bytes(req.frost.value));
    for i := 0 to |members|
      invariant PrefixTrusted(v, badIdx) && !Silent(replies) ==> PrefixStands(v, badIdx)
      invariant |replies| == i && AllValid(env, members) && ToldFrom(members, v, badIdx, votes, i)
      invariant Sound(env, t) && Signable(v, badIdx) ==>
                  Standing(env, f, groupPub, members, endpoints, votes, t, s, replies)
    {
      assert Told(members[i], v, badIdx, votes[i]);
      var reply := AskCommit(env, members[i], req, f, groupPub, v, badIdx, newRoot, certificate, t, endpoints[i],
                             votes[i]);
      replies := replies + [reply];
    }
  }

  /** The tally of a convened council holds every voter's own commitment and point. */
  lemma TallyCounts(env: Env, f: seq<int>, groupPub: nat, members: seq<CouncilMemberServer>, endpoints: seq<PointWire>,
                    votes: seq<VoteReply>, minVotes: int, id: Id) returns (i: nat)
    requires env.q > 0 && |members| == |endpoints| == |votes| && Convened(env, f, groupPub, members, endpoints)
    requires AllClaim(env.q, members, votes) && id in TallyOf(endpoints, votes, minVotes, |votes|).commits
    ensures i < |members| && Voted(votes[i]) && votes[i].value.0 == id
    ensures Counted(env, f, groupPub, members[i], endpoints[i], votes[i], TallyOf(endpoints, votes, minVotes, |votes|))
  {
    var t := TallyOf(endpoints, votes, minVotes, |votes|);
    TallyFromEndpoints(endpoints, votes, minVotes, |votes|, id);
    i :| 0 <= i < |votes| && AnsweredBy(endpoints, votes, t, id, i);
    assert Claims(env.q, members[i], votes[i]) && Seated(env, f, groupPub, members[i], endpoints[i]);
  }

  lemma TallyIsSound(env: Env, f: seq<int>, groupPub: nat, members: seq<CouncilMemberServer>, endpoints: seq<PointWire>,
                     votes: seq<VoteReply>, minVotes: int)
    requires env.q > 0 && |members| == |endpoints| == |votes| && Convened(env, f, groupPub, members, endpoints)
    requires AllClaim(env.q, members, votes) && 0 < minVotes <= |members| && AskedEnough(endpoints, votes, minVotes)
    ensures var t := TallyOf(endpoints, votes, minVotes, |votes|); Sound(env, t) && |t.commits| == minVotes
  {
    var t := TallyOf(endpoints, votes, minVotes, |votes|);
    var ids := seq(|members|, i requires 0 <= i < |members| =>
                     assert Seated(env, f, groupPub, members[i], endpoints[i]); members[i].share.id);
    TallyMeans(endpoints, votes, minVotes, |votes|);
    forall i | 0 <= i < |votes| && Voted(votes[i]) ensures votes[i].value.0 == ids[i] {
      assert Claims(env.q, members[i], votes[i]);
    }
    TallyIsFull(endpoints, votes, minVotes, ids);
    ConvenedIsKnown(env, f, groupPub, members, endpoints, votes);
    AllApart(env, f, groupPub, endpoints, votes, minVotes);
    forall id | id in t.commits ensures Decodable(env.q, t.commits[id]) && Decode(env.q, t.pubs[id]).Some? {
      var i := TallyCounts(env, f, groupPub, members, endpoints, votes, minVotes, id);
      assert Claims(env.q, members[i], votes[i]);
    }
  }

  lemma VoterAnswers(env: Env, f: seq<int>, groupPub: nat, members: seq<CouncilMemberServer>, endpoints: seq<PointWire>,
                     votes: seq<VoteReply>, minVotes: int, t: Tally, s: Session, replies: seq<ShareReply>, id: Id)
    requires env.q > 0 && |members| == |endpoints| == |votes| == |replies|
    requires Convened(env, f, groupPub, members, endpoints) && AllClaim(env.q, members, votes)
    requires t == TallyOf(endpoints, votes, minVotes, |votes|) && id in t.commits
    requires Standing(env, f, groupPub, members, endpoints, votes, t, s, replies)
    ensures Answers(env, s, replies, id)
  {
    var i := TallyCounts(env, f, groupPub, members, endpoints, votes, minVotes, id);
    assert Stands(env, s, votes[i], replies[i]);
  }

  lemma CouncilCooperates(env: Env, f: seq<int>, groupPub: nat, members: seq<CouncilMemberServer>,
                          endpoints: seq<PointWire>, votes: seq<VoteReply>, minVotes: int, d: Descriptor, t: Tally,
                          s: Session, replies: seq<ShareReply>)
    requires env.q > 0 && |members| == |endpoints| == |votes| == |replies|
    requires Convened(env, f, groupPub, members, endpoints) && AllClaim(env.q, members, votes)
    requires 0 < minVotes <= |members| && AskedEnough(endpoints, votes, minVotes)
    requires t == TallyOf(endpoints, votes, minVotes, |votes|) && s == SessionOf(env, groupPub, t, env.bytes(d))
    requires Standing(env, f, groupPub, members, endpoints, votes, t, s, replies)
    ensures Cooperative(env, groupPub, t, d, replies, minVotes)
  {
    TallyIsSound(env, f, groupPub, members, endpoints, votes, minVotes);
    SessionSet(env, groupPub, t, env.bytes(d), s);
    forall id | id in s.pubs ensures Answers(env, s, replies, id) {
      VoterAnswers(env, f, groupPub, members, endpoints, votes, minVotes, t, s, replies, id);
    }
  }

  /** The request of round two, with the challenge over the tally's commitments. */
  method PrepareCommit(env: Env, tl: Timeline, groupPub: nat, badIdx: nat, newRoot: nat, certificate: nat, t: Tally)
    returns (req: Option<CommitReq>)
    requires env.q > 0
    ensures req.Some? <==> RolledBack(tl.View(), badIdx).Some? && t.commits != map[] && AllDecodable(env.q, t.commits)
    ensures req.Some? ==> req.value == CommitRequest(env, groupPub, tl.View(), badIdx, newRoot, certificate, t,
                                                     req.value.certs, req.value.ids)
  {
    var fork, affected, identities := RecoverRollback(tl, badIdx, newRoot);
    if fork.Err? {
      return None;
    }
    var d := HandoffOf(tl.View(), badIdx, LastEpoch(tl.events), newRoot, certificate);
    var point := AggregateNonce(env.q, env.h, groupPub, env.bytes(d), t.commits);
    if point.Err? {
      return None;
    }
    var c := env.h.challenge(point.value, groupPub, env.bytes(d)) % env.q;
    req := Some(CommitReq(Some(d), d.epoch, d.prev, Sent(fork.value.View()), badIdx, affected, identities, t.commits,
                          Enc(point.value), Scalar(c)));
  }

  /** Enough members to sign, with shares of f. */
  ghost predicate CanSign(env: Env, f: seq<int>, groupPub: nat, members: seq<CouncilMemberServer>,
                          endpoints: seq<PointWire>, minVotes: int)
    requires env.q > 0 && |members| == |endpoints|
  {
    && Convened(env, f, groupPub, members, endpoints) && 0 < minVotes <= |members| && |f| <= minVotes
  }

  /** R || z reads as the group's signature on the handoff exactly when Ed25519 accepts it. */
  ghost predicate Readable(env: Env, groupPub: nat, v: Ledger, evidence: Option<Event>, newRoot: nat, certificate: nat)
    requires env.q > 0
  {
    BadIndexOf(evidence).Some? ==>
      Reads(env, groupPub, HandoffOf(v, BadIndexOf(evidence).value, LastEpoch(v.events), newRoot, certificate))
  }

  /** Round two over the tally, once the new root has its certificate. */
  method AskSigners(env: Env, tl: Timeline, groupPub: nat, members: seq<CouncilMemberServer>, badIdx: nat, newRoot: nat,
                    certificate: Option<nat>, t: Tally, ghost f: seq<int>, ghost endpoints: seq<PointWire>,
                    ghost votes: seq<VoteReply>) returns (replies: seq<ShareReply>)
    requires env.q > 0 && |members| == |endpoints| == |votes| && Separate(members) && AllValid(env, members)
    requires ToldFrom(members, tl.View(), badIdx, votes, 0)
    modifies members
    ensures unchanged(tl) && AllValid(env, members) && |replies| == |members|
    ensures PrefixTrusted(tl.View(), badIdx) && !Silent(replies) ==> PrefixStands(tl.View(), badIdx)
    ensures certificate.Some? && Sound(env, t) && Signable(tl.View(), badIdx) ==>
              var d := HandoffOf(tl.View(), badIdx, LastEpoch(tl.events), newRoot, certificate.value);
              Standing(env, f, groupPub, members, endpoints, votes, t, SessionOf(env, groupPub, t, env.bytes(d)),
                       replies)
  {
    replies := seq(|members|, _ => None);
    if certificate.None? {
      return;
    }
    var req := PrepareCommit(env, tl, groupPub, badIdx, newRoot, certificate.value, t);
    if req.None? {
      return;
    }
    replies := AskCommits(env, members, req.value, f, groupPub, tl.View(), badIdx, newRoot, certificate.value, t,
                          endpoints, votes);
  }

  /** Both rounds over the wire: what RemoteRecover hears from such members. */
  method AskAll(env: Env, tl: Timeline, groupPub: nat, members: seq<CouncilMemberServer>, endpoints: seq<PointWire>,
                badIdx: nat, nonces: seq<(nat, nat)>, minVotes: int, newRoot: nat, certificate: Option<nat>,
                ghost f: seq<int>)
    returns (votes: seq<VoteReply>, replies: seq<ShareReply>)
    requires env.q > 0 && |members| == |endpoints| == |nonces| && Separate(members) && AllValid(env, members)
    modifies members, Shares(members)
    ensures unchanged(tl) && AllValid(env, members) && |votes| == |replies| == |members|
    ensures PrefixTrusted(tl.View(), badIdx) && !Silent(replies) ==> PrefixStands(tl.View(), badIdx)
    ensures CanSign(env, f, groupPub, members, endpoints, minVotes) && old(FreeFrom(members, tl.View(), 0))
            && Signable(tl.View(), badIdx) && certificate.Some? ==>
              && KnownShares(env.q, f, groupPub, endpoints, votes)
              && Cooperative(env, groupPub, TallyOf(endpoints, votes, minVotes, |votes|),
                             HandoffOf(tl.View(), badIdx, LastEpoch(tl.events), newRoot, certificate.value), replies,
                             minVotes)
  {
    var v := tl.View();
    ghost var ready := CanSign(env, f, groupPub, members, endpoints, minVotes) && FreeFrom(members, v, 0)
                       && Signable(v, badIdx);
    votes := AskVotes(env, members, endpoints, v, badIdx, nonces, minVotes);
    var t := CollectVotes(endpoints, votes, minVotes);
    replies := AskSigners(env, tl, groupPub, members, badIdx, newRoot, certificate, t, f, endpoints, votes);
    if ready && certificate.Some? {
      ConvenedIsKnown(env, f, groupPub, members, endpoints, votes);
      TallyIsSound(env, f, groupPub, members, endpoints, votes, minVotes);
      ghost var d := HandoffOf(v, badIdx, LastEpoch(v.events), newRoot, certificate.value);
      CouncilCooperates(env, f, groupPub, members, endpoints, votes, minVotes, d, t,
                        SessionOf(env, groupPub, t, env.bytes(d)), replies);
    }
  }

  /** RemoteRecover over the wire, with members of this kind at the other end. For a council that can sign, none
      of whose members has voted yet, it succeeds exactly when the evidence names a positive index whose prefix
      verifies, also on its own after the roll-back. What it publishes verifies exactly under two conditions more,
      which no member checks. */
  method NetworkRecover(env: Env, tl: Timeline, evidence: Option<Event>, groupPub: nat,
                        members: seq<CouncilMemberServer>, endpoints: seq<PointWire>, nonces: seq<(nat, nat)>,
                        minVotes: int, newRoot: nat, certificate: Option<nat>, ghost f: seq<int>)
    returns (r: Result<Outcome>)
    requires env.q > 0 && |members| == |endpoints| == |nonces| && Separate(members) && AllValid(env, members)
    modifies members, Shares(members)
    ensures unchanged(tl) && AllValid(env, members)
    ensures r.Ok? ==> BadIndexOf(evidence).Some?
                      && Recovered(tl.View(), BadIndexOf(evidence).value, newRoot, LastEpoch(tl.events), Pub(groupPub),
                                   r.value)
    ensures r.Ok? ==> evidence.Some? && evidence.value.body.typ == Detected
    ensures r.Ok? && evidence.value.body.payload.EvidencePayload? ==>
              var b := evidence.value.body.payload.badIndex;
              b >= 0 && Recovered(tl.View(), b, newRoot, LastEpoch(tl.events), Pub(groupPub), r.value)
    ensures r.Ok? && minVotes > 0 ==>
              && PrefixStands(tl.View(), BadIndexOf(evidence).value)
              && (r.value.timeline.View().Good() <==> tl.council == Some(Pub(groupPub)) && tl.algo == Sha256)
    ensures CanSign(env, f, groupPub, members, endpoints, minVotes) && Sent(tl.View()).Some? && certificate.Some?
            && Readable(env, groupPub, tl.View(), evidence, newRoot, certificate.value)
            && old(FreeFrom(members, tl.View(), 0)) ==>
              (r.Ok? <==> BadIndexOf(evidence).Some? && Signable(tl.View(), BadIndexOf(evidence).value))
  {
    var bad := BadIndexOf(evidence);
    if bad.None? {
      return Err("malformed evidence");
    }
    var ok := tl.VerifyPrefix(bad.value);
    if !ok {
      return Err("prefix failed verification");
    }
    var votes, replies := AskAll(env, tl, groupPub, members, endpoints, bad.value, nonces, minVotes, newRoot,
                                 certificate, f);
    r := RemoteRecover(env, tl, evidence, groupPub, endpoints, votes, replies, minVotes, newRoot, certificate, f);
    if r.Ok? && minVotes > 0 {
      SignedVerifiesExactly(tl.View(), bad.value, newRoot, Pub(groupPub), r.value);
    }
  }
}
