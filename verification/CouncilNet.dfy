// A council member on the wire (councilnet.go): it commits nonces to one recovery it
// believes in, and releases one partial signature for the round it voted for. The
// initiator may send any messages in any order.

module CouncilNets {
  import opened Wrappers
  import opened Events
  import opened Chains
  import opened Timelines
  import opened Rollbacks
  import opened Recoveries
  import opened Councils
  import opened PrimeField
  import opened Frost
  import opened Ceremonies

  /** A vote request; the timeline is absent when it does not parse. */
  datatype VoteReq = VoteReq(timeline: Option<Ledger>, badIdx: int)

  datatype VoteResp = NoVote(reason: string) | Vote(epoch: int, checkpoint: Option<Digest>, commit: CommitWire)

  /** A commit request: the descriptor to sign, the recovered fork, and the signing transcript. */
  datatype CommitReq = CommitReq(frost: Option<Descriptor>, epoch: int, prev: int, timeline: Option<Ledger>,
                                 badIdx: int, certs: set<string>, ids: set<string>, commits: map<Id, CommitWire>,
                                 r: PointWire, c: ScalarWire)

  datatype CommitResp = NoShare(reason: string) | Share(z: nat)

  /** The one session in flight: what the member voted for. */
  datatype Pending = Pending(epoch: int, checkpoint: Option<Digest>, commit: CommitWire)

  /** A member at one moment, with every vote it gave and every descriptor it signed. */
  datatype MemberState = MemberState(loaded: bool, used: bool, epoch: int, pending: Option<Pending>,
                                     votes: seq<Pending>, released: seq<Descriptor>)

  predicate MayVote(s: MemberState, req: VoteReq) {
    && req.timeline.Some? && req.badIdx >= 0 && PrefixTrusted(req.timeline.value, req.badIdx)
    && s.loaded && LastEpoch(req.timeline.value.events) + 1 > s.epoch && !s.used
  }

  /** What a vote leaves; an index past the end is only noticed once the nonces are spent. */
  function AfterVote(s: MemberState, req: VoteReq, commit: CommitWire): MemberState {
    if !MayVote(s, req) then s
    else if req.badIdx > |req.timeline.value.events| then s.(used := true)
    else
      var p := Pending(LastEpoch(req.timeline.value.events) + 1, CheckpointOf(req.timeline.value.events, req.badIdx),
                       commit);
      s.(used := true, pending := Some(p), votes := s.votes + [p])
  }

  /** The fold of a fork's prefix, nothing for a recovery from genesis. */
  function PrefixState(v: Ledger, badIdx: int): State
    requires badIdx <= |v.events|
  {
    if badIdx <= 0 then map[] else FoldOf(v.events[..CutAt(v.events, badIdx)])
  }

  /** Round two binds round one: the epoch and the checkpoint the member voted for. */
  predicate Binds(s: MemberState, d: Descriptor) {
    s.pending.Some? && d.epoch == s.pending.value.epoch && d.checkpoint.Some?
    && d.checkpoint == s.pending.value.checkpoint
  }

  /** The fork verifies and meets both recovery post-conditions. */
  predicate ForkAcceptable(req: CommitReq) {
    && req.timeline.Some? && req.timeline.value.Good() && req.badIdx <= |req.timeline.value.events|
    && var pre, post := PrefixState(req.timeline.value, req.badIdx), FoldOf(req.timeline.value.events);
       NoResurrection(pre, post) && MinimalBlast(pre, post, req.certs, req.ids)
  }

  /** The transcript holds the member's own commitment, and its challenge is the recomputed one. */
  ghost predicate TranscriptHonest(env: Env, id: Id, groupPub: nat, commit: CommitWire, req: CommitReq)
    requires env.q > 0 && req.frost.Some?
  {
    var m := env.bytes(req.frost.value);
    && id in req.commits && req.commits[id] == commit && AllDecodable(env.q, req.commits)
    && var point := NoncePoint(env.q, env.h, groupPub, m, req.commits);
       req.r == Enc(point) && req.c == Scalar(env.h.challenge(point, groupPub, m) % env.q)
  }

  ghost predicate MaySign(env: Env, id: Id, groupPub: nat, s: MemberState, req: CommitReq)
    requires env.q > 0
  {
    && req.frost.Some? && Binds(s, req.frost.value) && req.epoch > s.epoch && req.prev == req.epoch - 1
    && ForkAcceptable(req) && TranscriptHonest(env, id, groupPub, s.pending.value.commit, req)
  }

  function AfterShare(s: MemberState, d: Descriptor, epoch: int): MemberState {
    s.(epoch := epoch, pending := None, released := s.released + [d])
  }

  class CouncilMemberServer {
    const share: FrostSigner?
    var epoch: int
    var pending: Option<Pending>
    ghost var votes: seq<Pending>
    ghost var released: seq<Descriptor>

    /** A member started over a fresh or missing share, at its persisted epoch. */
    constructor (share: FrostSigner?, epoch: int)
      ensures this.share == share && View().votes == [] && View().released == []
      ensures View().pending == None && View().epoch == epoch
      ensures forall env: Env | env.q > 0 :: Valid(env)
    {
      this.share, this.epoch, pending, votes, released := share, epoch, None, [], [];
    }

    ghost function View(): MemberState
      reads this, share
    {
      MemberState(share != null, share != null && share.used, epoch, pending, votes, released)
    }

    /** A session in flight is over the two nonces the signer holds. */
    ghost predicate Valid(env: Env)
      requires env.q > 0
      reads this, share
    {
      pending.Some? ==> && share != null && share.used && share.d.Some? && share.e.Some?
                        && pending.value.commit == CommitmentOf(env.q, (share.d.value, share.e.value))
    }

    /** Round one: a nonce commitment, only for a prefix the member itself verified. */
    method Vote(env: Env, req: VoteReq, d0: nat, e0: nat) returns (resp: VoteResp)
      requires env.q > 0 && Valid(env)
      modifies this, share
      ensures Valid(env)
      ensures View() == AfterVote(old(View()), req, CommitmentOf(env.q, (d0, e0)))
      ensures resp.Vote? <==> MayVote(old(View()), req) && req.badIdx <= |req.timeline.value.events|
      ensures resp.Vote? ==> View().pending == Some(Pending(resp.epoch, resp.checkpoint, resp.commit))
      ensures resp.Vote? <==>
                && req.timeline.Some? && 0 <= req.badIdx <= |req.timeline.value.events|
                && (forall i :: 0 <= i < req.badIdx ==>
                      var v := req.timeline.value; EventOk(v.events, v.Start(), v.council, v.algo, i))
                && share != null && !old(share.used) && old(epoch) <= LastEpoch(req.timeline.value.events)
      ensures resp.Vote? ==>
                var events := req.timeline.value.events;
                && resp.epoch == LastEpoch(events) + 1
                && resp.checkpoint == (if req.badIdx == 0 then None else Some(HashOf(events[req.badIdx - 1])))
                && resp.commit == DE(Enc((d0 * 1) % env.q), Enc((e0 * 1) % env.q))
                && share.used && share.d == Some(d0) && share.e == Some(e0)
      ensures resp.NoVote? ==> pending == old(pending) && votes == old(votes) && epoch == old(epoch)
    {
      if req.timeline.None? {
        return NoVote("prefix failed verification");
      }
      if req.badIdx < 0 {
        return NoVote("prefix failed verification");
      }
      var v := req.timeline.value;
      var tl := new Timeline.Of(v);
      var ok := tl.VerifyPrefix(req.badIdx);
      if !ok {
        return NoVote("prefix failed verification");
      }
      if share == null {
        return NoVote("no share loaded");
      }
      var last := ScanLastEpoch(v.events);
      if last + 1 <= epoch {
        return NoVote("stale epoch");
      }
      if share.used {
        return NoVote("share already committed (single-use)");
      }
      var de := share.Commit(env.q, d0, e0);
      if de.Err? {
        return NoVote("commit failed");
      }
      if req.badIdx > |v.events| {
        return NoVote("index out of range");
      }
      var p := Pending(last + 1, CheckpointOf(v.events, req.badIdx), de.value);
      pending := Some(p);
      votes := votes + [p];
      return VoteResp.Vote(p.epoch, p.checkpoint, p.commit);
    }

    /** Round two: the partial over the voted nonces, only after every check; anything else leaves
        the member as it was. */
    method Commit(env: Env, req: CommitReq) returns (resp: CommitResp)
      requires env.q > 0 && Valid(env)
      modifies this
      ensures Valid(env)
      ensures resp.Share? ==> share != null && MaySign(env, share.id, share.groupPub, old(View()), req)
      ensures View() == if resp.Share? then AfterShare(old(View()), req.frost.value, req.epoch) else old(View())
      ensures share != null && MaySign(env, share.id, share.groupPub, old(View()), req) ==>
                exists order, z :: Answer(env, share, req, order, z, resp)
      ensures resp.NoShare? ==>
                pending == old(pending) && epoch == old(epoch) && votes == old(votes) && released == old(released)
      ensures resp.Share? ==>
                && old(pending).Some? && req.frost.Some? && pending == None && epoch == req.epoch
                && req.epoch > old(epoch)
                && req.prev == req.epoch - 1 && req.frost.value.epoch == old(pending).value.epoch
                && req.frost.value.checkpoint.Some? && req.frost.value.checkpoint == old(pending).value.checkpoint
                && released == old(released) + [req.frost.value]
    {
      if pending.None? || req.frost.None? {
        return NoShare("no pending session");
      }
      if req.epoch <= epoch || req.prev != req.epoch - 1 {
        return NoShare("epoch mismatch");
      }
      var d := req.frost.value;
      if d.epoch != pending.value.epoch || d.checkpoint.None? || d.checkpoint != pending.value.checkpoint {
        return NoShare("handoff does not match voted round");
      }
      var accepted := CheckFork(req);
      if !accepted {
        return NoShare("commit verification failed");
      }
      var c := CheckTranscript(env, req);
      if c.Err? {
        return NoShare(c.reason);
      }
      resp := Release(env, req, c.value);
    }

    /** The partial signature, and with it the end of the session. */
    method Release(env: Env, req: CommitReq, c: nat) returns (resp: CommitResp)
      requires env.q > 0 && Valid(env) && pending.Some? && share.id in req.commits
      requires req.frost.Some? && req.c == Scalar(c)
      modifies this
      ensures Valid(env)
      ensures View() == if resp.Share? then AfterShare(old(View()), req.frost.value, req.epoch) else old(View())
      ensures exists order, z :: Answer(env, share, req, order, z, resp)
    {
      var d := req.frost.value;
      var t := TranscriptOf(env, d, req.commits, c);
      assert share.id in t.commits && share.id in t.xs;
      var z := share.SignShare(env.q, env.h, t);
      ghost var order :| PartialOf(env.q, env.h, share, (share.d.value, share.e.value), t, order, z);
      if z.Err? {
        resp := NoShare("signing failed");
      } else {
        epoch := req.epoch;
        pending := None;
        released := released + [d];
        resp := Share(z.value);
      }
      assert Answer(env, share, req, order, z, resp);
    }

    method CheckFork(req: CommitReq) returns (ok: bool)
      ensures ok <==> ForkAcceptable(req)
    {
      if req.timeline.None? {
        return false;
      }
      var v := req.timeline.value;
      var fork := new Timeline.Of(v);
      ok := fork.Verify();
      if !ok || req.badIdx > |v.events| {
        return false;
      }
      var pre := map[];
      if req.badIdx > 0 {
        pre := Fold(v.events[..CutAt(v.events, req.badIdx)]);
      }
      var post := Fold(v.events);
      var report := VerifyRecovery(pre, post, req.certs, req.ids);
      ok := report.Pass();
    }

    /** The member's own commitment is in the transcript, and R and c are what it recomputes. */
    method CheckTranscript(env: Env, req: CommitReq) returns (c: Result<nat>)
      requires env.q > 0 && share != null && pending.Some? && req.frost.Some?
      ensures c.Ok? <==> TranscriptHonest(env, share.id, share.groupPub, pending.value.commit, req)
      ensures c.Ok? ==> req.c == Scalar(c.value)
    {
      if share.id !in req.commits || req.commits[share.id] != pending.value.commit {
        return Err("our commitment missing from transcript");
      }
      var m := env.bytes(req.frost.value);
      var point := AggregateNonce(env.q, env.h, share.groupPub, m, req.commits);
      if point.Err? {
        return Err("challenge recompute failed");
      }
      var own := env.h.challenge(point.value, share.groupPub, m) % env.q;
      if req.r != Enc(point.value) || req.c != Scalar(own) {
        return Err("transcript challenge mismatch");
      }
      return Ok(own);
    }
  }

  /** The answer to a request that passed every check: the partial over the signer's two nonces,
      for some order of the participants. */
  ghost predicate Answer(env: Env, share: FrostSigner, req: CommitReq, order: seq<Id>, z: Result<nat>, resp: CommitResp)
    requires env.q > 0
    reads share
  {
    && req.frost.Some? && req.c.Scalar? && share.d.Some? && share.e.Some?
    && PartialOf(env.q, env.h, share, (share.d.value, share.e.value),
                 TranscriptOf(env, req.frost.value, req.commits, req.c.v), order, z)
    && (if z.Ok? then resp == Share(z.value) else resp.NoShare?)
  }

  /** A vote can lead to a partial, for some commit request that the member would sign, exactly when it is
      not for a recovery from genesis, whose missing checkpoint every commit request fails on; the nonces
      are spent either way. */
  lemma VoteReleasable(env: Env, id: Id, groupPub: nat, s: MemberState, vote: VoteReq, nonce: (nat, nat))
    requires env.q > 0 && MayVote(s, vote) && vote.badIdx <= |vote.timeline.value.events|
    ensures var t := AfterVote(s, vote, CommitmentOf(env.q, nonce));
            t.used && ((exists req :: MaySign(env, id, groupPub, t, req)) <==> vote.badIdx > 0)
  {
    var t := AfterVote(s, vote, CommitmentOf(env.q, nonce));
    if vote.badIdx > 0 {
      var p := t.pending.value;
      var d := Descriptor(p.epoch, p.checkpoint, 0, Pub(0), 0);
      assert MaySign(env, id, groupPub, t, LoneRequest(env, id, groupPub, p.commit, d, s.epoch + 1));
    }
  }

  /** A request over the member's own commitment alone, with an empty fork. */
  ghost function LoneRequest(env: Env, id: Id, groupPub: nat, commit: CommitWire, d: Descriptor, epoch: int): CommitReq
    requires env.q > 0
  {
    var commits := map[id := commit];
    var point := NoncePoint(env.q, env.h, groupPub, env.bytes(d), commits);
    CommitReq(Some(d), epoch, epoch - 1, Some(NewLedger(0, Sha256)), 0, {}, {}, commits, Enc(point),
              Scalar(env.h.challenge(point, groupPub, env.bytes(d)) % env.q))
  }

  /** In a verifying fork the hash of a good event names that event alone. */
  lemma VerifiedCut(v: Ledger, badIdx: nat)
    requires v.Good() && 0 < badIdx <= |v.events|
    ensures CutAt(v.events, badIdx) == badIdx
  {
    var cut := CutAt(v.events, badIdx);
    LastAtExactly(v.events, badIdx - 1);
    if cut > badIdx {
      NoRepeat(v.events, v.Start(), v.council, v.algo, badIdx - 1, cut - 1);
    }
  }

  /** What stands behind a partial: a fork in which every event verifies, that resurrects nothing and touches
      nothing but what is said to be affected, compared with its own first events up to the bad index. */
  lemma SignedFork(req: CommitReq)
    requires ForkAcceptable(req)
    ensures req.timeline.Some? && req.badIdx <= |req.timeline.value.events|
    ensures var v := req.timeline.value;
            forall i :: 0 <= i < |v.events| ==> EventOk(v.events, v.Start(), v.council, v.algo, i)
    ensures var v := req.timeline.value;
            var pre, post := FoldOf(if req.badIdx <= 0 then [] else v.events[..req.badIdx]), FoldOf(v.events);
            && (forall id <- pre.Keys :: pre[id].revoked ==> id in post && post[id] == pre[id])
            && (forall id <- pre.Keys :: id !in req.certs ==> id in post && post[id] == pre[id])
            && (forall id <- post.Keys :: id !in pre ==> post[id].identity in req.ids)
  {
    if req.badIdx > 0 {
      VerifiedCut(req.timeline.value, req.badIdx);
    }
  }

  /** And a transcript that holds the member's own commitment, whose R is the sum of all commitments bound by the hash,
      and whose challenge is the hash of that R. */
  lemma SignedTranscript(env: Env, id: Id, groupPub: nat, commit: CommitWire, req: CommitReq, f: Id -> int)
    requires env.q > 0 && req.frost.Some? && TranscriptHonest(env, id, groupPub, commit, req)
    requires forall k :: k in req.commits ==>
               f(k) == req.commits[k].d.p + env.h.binding(groupPub, env.bytes(req.frost.value), req.commits, k)
                                            * req.commits[k].e.p
    ensures id in req.commits && req.commits[id] == commit
    ensures req.r.Enc? && req.r.p < env.q && Cong(env.q, req.r.p, Sum(req.commits.Keys, f))
    ensures req.c == Scalar(env.h.challenge(req.r.p, groupPub, env.bytes(req.frost.value)) % env.q)
  {
    var m := env.bytes(req.frost.value);
    NoncesOverHash(env.q, env.h, groupPub, m, req.commits, f);
    CongMod(env.q, Sum(req.commits.Keys, Nonces(env.q, env.h, groupPub, m, req.commits)));
    CongTrans(env.q, req.r.p, Sum(req.commits.Keys, Nonces(env.q, env.h, groupPub, m, req.commits)),
              Sum(req.commits.Keys, f));
  }

  /** The fork a member checks is one it was sent. Its check is against the prefix the member voted
      for, the first n events of the timeline v, exactly when the request's bad index names the
      event with the descriptor's checkpoint in that fork. */
  lemma CheckedAtVote(req: CommitReq, d: Descriptor, v: Ledger, n: nat)
    requires ForkAcceptable(req) && 0 < n <= |v.events| && Verifies(v.events, v.Start(), v.council, v.algo, n)
    requires d.checkpoint == CheckpointOf(v.events, n)
    ensures req.badIdx > 0 && req.timeline.value.events[..req.badIdx] == v.events[..n]
       <==> req.badIdx > 0 && CheckpointOf(req.timeline.value.events, req.badIdx) == d.checkpoint
    ensures req.badIdx > 0 && CheckpointOf(req.timeline.value.events, req.badIdx) == d.checkpoint ==>
              PrefixState(req.timeline.value, req.badIdx) == FoldOf(v.events[..n])
  {
    var w := req.timeline.value;
    if req.badIdx > 0 {
      var a, b := w.events[..req.badIdx], v.events[..n];
      if a == b {
        assert a[req.badIdx - 1] == b[n - 1];
      }
      if CheckpointOf(w.events, req.badIdx) == d.checkpoint {
        assert a[..req.badIdx] == w.events[..req.badIdx] && b[..n] == v.events[..n];
        VerifiesPrefix(w.events, a, w.Start(), w.council, w.algo, req.badIdx);
        VerifiesPrefix(v.events, b, v.Start(), v.council, v.algo, n);
        LastEventDetermines(a, b, w.Start(), v.Start(), w.council, v.council, w.algo, v.algo);
        VerifiedCut(w, req.badIdx);
      }
    }
  }

  /** The check never refuses a verifying fork whose bad index is its own length: then the prefix is
      the whole fork, whatever is said to be affected. */
  lemma WholeForkAccepted(req: CommitReq)
    requires req.timeline.Some? && req.badIdx == |req.timeline.value.events|
    ensures ForkAcceptable(req) <==> req.timeline.value.Good()
  {
    var w := req.timeline.value;
    if w.Good() && w.events != [] {
      VerifiedCut(w, req.badIdx);
      assert w.events[..|w.events|] == w.events;
    }
  }

  // ------------------------------------------------------- the epoch it stores

  /** The member with a fresh share after it released a partial: it stores the epoch of the request. */
  function Reloaded(s: MemberState, req: CommitReq): MemberState
    requires req.frost.Some?
  {
    AfterShare(s, req.frost.value, req.epoch).(used := false)
  }

  /** Nothing ties that epoch to the descriptor's. With a fresh share the member votes for the next recovery,
      of a chain that committed the descriptor's epoch, exactly when the request's epoch was not above it. */
  lemma NextVote(env: Env, id: Id, groupPub: nat, s: MemberState, req: CommitReq, vote: VoteReq)
    requires env.q > 0 && MaySign(env, id, groupPub, s, req) && s.loaded
    requires vote.timeline.Some? && vote.badIdx >= 0 && PrefixTrusted(vote.timeline.value, vote.badIdx)
    requires LastEpoch(vote.timeline.value.events) == req.frost.value.epoch
    ensures MayVote(Reloaded(s, req), vote) <==> req.epoch <= req.frost.value.epoch
  {
  }

  /** So a member that would sign at all can be sent a request for the same descriptor after whose partial it
      refuses any given later vote, even with a fresh share. */
  lemma EpochOutruns(env: Env, id: Id, groupPub: nat, s: MemberState, req: CommitReq, vote: VoteReq)
    requires env.q > 0 && MaySign(env, id, groupPub, s, req) && vote.timeline.Some?
    ensures exists high :: MaySign(env, id, groupPub, s, high) && high.frost == req.frost
                           && !MayVote(Reloaded(s, high), vote)
  {
    var last := LastEpoch(vote.timeline.value.events) + 1;
    var epoch := if last > req.epoch then last else req.epoch;
    var high := req.(epoch := epoch, prev := epoch - 1);
    assert ForkAcceptable(high) && TranscriptHonest(env, id, groupPub, s.pending.value.commit, high);
    assert MaySign(env, id, groupPub, s, high) && !MayVote(Reloaded(s, high), vote);
  }
}
