// The networked recovery of councilnet.go, seen from the initiator. It knows every
// endpoint's key share; what the members answer over the wire is an input, so it may be
// anything.

module RemoteRecovery {
  import opened Wrappers
  import opened Orders
  import opened Events
  import opened Chains
  import opened Timelines
  import opened Rollbacks
  import opened Recoveries
  import opened Councils
  import opened PrimeField
  import opened Interpolation
  import opened Frost
  import opened FrostRound
  import opened KeyShares
  import opened Ceremonies

  /** One endpoint's answer to a vote: its claimed id and its commitment; None when it is down or refuses. */
  type VoteReply = Option<(Id, CommitWire)>

  /** One endpoint's answer to the commit request. */
  type ShareReply = Option<(Id, ScalarWire)>

  datatype Tally = Tally(commits: map<Id, CommitWire>, pubs: map<Id, PointWire>, xs: map<Id, int>)

  predicate Voted(reply: VoteReply) {
    reply.Some? && reply.value.1.DE?
  }

  /** The votes of the first n endpoints, with each voter's known key share; once there are enough
      nobody further is asked. */
  function TallyOf(endpoints: seq<PointWire>, votes: seq<VoteReply>, minVotes: int, n: nat): Tally
    requires n <= |endpoints| == |votes|
  {
    if n == 0 then Tally(map[], map[], map[])
    else
      var v := TallyOf(endpoints, votes, minVotes, n - 1);
      if |v.commits| >= minVotes || !Voted(votes[n - 1]) then v
      else
        var (id, commit) := votes[n - 1].value;
        Tally(v.commits[id := commit], v.pubs[id := endpoints[n - 1]], v.xs[id := MemberX(id)])
  }

  /** A vote in the tally is the answer of one endpoint, next to that endpoint's key share. */
  ghost predicate FromEndpoint(endpoints: seq<PointWire>, votes: seq<VoteReply>, v: Tally, id: Id)
    requires |endpoints| == |votes|
  {
    exists i :: 0 <= i < |votes| && AnsweredBy(endpoints, votes, v, id, i)
  }

  ghost predicate AnsweredBy(endpoints: seq<PointWire>, votes: seq<VoteReply>, v: Tally, id: Id, i: nat)
    requires i < |endpoints| == |votes|
  {
    && Voted(votes[i]) && id in v.commits && id in v.pubs
    && votes[i].value == (id, v.commits[id]) && v.pubs[id] == endpoints[i]
  }

  /** The three maps agree, indices are canonical and commitments have the right length. */
  predicate InStep(v: Tally) {
    && v.commits.Keys == v.pubs.Keys && v.xs == IndicesOf(v.commits)
    && forall id :: id in v.commits ==> v.commits[id].DE?
  }

  lemma AddVoteKeeps(v: Tally, id: Id, commit: CommitWire, pub: PointWire)
    requires InStep(v) && commit.DE?
    ensures var w := Tally(v.commits[id := commit], v.pubs[id := pub], v.xs[id := MemberX(id)]);
            InStep(w)
  {
  }

  lemma OneMoreKey(m: map<Id, CommitWire>, id: Id, commit: CommitWire)
    ensures |m[id := commit]| <= |m| + 1
  {
    assert m[id := commit].Keys == m.Keys + {id};
    assert |m.Keys| == |m| && |m[id := commit].Keys| == |m[id := commit]|;
  }

  lemma {:induction false} TallyMeans(endpoints: seq<PointWire>, votes: seq<VoteReply>, minVotes: int, n: nat)
    requires n <= |endpoints| == |votes|
    ensures InStep(TallyOf(endpoints, votes, minVotes, n))
    ensures |TallyOf(endpoints, votes, minVotes, n).commits| <= if minVotes > 0 then minVotes else 0
  {
    if n > 0 {
      TallyMeans(endpoints, votes, minVotes, n - 1);
      var v := TallyOf(endpoints, votes, minVotes, n - 1);
      if |v.commits| < minVotes && Voted(votes[n - 1]) {
        AddVoteKeeps(v, votes[n - 1].value.0, votes[n - 1].value.1, endpoints[n - 1]);
        OneMoreKey(v.commits, votes[n - 1].value.0, votes[n - 1].value.1);
      }
    }
  }

  /** Every vote in the tally is some endpoint's answer, next to that endpoint's known key share. */
  lemma {:induction false} TallyFromEndpoints(endpoints: seq<PointWire>, votes: seq<VoteReply>, minVotes: int, n: nat,
                                              id: Id)
    requires n <= |endpoints| == |votes| && id in TallyOf(endpoints, votes, minVotes, n).commits
    ensures FromEndpoint(endpoints, votes, TallyOf(endpoints, votes, minVotes, n), id)
  {
    if n > 0 {
      var v, w := TallyOf(endpoints, votes, minVotes, n - 1), TallyOf(endpoints, votes, minVotes, n);
      if v != w && votes[n - 1].value.0 == id {
        assert AnsweredBy(endpoints, votes, w, id, n - 1);
      } else {
        TallyFromEndpoints(endpoints, votes, minVotes, n - 1, id);
        var i :| 0 <= i < |votes| && AnsweredBy(endpoints, votes, v, id, i);
        assert AnsweredBy(endpoints, votes, w, id, i);
      }
    }
  }

  /** While there are too few, every voter asked is in the tally. */
  lemma {:induction false} TallyIsComplete(endpoints: seq<PointWire>, votes: seq<VoteReply>, minVotes: int, n: nat,
                                           i: nat)
    requires i < n <= |endpoints| == |votes| && |TallyOf(endpoints, votes, minVotes, n).commits| < minVotes
    requires Voted(votes[i])
    ensures votes[i].value.0 in TallyOf(endpoints, votes, minVotes, n).commits
  {
    TallyGrows(endpoints, votes, minVotes, n);
    if i < n - 1 {
      TallyIsComplete(endpoints, votes, minVotes, n - 1, i);
    }
  }

  lemma TallyGrows(endpoints: seq<PointWire>, votes: seq<VoteReply>, minVotes: int, n: nat)
    requires 0 < n <= |endpoints| == |votes|
    ensures var v, w := TallyOf(endpoints, votes, minVotes, n - 1), TallyOf(endpoints, votes, minVotes, n);
            v.commits.Keys <= w.commits.Keys && |v.commits| <= |w.commits|
  {
    var v, w := TallyOf(endpoints, votes, minVotes, n - 1), TallyOf(endpoints, votes, minVotes, n);
    if v != w {
      assert w.commits.Keys == v.commits.Keys + {votes[n - 1].value.0};
      assert |v.commits.Keys| == |v.commits| && |w.commits.Keys| == |w.commits|;
    }
  }

  lemma {:induction false} TallyStops(endpoints: seq<PointWire>, votes: seq<VoteReply>, minVotes: int, m: nat, n: nat)
    requires m <= n <= |endpoints| == |votes| && |TallyOf(endpoints, votes, minVotes, m).commits| >= minVotes
    ensures TallyOf(endpoints, votes, minVotes, n) == TallyOf(endpoints, votes, minVotes, m)
    decreases n
  {
    if m < n {
      TallyStops(endpoints, votes, minVotes, m, n - 1);
    }
  }

  method CollectVotes(endpoints: seq<PointWire>, votes: seq<VoteReply>, minVotes: int) returns (v: Tally)
    requires |endpoints| == |votes|
    ensures v == TallyOf(endpoints, votes, minVotes, |votes|)
  {
    v := Tally(map[], map[], map[]);
    for i := 0 to |votes|
      invariant v == TallyOf(endpoints, votes, minVotes, i)
    {
      if |v.commits| >= minVotes {
        TallyStops(endpoints, votes, minVotes, i, |votes|);
        break;
      }
      if !Voted(votes[i]) {
        continue;
      }
      var (id, commit) := votes[i].value;
      v := Tally(v.commits[id := commit], v.pubs[id := endpoints[i]], v.xs[id := MemberX(id)]);
    }
  }

  // ----------------------------------------------------------------- sessions

  /** Everything the aggregator needs to open a session over a tally. */
  ghost predicate Openable(env: Env, v: Tally) {
    && v.commits != map[] && AllDecodable(env.q, v.commits)
    && forall id :: id in v.pubs ==> Decode(env.q, v.pubs[id]).Some?
  }

  function KnownKeys(q: nat, pubs: map<Id, PointWire>): map<Id, nat> {
    map id | id in pubs && Decode(q, pubs[id]).Some? :: pubs[id].p
  }

  /** The session over a tally, before any partial: all its commitments, the known key shares of its
      voters, and the challenge for m. */
  ghost function SessionOf(env: Env, groupPub: nat, v: Tally, m: Msg): Session
    requires env.q > 0
  {
    var point := NoncePoint(env.q, env.h, groupPub, m, v.commits);
    Session(groupPub, KnownKeys(env.q, v.pubs), v.commits, map[], Some(point),
            env.h.challenge(point, groupPub, m) % env.q, m, v.xs)
  }

  /** Round one in the aggregator: it opens exactly that session, or fails where a point does not decode. */
  method Open(env: Env, groupPub: nat, v: Tally, m: Msg) returns (agg: FrostAggregator, ok: bool)
    requires env.q > 0 && v.commits.Keys == v.pubs.Keys && v.xs == IndicesOf(v.commits)
    requires forall id :: id in v.commits ==> v.commits[id].DE?
    ensures fresh(agg)
    ensures ok <==> Openable(env, v)
    ensures ok ==> agg.View() == SessionOf(env, groupPub, v, m) && agg.pubs.Keys == agg.commits.Keys
  {
    agg := new FrostAggregator(env.q, groupPub, v.pubs);
    agg.SetXs(v.xs);
    var loaded := LoadCommits(agg, v.commits);
    if Openable(env, v) {
      assert agg.pubs.Keys == v.pubs.Keys;
    }
    if loaded.Err? {
      ok := false;
      return;
    }
    assert |agg.pubs.Keys| == |agg.pubs| && |agg.commits.Keys| == |agg.commits|;
    var c := agg.Challenge(env.q, env.h, m);
    ok := c.Ok?;
    if ok {
      FullSubset(agg.commits.Keys, agg.pubs.Keys);
      forall id | id in v.pubs ensures Decode(env.q, v.pubs[id]).Some? {
        assert id in agg.pubs;
      }
    }
  }

  /** Every partial the session holds passed the aggregator's check. */
  ghost predicate AllVerified(env: Env, s: Session)
    requires env.q > 0
  {
    forall id :: id in s.shares ==> Verified(env.q, env.h, s, id, s.shares[id])
  }

  /** An answer the aggregator cannot refuse in session s, in whatever order it lists the signers. */
  ghost predicate Irrefusable(env: Env, s: Session, reply: ShareReply)
    requires env.q > 0
  {
    && reply.Some? && reply.value.1.Scalar? && Checkable(env.q, s, reply.value.0)
    && forall ids :: !Refuses(env.q, env.h, s, reply.value.0, reply.value.1.v % env.q, ids)
  }

  /** One answer: the share is taken, or the session stays as it is. */
  method TakeShare(env: Env, agg: FrostAggregator, reply: ShareReply, ghost s: Session)
    requires env.q > 0 && agg.View() == s.(shares := agg.shares) && AllVerified(env, agg.View())
    modifies agg
    ensures agg.View() == s.(shares := agg.shares) && AllVerified(env, agg.View())
    ensures old(agg.shares.Keys) <= agg.shares.Keys && (reply.None? ==> agg.shares == old(agg.shares))
    ensures Irrefusable(env, s, reply) ==> reply.value.0 in agg.shares
  {
    if reply.None? {
      return;
    }
    ghost var before := agg.View();
    var (id, z) := reply.value;
    var res := agg.AddShare(env.q, env.h, id, z);
    if res.Ok? {
      SharesKept(env.q, env.h, before, agg.View(), id);
    } else if z.Scalar? && Checkable(env.q, before, id) {
      ghost var ids :| Refuses(env.q, env.h, before, id, z.v % env.q, ids);
      assert Refuses(env.q, env.h, s, id, z.v % env.q, ids);
    }
  }

  /** Of the first n answers, each that could not be refused is in. */
  ghost predicate Taken(env: Env, s: Session, replies: seq<ShareReply>, n: nat, shares: map<Id, nat>)
    requires env.q > 0 && n <= |replies|
  {
    forall j :: 0 <= j < n && Irrefusable(env, s, replies[j]) ==> replies[j].value.0 in shares
  }

  lemma TakenGrows(env: Env, s: Session, replies: seq<ShareReply>, n: nat, before: map<Id, nat>, after: map<Id, nat>)
    requires env.q > 0 && n < |replies| && Taken(env, s, replies, n, before) && before.Keys <= after.Keys
    requires Irrefusable(env, s, replies[n]) ==> replies[n].value.0 in after
    ensures Taken(env, s, replies, n + 1, after)
  {
  }

  predicate Silent(replies: seq<ShareReply>) {
    forall i :: 0 <= i < |replies| ==> replies[i].None?
  }

  /** Partials are taken until there are enough; a bad one drops its member. */
  method CollectShares(env: Env, agg: FrostAggregator, replies: seq<ShareReply>, minVotes: int)
    requires env.q > 0 && agg.shares == map[]
    modifies agg
    ensures agg.View() == old(agg.View()).(shares := agg.shares) && AllVerified(env, agg.View())
    ensures |agg.shares| >= minVotes || Taken(env, old(agg.View()), replies, |replies|, agg.shares)
    ensures Silent(replies) ==> agg.shares == map[]
  {
    ghost var s := agg.View();
    var i := 0;
    while i < |replies| && |agg.shares| < minVotes
      invariant 0 <= i <= |replies| && agg.View() == s.(shares := agg.shares) && AllVerified(env, agg.View())
      invariant Taken(env, s, replies, i, agg.shares)
      invariant Silent(replies) ==> agg.shares == map[]
    {
      ghost var before := agg.shares;
      TakeShare(env, agg, replies[i], s);
      TakenGrows(env, s, replies, i, before, agg.shares);
      i := i + 1;
    }
  }

  /** Every signer of the session answers with a partial that cannot be refused. */
  ghost predicate AllAnswer(env: Env, s: Session, replies: seq<ShareReply>)
    requires env.q > 0
  {
    forall id :: id in s.pubs ==> Answers(env, s, replies, id)
  }

  ghost predicate Answers(env: Env, s: Session, replies: seq<ShareReply>, id: Id)
    requires env.q > 0
  {
    exists j :: 0 <= j < |replies| && Irrefusable(env, s, replies[j]) && replies[j].value.0 == id
  }

  /** A session with a verified partial of every signer, and their sum. */
  ghost predicate Finished(env: Env, s: Session, shares: map<Id, nat>, z: nat)
    requires env.q > 0
  {
    && shares.Keys == s.pubs.Keys && AllVerified(env, s.(shares := shares))
    && z == Sum(shares.Keys, ShareAt(shares)) % env.q
  }

  /** Round two: the aggregate of the session's own signers, at least minVotes of them; with exactly
      that many it cannot fail when all answer. */
  method Close(env: Env, agg: FrostAggregator, replies: seq<ShareReply>, minVotes: int)
      returns (r: Result<((nat, nat), map<Id, nat>)>)
    requires env.q > 0 && agg.shares == map[] && agg.r.Some?
    modifies agg
    ensures r.Ok? ==> Some(r.value.0.0) == old(agg.r) && Finished(env, old(agg.View()), r.value.1, r.value.0.1)
    ensures r.Ok? ==> |r.value.1| >= minVotes && (Silent(replies) ==> minVotes <= 0)
    ensures AllAnswer(env, old(agg.View()), replies) && |agg.pubs| == minVotes ==> r.Ok?
  {
    ghost var s := agg.View();
    CollectShares(env, agg, replies, minVotes);
    SharesAmongSigners(env, agg.View());
    if AllAnswer(env, s, replies) && |agg.shares| < minVotes {
      EveryoneAnswered(env, s, replies, agg.shares);
    }
    if |agg.shares| < minVotes {
      return Err("fewer than minVotes valid partial signatures");
    }
    var sig := agg.Aggregate(env.q);
    if sig.Err? {
      return Err(sig.reason);
    }
    FullSubset(agg.shares.Keys, agg.pubs.Keys);
    return Ok((sig.value, agg.shares));
  }

  lemma SharesAmongSigners(env: Env, s: Session)
    requires env.q > 0 && AllVerified(env, s)
    ensures s.shares.Keys <= s.pubs.Keys && |s.shares| <= |s.pubs|
    ensures |s.shares.Keys| == |s.shares| && |s.pubs.Keys| == |s.pubs|
  {
    forall id | id in s.shares ensures id in s.pubs {
      assert Verified(env.q, env.h, s, id, s.shares[id]);
    }
    SubsetSize(s.shares.Keys, s.pubs.Keys);
  }

  lemma EveryoneAnswered(env: Env, s: Session, replies: seq<ShareReply>, shares: map<Id, nat>)
    requires env.q > 0 && AllAnswer(env, s, replies)
    requires Taken(env, s, replies, |replies|, shares)
    ensures s.pubs.Keys <= shares.Keys && |s.pubs| <= |shares|
  {
    forall id | id in s.pubs ensures id in shares {
      assert Answers(env, s, replies, id);
    }
    SubsetSize(s.pubs.Keys, shares.Keys);
    assert |s.pubs.Keys| == |s.pubs| && |shares.Keys| == |shares|;
  }

  // ------------------------------------------------------------ what it signs

  /** The aggregate of a finished session is an Ed25519 signature on its message under its key, when
      the signers' key shares are enough points of one polynomial through that key. */
  lemma SessionSignatureVerifies(env: Env, f: seq<int>, s: Session, shares: map<Id, nat>, z: nat)
    requires env.q > 0 && Finished(env, s, shares, z) && SharesOf(env.q, f, s) && s.pubs.Keys == s.commits.Keys
    requires ChallengeSet(env.q, env.h, s)
    ensures SignatureVerifies(env.q, env.h, s.groupPub, s.m, s.r.value, z)
  {
    SharesSign(env.q, env.h, f, s, s.(shares := shares), z);
    SignsVerifies(env.q, env.h, s, z);
  }

  lemma SessionSet(env: Env, groupPub: nat, v: Tally, m: Msg, s: Session)
    requires env.q > 0 && InStep(v) && Openable(env, v) && s == SessionOf(env, groupPub, v, m)
    ensures ChallengeSet(env.q, env.h, s) && s.pubs.Keys == s.commits.Keys && |s.pubs| == |v.commits|
    ensures s.groupPub == groupPub && s.m == m
  {
    assert s.pubs.Keys == v.commits.Keys && |s.pubs.Keys| == |s.pubs| && |v.commits.Keys| == |v.commits|;
  }

  lemma TallyVerifies(env: Env, f: seq<int>, groupPub: nat, v: Tally, m: Msg, s: Session, shares: map<Id, nat>,
                      r: nat, z: nat)
    requires env.q > 0 && InStep(v) && Openable(env, v) && s == SessionOf(env, groupPub, v, m)
    requires s.r == Some(r) && Finished(env, s, shares, z) && SharesOf(env.q, f, s)
    ensures SignatureVerifies(env.q, env.h, groupPub, m, r, z)
  {
    SessionSet(env, groupPub, v, m, s);
    SessionSignatureVerifies(env, f, s, shares, z);
  }

  /** An endpoint's key share, when it decodes, is the point of f at the index of the id it answered under. */
  ghost predicate KeyShareOn(q: nat, f: seq<int>, pub: PointWire, id: Id) {
    Decode(q, pub).Some? ==> Cong(q, pub.p, Eval(f, MemberX(id)))
  }

  /** The key shares the initiator knows are points of f, whose value at zero is the group key, and no
      two ids answered under meet modulo q. */
  ghost predicate KnownShares(q: nat, f: seq<int>, groupPub: nat, endpoints: seq<PointWire>, votes: seq<VoteReply>)
    requires |endpoints| == |votes|
  {
    && Cong(q, groupPub, Eval(f, 0))
    && (forall i :: 0 <= i < |votes| && Voted(votes[i]) ==> KeyShareOn(q, f, endpoints[i], votes[i].value.0))
    && (forall i, j :: 0 <= i < |votes| && 0 <= j < |votes| && Voted(votes[i]) && Voted(votes[j]) ==>
                         IndicesApart(q, votes[i].value.0, votes[j].value.0))
  }

  ghost predicate IndicesApart(q: nat, a: Id, b: Id) {
    a != b ==> !Cong(q, MemberX(b) - MemberX(a), 0)
  }

  lemma KnownShareAt(env: Env, f: seq<int>, groupPub: nat, endpoints: seq<PointWire>, votes: seq<VoteReply>,
                     minVotes: int, m: Msg, id: Id)
    requires env.q > 0 && |endpoints| == |votes| && KnownShares(env.q, f, groupPub, endpoints, votes)
    requires id in SessionOf(env, groupPub, TallyOf(endpoints, votes, minVotes, |votes|), m).pubs
    ensures OnPolynomial(env.q, f, SessionOf(env, groupPub, TallyOf(endpoints, votes, minVotes, |votes|), m), id)
  {
    var v := TallyOf(endpoints, votes, minVotes, |votes|);
    TallyMeans(endpoints, votes, minVotes, |votes|);
    TallyFromEndpoints(endpoints, votes, minVotes, |votes|, id);
    var i :| 0 <= i < |votes| && AnsweredBy(endpoints, votes, v, id, i);
    assert KeyShareOn(env.q, f, endpoints[i], votes[i].value.0);
  }

  lemma VotersApart(env: Env, f: seq<int>, groupPub: nat, endpoints: seq<PointWire>, votes: seq<VoteReply>,
                    minVotes: int, a: Id, b: Id)
    requires |endpoints| == |votes| && KnownShares(env.q, f, groupPub, endpoints, votes)
    requires var v := TallyOf(endpoints, votes, minVotes, |votes|); a in v.commits && b in v.commits
    ensures IndicesApart(env.q, a, b)
  {
    var v := TallyOf(endpoints, votes, minVotes, |votes|);
    TallyFromEndpoints(endpoints, votes, minVotes, |votes|, a);
    TallyFromEndpoints(endpoints, votes, minVotes, |votes|, b);
    var i :| 0 <= i < |votes| && AnsweredBy(endpoints, votes, v, a, i);
    var j :| 0 <= j < |votes| && AnsweredBy(endpoints, votes, v, b, j);
  }

  lemma KnownSharesOf(env: Env, f: seq<int>, groupPub: nat, endpoints: seq<PointWire>, votes: seq<VoteReply>,
                      minVotes: int, m: Msg)
    requires env.q > 0 && |endpoints| == |votes| && KnownShares(env.q, f, groupPub, endpoints, votes)
    requires var v := TallyOf(endpoints, votes, minVotes, |votes|); Openable(env, v) && |f| <= |v.commits|
    ensures SharesOf(env.q, f, SessionOf(env, groupPub, TallyOf(endpoints, votes, minVotes, |votes|), m))
  {
    var v := TallyOf(endpoints, votes, minVotes, |votes|);
    var s := SessionOf(env, groupPub, v, m);
    TallyMeans(endpoints, votes, minVotes, |votes|);
    SessionSet(env, groupPub, v, m, s);
    forall id | id in s.pubs ensures OnPolynomial(env.q, f, s, id) {
      KnownShareAt(env, f, groupPub, endpoints, votes, minVotes, m, id);
    }
    AllApart(env, f, groupPub, endpoints, votes, minVotes);
    CanonicalApart(env.q, v);
  }

  lemma AllApart(env: Env, f: seq<int>, groupPub: nat, endpoints: seq<PointWire>, votes: seq<VoteReply>, minVotes: int)
    requires |endpoints| == |votes| && KnownShares(env.q, f, groupPub, endpoints, votes)
    ensures PairsApart(env.q, TallyOf(endpoints, votes, minVotes, |votes|).commits.Keys)
  {
    var ids := TallyOf(endpoints, votes, minVotes, |votes|).commits.Keys;
    forall a, b | a in ids && b in ids ensures IndicesApart(env.q, a, b) {
      VotersApart(env, f, groupPub, endpoints, votes, minVotes, a, b);
    }
  }

  ghost predicate PairsApart(q: nat, ids: set<Id>) {
    forall a, b :: a in ids && b in ids ==> IndicesApart(q, a, b)
  }

  lemma CanonicalApart(q: nat, v: Tally)
    requires InStep(v) && PairsApart(q, v.commits.Keys)
    ensures DistinctPoints(q, v.commits.Keys, v.xs)
  {
    forall a, b | a in v.commits.Keys && b in v.commits.Keys && a != b
      ensures !Cong(q, XOf(v.xs, b) - XOf(v.xs, a), 0)
    {
      assert IndicesApart(q, a, b);
    }
  }

  /** The handoff's signature is the aggregate of the tally's own session over its descriptor: the
      tally's commitments and known key shares, and some verified partial of each of its members. */
  ghost predicate SealedIn(env: Env, groupPub: nat, v: Tally, fc: FrostCommit, shares: map<Id, nat>, z: nat)
    requires env.q > 0
  {
    var s := SessionOf(env, groupPub, v, env.bytes(fc.d));
    Finished(env, s, shares, z) && Enumerates(fc.members, v.commits.Keys) && fc.sig == env.seal(s.r.value, z)
  }

  ghost predicate SealedBySession(env: Env, groupPub: nat, v: Tally, fc: FrostCommit)
    requires env.q > 0
  {
    Openable(env, v) && exists shares, z :: SealedIn(env, groupPub, v, fc, shares, z)
  }

  /** So what comes back satisfies Ed25519's equation on the descriptor, as soon as every voter answers under
      the id its known key share belongs to, no two of those ids meet modulo q, and the known shares are enough
      points of one polynomial through the group key. Commitments and partials may be anything. */
  lemma RemoteSignatureVerifies(env: Env, f: seq<int>, groupPub: nat, endpoints: seq<PointWire>, votes: seq<VoteReply>,
                                minVotes: int, fc: FrostCommit)
    requires env.q > 0 && |endpoints| == |votes| && KnownShares(env.q, f, groupPub, endpoints, votes)
    requires var v := TallyOf(endpoints, votes, minVotes, |votes|);
             |f| <= |v.commits| && SealedBySession(env, groupPub, v, fc)
    ensures SealVerifies(env, groupPub, fc)
  {
    TallyMeans(endpoints, votes, minVotes, |votes|);
    KnownSharesOf(env, f, groupPub, endpoints, votes, minVotes, env.bytes(fc.d));
    SealedSessionVerifies(env, f, groupPub, TallyOf(endpoints, votes, minVotes, |votes|), fc);
  }

  lemma SealedSessionVerifies(env: Env, f: seq<int>, groupPub: nat, v: Tally, fc: FrostCommit)
    requires env.q > 0 && InStep(v) && SealedBySession(env, groupPub, v, fc)
    requires SharesOf(env.q, f, SessionOf(env, groupPub, v, env.bytes(fc.d)))
    ensures SealVerifies(env, groupPub, fc)
  {
    var m := env.bytes(fc.d);
    var s := SessionOf(env, groupPub, v, m);
    var shares: map<Id, nat>, z: nat :| SealedIn(env, groupPub, v, fc, shares, z);
    TallyVerifies(env, f, groupPub, v, m, s, shares, s.r.value, z);
    assert SealVerifiesAs(env, groupPub, fc, s.r.value, z);
  }

  /** Enough members voted with points that decode, and each answers with a partial that cannot be refused. */
  ghost predicate Cooperative(env: Env, groupPub: nat, v: Tally, d: Descriptor, replies: seq<ShareReply>, minVotes: int)
    requires env.q > 0
  {
    Openable(env, v) && |v.commits| == minVotes && AllAnswer(env, SessionOf(env, groupPub, v, env.bytes(d)), replies)
  }

  /** Both rounds over the tally's session. */
  method Rounds(env: Env, groupPub: nat, v: Tally, m: Msg, replies: seq<ShareReply>, minVotes: int)
      returns (r: Result<((nat, nat), map<Id, nat>)>)
    requires env.q > 0 && InStep(v)
    ensures r.Ok? ==> var s := SessionOf(env, groupPub, v, m);
                      Openable(env, v) && s.r == Some(r.value.0.0) && Finished(env, s, r.value.1, r.value.0.1)
    ensures r.Ok? ==> r.value.1.Keys == v.commits.Keys && |r.value.1| >= minVotes
    ensures r.Ok? ==> (Silent(replies) ==> minVotes <= 0)
    ensures Openable(env, v) && |v.commits| == minVotes && AllAnswer(env, SessionOf(env, groupPub, v, m), replies) ==>
          r.Ok?
  {
    var agg, ready := Open(env, groupPub, v, m);
    if !ready {
      return Err("round one failed");
    }
    SessionSet(env, groupPub, v, m, agg.View());
    r := Close(env, agg, replies, minVotes);
  }

  /** A handoff for the descriptor sealed by the tally's session. It cannot fail for cooperative
      members with shares of one polynomial. */
  method Sign(env: Env, groupPub: nat, v: Tally, d: Descriptor, replies: seq<ShareReply>, minVotes: int,
              ghost f: seq<int>)
      returns (r: Result<FrostCommit>)
    requires env.q > 0 && InStep(v)
    ensures r.Ok? ==> r.value.d == d && r.value.Valid(Pub(groupPub), minVotes) && r.value.Valid(Pub(groupPub), 1)
    ensures r.Ok? ==> SealedBySession(env, groupPub, v, r.value) && (Silent(replies) ==> minVotes <= 0)
    ensures Cooperative(env, groupPub, v, d, replies, minVotes) && d.newPub.Pub? && Reads(env, groupPub, d)
            && SharesOf(env.q, f, SessionOf(env, groupPub, v, env.bytes(d))) ==>
              r.Ok?
  {
    var done := Rounds(env, groupPub, v, env.bytes(d), replies, minVotes);
    if done.Err? {
      return Err(done.reason);
    }
    var ((rp, z), shares) := done.value;
    var names := OrderOf(shares.Keys);
    EnumeratedLength(names, shares.Keys);
    assert |shares.Keys| == |shares|;
    var fc := FrostCommit(d, env.seal(rp, z), names);
    assert SealedIn(env, groupPub, v, fc, shares, z);
    SomeMember(v, fc);
    ghost var s := SessionOf(env, groupPub, v, env.bytes(d));
    if SharesOf(env.q, f, s) {
      ReadsBack(env, f, groupPub, v, d, s, rp, z, shares);
    }
    if !fc.Valid(Pub(groupPub), minVotes) {
      return Err("aggregated signature invalid");
    }
    r := Ok(fc);
  }

  lemma ReadsBack(env: Env, f: seq<int>, groupPub: nat, v: Tally, d: Descriptor, s: Session, rp: nat, z: nat,
                  shares: map<Id, nat>)
    requires env.q > 0 && InStep(v) && Openable(env, v) && s == SessionOf(env, groupPub, v, env.bytes(d))
    requires s.r == Some(rp) && Finished(env, s, shares, z) && SharesOf(env.q, f, s)
    ensures Reads(env, groupPub, d) ==> env.seal(rp, z) == Signed(Pub(groupPub), HandoffMsg(d))
  {
    TallyVerifies(env, f, groupPub, v, env.bytes(d), s, shares, rp, z);
    ReadOff(env, groupPub, d, rp, z);
  }

  lemma ReadOff(env: Env, groupPub: nat, d: Descriptor, r: nat, z: nat)
    requires env.q > 0 && SignatureVerifies(env.q, env.h, groupPub, env.bytes(d), r, z)
    ensures Reads(env, groupPub, d) ==> env.seal(r, z) == Signed(Pub(groupPub), HandoffMsg(d))
  {
    assert Reads(env, groupPub, d) ==> ReadsAs(env, groupPub, d, r, z);
  }

  lemma SomeMember(v: Tally, fc: FrostCommit)
    requires v.commits != map[] && Enumerates(fc.members, v.commits.Keys)
    ensures |fc.members| >= 1
  {
    var id :| id in v.commits;
    assert id in Members(fc.members);
  }

  lemma KnownSharesServe(env: Env, f: seq<int>, groupPub: nat, endpoints: seq<PointWire>, votes: seq<VoteReply>,
                         minVotes: int, v: Tally, d: Descriptor, replies: seq<ShareReply>)
    requires env.q > 0 && |endpoints| == |votes| && v == TallyOf(endpoints, votes, minVotes, |votes|)
    ensures KnownShares(env.q, f, groupPub, endpoints, votes) && |f| <= minVotes
            && Cooperative(env, groupPub, v, d, replies, minVotes) ==>
              SharesOf(env.q, f, SessionOf(env, groupPub, v, env.bytes(d)))
  {
    if KnownShares(env.q, f, groupPub, endpoints, votes) && |f| <= minVotes
       && Cooperative(env, groupPub, v, d, replies, minVotes) {
      KnownSharesOf(env, f, groupPub, endpoints, votes, minVotes, env.bytes(d));
    }
  }

  /** The rounds and the publication, once the prefix before badIdx has verified. */
  method RecoverAt(env: Env, tl: Timeline, badIdx: nat, groupPub: nat, endpoints: seq<PointWire>, votes: seq<VoteReply>,
                   partials: seq<ShareReply>, minVotes: int, newRoot: nat, certificate: Option<nat>, ghost f: seq<int>)
    returns (r: Result<Outcome>)
    requires env.q > 0 && |endpoints| == |votes|
    ensures unchanged(tl)
    ensures r.Ok? ==> Recovered(tl.View(), badIdx, newRoot, LastEpoch(tl.events), Pub(groupPub), r.value)
    ensures r.Ok? ==> |r.value.commit.members| >= minVotes && (Silent(partials) ==> minVotes <= 0)
                      && SealedBySession(env, groupPub, TallyOf(endpoints, votes, minVotes, |votes|), r.value.commit)
    ensures CanRecover(env, f, tl.View(), badIdx, groupPub, endpoints, votes, partials, minVotes, newRoot,
                       certificate) ==>
              r.Ok?
  {
    var v := CollectVotes(endpoints, votes, minVotes);
    TallyMeans(endpoints, votes, minVotes, |votes|);
    if |v.commits| < minVotes {
      return Err("BLOCKED: fewer than minVotes members voted yes");
    }
    if certificate.None? {
      return Err("no CA certificate");
    }
    var epoch := ScanLastEpoch(tl.events);
    var fork, affected, identities := RecoverRollback(tl, badIdx, newRoot);
    if fork.Err? {
      return Err(fork.reason);
    }
    var d := Descriptor(epoch + 1, CheckpointOf(tl.events, badIdx), epoch, Pub(newRoot), certificate.value);
    assert d == HandoffOf(tl.View(), badIdx, epoch, newRoot, certificate.value);
    KnownSharesServe(env, f, groupPub, endpoints, votes, minVotes, v, d, partials);
    var fc := Sign(env, groupPub, v, d, partials, minVotes, f);
    if fc.Err? {
      return Err(fc.reason);
    }
    var o := Publish(tl, badIdx, fork.value, fc.value, affected, identities, epoch, newRoot, Pub(groupPub));
    r := Ok(o);
  }

  /** RemoteRecover: whatever the members answer, a recovery that returns holds a recovered timeline
      at the chain's own next epoch, signed in the session of the members that voted, at least
      minVotes of them. */
  method RemoteRecover(env: Env, tl: Timeline, evidence: Option<Event>, groupPub: nat, endpoints: seq<PointWire>,
                       votes: seq<VoteReply>, partials: seq<ShareReply>, minVotes: int, newRoot: nat,
                       certificate: Option<nat>, ghost f: seq<int>) returns (r: Result<Outcome>)
    requires env.q > 0 && |endpoints| == |votes|
    ensures unchanged(tl)
    ensures r.Ok? ==> BadIndexOf(evidence).Some? && PrefixTrusted(tl.View(), BadIndexOf(evidence).value)
    ensures r.Ok? ==> Recovered(tl.View(), BadIndexOf(evidence).value, newRoot, LastEpoch(tl.events), Pub(groupPub),
                                r.value)
    ensures r.Ok? ==> evidence.Some? && evidence.value.body.typ == Detected
    ensures r.Ok? && evidence.value.body.payload.EvidencePayload? ==>
              var b := evidence.value.body.payload.badIndex;
              b >= 0 && Recovered(tl.View(), b, newRoot, LastEpoch(tl.events), Pub(groupPub), r.value)
    ensures r.Ok? ==> |r.value.commit.members| >= minVotes && (Silent(partials) ==> minVotes <= 0)
                      && SealedBySession(env, groupPub, TallyOf(endpoints, votes, minVotes, |votes|), r.value.commit)
    ensures BadIndexOf(evidence).Some? && PrefixTrusted(tl.View(), BadIndexOf(evidence).value)
            && CanRecover(env, f, tl.View(), BadIndexOf(evidence).value, groupPub, endpoints, votes, partials, minVotes,
                          newRoot, certificate) ==>
              r.Ok?
  {
    var bad := BadIndexOf(evidence);
    if bad.None? {
      return Err("malformed evidence");
    }
    var ok := tl.VerifyPrefix(bad.value);
    if !ok {
      return Err("prefix failed verification");
    }
    r := RecoverAt(env, tl, bad.value, groupPub, endpoints, votes, partials, minVotes, newRoot, certificate, f);
  }

  /** The timeline rolls back, the new root has its certificate, enough members cooperate, and the
      known key shares are points of one polynomial through the group key. */
  ghost predicate CanRecover(env: Env, f: seq<int>, v: Ledger, badIdx: nat, groupPub: nat, endpoints: seq<PointWire>,
                             votes: seq<VoteReply>, partials: seq<ShareReply>, minVotes: int, newRoot: nat,
                             certificate: Option<nat>)
    requires env.q > 0 && |endpoints| == |votes|
  {
    && certificate.Some? && RolledBack(v, badIdx).Some? && |f| <= minVotes
    && KnownShares(env.q, f, groupPub, endpoints, votes)
    && var d := HandoffOf(v, badIdx, LastEpoch(v.events), newRoot, certificate.value);
       && Reads(env, groupPub, d)
       && Cooperative(env, groupPub, TallyOf(endpoints, votes, minVotes, |votes|), d, partials, minVotes)
  }

  /** A member that computes its partial over the nonces it committed cannot be refused. */
  lemma MemberCannotBeRefused(env: Env, s: Session, signer: FrostSigner, nonce: (nat, nat), c: nat, order: seq<Id>,
                              z: Result<nat>)
    requires env.q > 0
    requires ReadyAt(env.q, s, Transcript(s.m, s.commits, s.xs, c), signer, nonce)
    requires PartialOf(env.q, env.h, signer, nonce, Transcript(s.m, s.commits, s.xs, c), order, z)
    ensures z.Ok? && Irrefusable(env, s, Some((signer.id, Scalar(z.value))))
  {
    NotRefused(env.q, env.h, s, Transcript(s.m, s.commits, s.xs, c), signer, nonce, z, order);
  }
}
