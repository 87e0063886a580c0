// Every run of a council's members under an initiator that may send anything: what each
// member ever signs, and why two handoffs cannot both gather a quorum.

module CouncilRuns {
  import opened Wrappers
  import opened Orders
  import opened Events
  import opened Chains
  import opened Timelines
  import opened Ceremonies
  import opened CouncilNets

  /** One call on a member: a vote, a released partial for the round it voted for, or no change. */
  ghost predicate MemberStep(s: MemberState, t: MemberState) {
    || t == s
    || (exists req, commit :: t == AfterVote(s, req, commit))
    || (exists d, epoch :: Binds(s, d) && epoch > s.epoch && t == AfterShare(s, d, epoch))
  }

  /** The two methods of a member make such steps, whatever the initiator sends. */
  method VoteStep(member: CouncilMemberServer, env: Env, req: VoteReq, d0: nat, e0: nat) returns (resp: VoteResp)
    requires env.q > 0 && member.Valid(env)
    modifies member, member.share
    ensures member.Valid(env) && MemberStep(old(member.View()), member.View())
  {
    resp := member.Vote(env, req, d0, e0);
  }

  method CommitStep(member: CouncilMemberServer, env: Env, req: CommitReq) returns (resp: CommitResp)
    requires env.q > 0 && member.Valid(env)
    modifies member
    ensures member.Valid(env) && MemberStep(old(member.View()), member.View())
  {
    resp := member.Commit(env, req);
  }

  type Net = map<string, MemberState>

  /** In each step every member takes one step of its own or none. */
  ghost predicate NetStep(a: Net, b: Net) {
    a.Keys == b.Keys && forall id <- a.Keys :: MemberStep(a[id], b[id])
  }

  /** A run without restarts: every member starts with no session and nothing signed. */
  ghost predicate IsRun(run: seq<Net>) {
    && run != []
    && (forall id <- run[0].Keys :: run[0][id].pending == None && run[0][id].votes == [] && run[0][id].released == [])
    && (forall i :: 0 < i < |run| ==> NetStep(run[i - 1], run[i]))
  }

  /** A member votes once and signs once, and only what it voted for. */
  predicate Careful(s: MemberState) {
    && |s.votes| <= 1 && |s.released| <= 1
    && (s.votes != [] ==> s.used)
    && (s.pending.Some? ==> s.votes == [s.pending.value] && s.released == [])
    && (s.released != [] ==> s.pending.None? && s.votes != [] && Follows(s.released[0], s.votes[0]))
  }

  /** A descriptor carries the epoch and the checkpoint of a vote. */
  predicate Follows(d: Descriptor, vote: Pending) {
    d.epoch == vote.epoch && d.checkpoint.Some? && d.checkpoint == vote.checkpoint
  }

  /** One step keeps a member careful, its epoch never falls, a signature raises it, and what was
      signed stays signed. */
  lemma StepKeeps(s: MemberState, t: MemberState)
    requires Careful(s) && MemberStep(s, t)
    ensures Careful(t) && s.released <= t.released
    ensures s.epoch <= t.epoch && (t.released != s.released ==> s.epoch < t.epoch)
  {
  }

  lemma LastStep(run: seq<Net>)
    requires IsRun(run) && |run| > 1
    ensures IsRun(run[..|run| - 1]) && NetStep(run[|run| - 2], run[|run| - 1])
  {
    var before := run[..|run| - 1];
    assert forall i :: 0 < i < |before| ==> NetStep(before[i - 1], before[i]);
  }

  lemma {:induction false} RunKeys(run: seq<Net>)
    requires IsRun(run)
    ensures run[|run| - 1].Keys == run[0].Keys
  {
    if |run| > 1 {
      LastStep(run);
      RunKeys(run[..|run| - 1]);
    }
  }

  /** At most one partial per member, over every run with an arbitrary initiator. */
  lemma {:induction false} RunCareful(run: seq<Net>, id: string)
    requires IsRun(run) && id in run[0] && id in run[|run| - 1]
    ensures Careful(run[|run| - 1][id])
  {
    if |run| > 1 {
      var before := run[..|run| - 1];
      LastStep(run);
      RunKeys(before);
      RunCareful(before, id);
      var s, t := before[|before| - 1][id], run[|run| - 1][id];
      assert MemberStep(s, t);
      StepKeeps(s, t);
    }
  }

  /** The members that released a partial for a descriptor. */
  function Backers(net: Net, d: Descriptor): set<string> {
    set id | id in net && d in net[id].released
  }

  /** With n members and 2*minVotes > n, no two different handoffs both collect minVotes partials,
      at any time of any run. */
  lemma NoSplit(run: seq<Net>, minVotes: nat, d1: Descriptor, d2: Descriptor)
    requires IsRun(run) && 2 * minVotes > |run[0]| && d1 != d2
    ensures var last := run[|run| - 1];
            !(|Backers(last, d1)| >= minVotes && |Backers(last, d2)| >= minVotes)
  {
    var last := run[|run| - 1];
    var a, b := Backers(last, d1), Backers(last, d2);
    RunKeys(run);
    forall id | id in a && id in b ensures false {
      RunCareful(run, id);
    }
    assert a * b == {};
    SubsetSize(a + b, last.Keys);
    assert |a + b| == |a| + |b|;
    assert |last| == |last.Keys| == |run[0].Keys| == |run[0]|;
  }

  /** A quorum that signed a handoff had voted, every member of it, for its epoch and checkpoint. */
  lemma BackersVoted(run: seq<Net>, d: Descriptor, id: string)
    requires IsRun(run) && id in Backers(run[|run| - 1], d)
    ensures var s := run[|run| - 1][id];
            s.released == [d] && |s.votes| == 1 && Follows(d, s.votes[0])
  {
    RunKeys(run);
    RunCareful(run, id);
  }

  /** A member that spent its vote on a recovery from genesis never signs anything. */
  lemma GenesisVoteSignsNothing(run: seq<Net>, id: string)
    requires IsRun(run) && id in run[0] && id in run[|run| - 1]
    requires var s := run[|run| - 1][id]; s.votes != [] && s.votes[0].checkpoint == None
    ensures run[|run| - 1][id].released == []
  {
    RunCareful(run, id);
  }

  // ------------------------------------------------- what was voted for verified

  /** The vote is for a chain that starts with this prefix, whose every event verifies: it holds the prefix's last
      hash as its checkpoint, none for an empty one, and the epoch after the chain's last. */
  ghost predicate VotedOn(p: Pending, v: Ledger, prefix: Link) {
    && prefix <= v.events && (forall i :: 0 <= i < |prefix| ==> EventOk(v.events, v.Start(), v.council, v.algo, i))
    && p.checkpoint == (if prefix == [] then None else Some(HashOf(prefix[|prefix| - 1])))
    && p.epoch == LastEpoch(v.events) + 1
  }

  ghost predicate VotedForVerified(p: Pending) {
    exists v, prefix :: VotedOn(p, v, prefix)
  }

  lemma StepVotesVerified(s: MemberState, t: MemberState)
    requires MemberStep(s, t) && forall p <- s.votes :: VotedForVerified(p)
    ensures forall p <- t.votes :: VotedForVerified(p)
  {
    forall p | p in t.votes && p !in s.votes ensures VotedForVerified(p) {
      var req, commit :| t == AfterVote(s, req, commit);
      var v := req.timeline.value;
      assert VotedOn(p, v, v.events[..req.badIdx]);
    }
  }

  /** Over every run, whatever the initiator sends, each vote of each member is for a prefix that verified. */
  lemma {:induction false} VotesVerified(run: seq<Net>, id: string)
    requires IsRun(run) && id in run[0] && id in run[|run| - 1]
    ensures forall p <- run[|run| - 1][id].votes :: VotedForVerified(p)
  {
    if |run| > 1 {
      var before := run[..|run| - 1];
      LastStep(run);
      RunKeys(before);
      VotesVerified(before, id);
      var s, t := before[|before| - 1][id], run[|run| - 1][id];
      assert MemberStep(s, t);
      StepVotesVerified(s, t);
    }
  }

  /** A member that signed a handoff had verified this very prefix. */
  ghost predicate VerifiedPrefix(s: MemberState, prefix: Link) {
    exists v :: s.votes != [] && VotedOn(s.votes[0], v, prefix)
  }

  lemma SamePrefix(v: Ledger, a: Link, w: Ledger, b: Link)
    requires a <= v.events && (forall i :: 0 <= i < |a| ==> EventOk(v.events, v.Start(), v.council, v.algo, i))
    requires b <= w.events && (forall i :: 0 <= i < |b| ==> EventOk(w.events, w.Start(), w.council, w.algo, i))
    requires a != [] && b != [] && a[|a| - 1] == b[|b| - 1]
    ensures a == b
  {
    assert a[..|a|] == v.events[..|a|] && b[..|b|] == w.events[..|b|];
    VerifiesPrefix(v.events, a, v.Start(), v.council, v.algo, |a|);
    VerifiesPrefix(w.events, b, w.Start(), w.council, w.algo, |b|);
    LastEventDetermines(a, b, v.Start(), w.Start(), v.council, w.council, v.algo, w.algo);
  }

  /** All the members behind one handoff verified one and the same prefix, whose last event it names. */
  lemma BackersShareAPrefix(run: seq<Net>, d: Descriptor) returns (prefix: Link)
    requires IsRun(run) && Backers(run[|run| - 1], d) != {}
    ensures prefix != [] && d.checkpoint == Some(HashOf(prefix[|prefix| - 1]))
    ensures var last := run[|run| - 1]; forall id <- Backers(last, d) :: VerifiedPrefix(last[id], prefix)
  {
    var last := run[|run| - 1];
    var first :| first in Backers(last, d);
    RunKeys(run);
    BackersVoted(run, d, first);
    VotesVerified(run, first);
    assert last[first].votes[0] in last[first].votes && VotedForVerified(last[first].votes[0]);
    var v, p :| VotedOn(last[first].votes[0], v, p);
    prefix := p;
    forall id | id in Backers(last, d) ensures VerifiedPrefix(last[id], prefix) {
      BackersVoted(run, d, id);
      VotesVerified(run, id);
      assert last[id].votes[0] in last[id].votes && VotedForVerified(last[id].votes[0]);
      var w, own :| VotedOn(last[id].votes[0], w, own);
      SamePrefix(v, prefix, w, own);
      assert VotedOn(last[id].votes[0], w, prefix);
    }
  }
}
