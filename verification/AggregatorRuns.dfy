// Every sequence of calls on an aggregator (frost.go): when the shares it holds at the
// end are all good for the session it ends with.

module AggregatorRuns {
  import opened Wrappers
  import opened PrimeField
  import opened Frost
  import opened FrostRound

  datatype Call =
    | XsCall(xs: map<Id, int>)
    | CommitCall(id: Id, de: CommitWire)
    | ChallengeCall(m: Msg)
    | BlindCall(cPrime: nat, rp: nat, m: Msg)
    | ShareCall(id: Id, z: ScalarWire)

  /** What one call makes of a session. */
  ghost predicate Made(q: nat, h: Hashes, s: Session, call: Call, t: Session)
    requires q > 0
  {
    match call
    case XsCall(xs) => t == s.(xs := xs)
    case CommitCall(id, de) => t == s || t == s.(commits := s.commits[id := de])
    case ChallengeCall(m) =>
      t == s || (t == s.(r := t.r, c := t.c, m := m) && ChallengeSet(q, h, t))
    case BlindCall(cPrime, rp, m) => t == s.(r := Some(rp), c := cPrime % q, m := m)
    case ShareCall(id, z) =>
      t == s || (z.Scalar? && Verified(q, h, s, id, z.v % q) && t == s.(shares := s.shares[id := z.v % q]))
  }

  /** The aggregator's methods make such calls. */
  method Make(q: nat, h: Hashes, agg: FrostAggregator, call: Call)
    requires q > 0
    modifies agg
    ensures Made(q, h, old(agg.View()), call, agg.View())
  {
    match call
    case XsCall(xs) => agg.SetXs(xs);
    case CommitCall(id, de) => var _ := agg.AddCommit(id, de);
    case ChallengeCall(m) => var _ := agg.Challenge(q, h, m);
    case BlindCall(cPrime, rp, m) => agg.UseBlindedChallenge(q, cPrime, rp, m);
    case ShareCall(id, z) => var _ := agg.AddShare(q, h, id, z);
  }

  /** A run from a session without shares. */
  ghost predicate IsRun(q: nat, h: Hashes, run: seq<Session>, calls: seq<Call>)
    requires q > 0
  {
    && |run| == |calls| + 1 && run[0].shares == map[]
    && forall i :: 0 <= i < |calls| ==> Made(q, h, run[i], calls[i], run[i + 1])
  }

  /** Once a share is held, only further shares come in. */
  predicate Settled(run: seq<Session>, calls: seq<Call>)
    requires |run| == |calls| + 1
  {
    forall i :: 0 <= i < |calls| && run[i].shares != map[] ==> calls[i].ShareCall?
  }

  ghost predicate AllGood(q: nat, h: Hashes, s: Session)
    requires q > 0
  {
    forall id :: id in s.shares ==> Verified(q, h, s, id, s.shares[id])
  }

  lemma CallKeepsGood(q: nat, h: Hashes, s: Session, call: Call, t: Session)
    requires q > 0 && AllGood(q, h, s) && Made(q, h, s, call, t) && (s.shares != map[] ==> call.ShareCall?)
    ensures AllGood(q, h, t)
  {
    if call.ShareCall? && t != s {
      SharesKept(q, h, s, t, call.id);
    }
  }

  /** Over every sequence of calls that sets nothing any more once a share is held, every share held
      at the end satisfies its equation in the final session. */
  lemma {:induction false} SettledRunIsGood(q: nat, h: Hashes, run: seq<Session>, calls: seq<Call>)
    requires q > 0 && IsRun(q, h, run, calls) && Settled(run, calls)
    ensures AllGood(q, h, run[|calls|])
    decreases |calls|
  {
    if calls != [] {
      var n := |calls| - 1;
      var run', calls' := run[..n + 1], calls[..n];
      forall i | 0 <= i < n ensures Made(q, h, run'[i], calls'[i], run'[i + 1]) {
        assert Made(q, h, run[i], calls[i], run[i + 1]);
      }
      SettledRunIsGood(q, h, run', calls');
      CallKeepsGood(q, h, run[n], calls[n], run[n + 1]);
    }
  }

  /** So what Aggregate returns after such a run signs, when every signer's share is in and the key
      shares are points of one polynomial. */
  lemma SettledRunSigns(q: Prime, h: Hashes, f: seq<int>, run: seq<Session>, calls: seq<Call>, z: nat)
    requires q > 0 && IsRun(q, h, run, calls) && Settled(run, calls)
    requires var s := run[|calls|];
             SharesOf(q, f, s) && s.pubs.Keys == s.commits.Keys == s.shares.Keys
             && z == Sum(s.shares.Keys, ShareAt(s.shares)) % q
    ensures Signs(q, h, run[|calls|], z)
  {
    SettledRunIsGood(q, h, run, calls);
    AggregateSigns(q, h, f, run[|calls|], z);
  }
}
