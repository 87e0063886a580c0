// The recovery steps of council.go that need no signer: reading the evidence, rolling a
// timeline back under a new root, and publishing a signed handoff on the fork.

module Councils {
  import opened Wrappers
  import opened Orders
  import opened Decimals
  import opened Events
  import opened Chains
  import opened Timelines
  import opened Rollbacks
  import opened Recoveries

  /** The bad index of a DETECTED event; a payload without one reads as 0. */
  function BadIndexOf(evidence: Option<Event>): Option<nat> {
    if evidence.None? || evidence.value.body.typ != Detected then None
    else match evidence.value.body.payload
      case Malformed(_) => None
      case EvidencePayload(bad) => if bad < 0 then None else Some(bad)
      case _ => Some(0)
  }

  /** A recovery's outcome: the handoff, the canonical fork, the re-issued ids and the checks. */
  datatype Outcome = Outcome(commit: FrostCommit, timeline: Timeline, issued: seq<string>, checks: Report)

  function HandoffOf(v: Ledger, badIdx: nat, epoch: int, newRoot: nat, certificate: nat): Descriptor {
    Descriptor(epoch + 1, if badIdx <= |v.events| then CheckpointOf(v.events, badIdx) else None, epoch, Pub(newRoot),
               certificate)
  }

  predicate PrefixTrusted(v: Ledger, badIdx: nat) {
    Verifies(v.events, v.Start(), v.council, v.algo, if badIdx > |v.events| then |v.events| else badIdx)
  }

  /** What a successful recovery hands back, given the orders in which the two maps were walked:
      the handoff for the next epoch at the checkpoint, a recovered timeline over it, and both
      checks decided by the clash condition alone. */
  ghost predicate RecoveredInOrder(v: Ledger, badIdx: nat, newRoot: nat, epoch: int, group: PubKey, o: Outcome,
                                   order: seq<string>, certs: seq<string>, affected: set<string>)
    requires RolledBack(v, badIdx).Some?
    reads o.timeline
  {
    var base, suffix, identities := Rerooted(v, badIdx, newRoot), Suffix(epoch), IssuedTo(v.events, badIdx);
    && o.commit.d == HandoffOf(v, badIdx, epoch, newRoot, o.commit.d.payload) && o.commit.Valid(group, 1)
    && IsBlastRadius(v.events, badIdx, affected) && Enumerates(order, identities) && Enumerates(certs, affected)
    && o.timeline.View() == RecoveredLedger(base, o.commit, order, certs, suffix)
    && o.issued == seq(|order|, i requires 0 <= i < |order| => order[i] + suffix)
    && o.checks == Report(true, NoClash(FoldOf(base.events), identities, affected, suffix))
  }

  ghost predicate Recovered(v: Ledger, badIdx: nat, newRoot: nat, epoch: int, group: PubKey, o: Outcome)
    reads o.timeline
  {
    RolledBack(v, badIdx).Some? &&
    exists order, certs, affected :: RecoveredInOrder(v, badIdx, newRoot, epoch, group, o, order, certs, affected)
  }

  lemma ChecksHold(base: Ledger, fc: FrostCommit, v: Ledger, order: seq<string>, certs: seq<string>, suffix: string,
                   affected: set<string>, identities: set<string>)
    requires base.key.Some? && Enumerates(order, identities) && Enumerates(certs, affected)
    requires v == RevokeAll(IssueAll(HandedOver(base, fc), order, suffix), certs)
    ensures NoResurrection(FoldOf(base.events), FoldOf(v.events))
    ensures MinimalBlast(FoldOf(base.events), FoldOf(v.events), affected, identities)
       <==> NoClash(FoldOf(base.events), identities, affected, suffix)
  {
    RecoveredFold(base, fc, order, certs, suffix);
    BookendsFold(v, fc);
    ChecksExactly(FoldOf(v.events), FoldOf(base.events), identities, affected, suffix);
  }

  /** The orders behind an outcome, and what they say of its events. */
  lemma OutcomeOrder(v: Ledger, badIdx: nat, newRoot: nat, epoch: int, group: PubKey, o: Outcome, affected: set<string>)
    returns (order: seq<string>, certs: seq<string>)
    requires Recovered(v, badIdx, newRoot, epoch, group, o) && IsBlastRadius(v.events, badIdx, affected)
    ensures o.timeline.events == RecoveredLedger(Rerooted(v, badIdx, newRoot), o.commit, order, certs,
                                                 Suffix(epoch)).events
    ensures forall id :: id in order <==> id in IssuedTo(v.events, badIdx)
    ensures forall c :: c in certs <==> c in affected
    ensures |o.issued| == |order| && forall i :: 0 <= i < |order| ==> o.issued[i] == order[i] + Suffix(epoch)
    ensures o.commit.d.epoch == epoch + 1 && o.commit.d.newPub == Pub(newRoot)
  {
    var radius;
    order, certs, radius :| RecoveredInOrder(v, badIdx, newRoot, epoch, group, o, order, certs, radius);
    BlastRadiusUnique(v.events, badIdx, affected, radius);
    assert forall id :: id in order <==> id in Members(order);
    assert forall c :: c in certs <==> c in Members(certs);
  }

  /** The handoff in an outcome: for the next epoch, to the new root, naming the last good event, and signed by
      the council. */
  lemma OutcomeHandsOver(v: Ledger, badIdx: nat, newRoot: nat, epoch: int, group: PubKey, o: Outcome)
    requires Recovered(v, badIdx, newRoot, epoch, group, o)
    ensures badIdx <= |v.events|
    ensures var d := o.commit.d;
            && d.epoch == epoch + 1 && d.prev == epoch && d.newPub == Pub(newRoot)
            && d.checkpoint == (if badIdx == 0 then None else Some(HashOf(v.events[badIdx - 1])))
            && o.commit.sig == Signed(group, HandoffMsg(d)) && o.commit.members != []
  {
    var order, certs, affected :| RecoveredInOrder(v, badIdx, newRoot, epoch, group, o, order, certs, affected);
  }

  /** An outcome's timeline: the kept prefix, right after it that handoff, and at the end its COMMIT. */
  lemma OutcomeHolds(v: Ledger, badIdx: nat, newRoot: nat, epoch: int, group: PubKey, o: Outcome, affected: set<string>)
    requires Recovered(v, badIdx, newRoot, epoch, group, o) && IsBlastRadius(v.events, badIdx, affected)
    ensures var n, events := |Rerooted(v, badIdx, newRoot).events|, o.timeline.events;
            && n <= |v.events| && n + 2 + |o.issued| <= |events| && Rerooted(v, badIdx, newRoot).events <= events
            && events[n].body.typ == Recovery && events[n].body.payload == HandoffPayload(o.commit)
            && events[|events| - 1].body.typ == Commit
            && events[|events| - 1].body.payload == CommitPayload(epoch + 1, o.commit.d.checkpoint, Pub(newRoot))
  {
    var order, certs := OutcomeOrder(v, badIdx, newRoot, epoch, group, o, affected);
    RerootedPrefix(v, badIdx, newRoot);
    RecoveredEnds(Rerooted(v, badIdx, newRoot), o.commit, order, certs, Suffix(epoch));
  }

  /** An event that re-issues to an identity of the bad window, under the id reported. */
  ghost predicate Reissues(v: Ledger, badIdx: nat, epoch: int, e: Body, id: string) {
    exists identity :: identity in IssuedTo(v.events, badIdx) && id == identity + ("-re" + SignedDecimal(epoch + 1))
                       && e.typ == Issue && e.payload == IssuePayload(id, identity, "")
  }

  /** Between the two come first the re-issuances, as they are reported. */
  lemma OutcomeReissues(v: Ledger, badIdx: nat, newRoot: nat, epoch: int, group: PubKey, o: Outcome,
                        affected: set<string>, k: nat)
    requires Recovered(v, badIdx, newRoot, epoch, group, o) && IsBlastRadius(v.events, badIdx, affected)
    requires k < |o.issued|
    ensures var at := |Rerooted(v, badIdx, newRoot).events| + 1 + k;
            at < |o.timeline.events| && Reissues(v, badIdx, epoch, o.timeline.events[at].body, o.issued[k])
  {
    var order, certs := OutcomeOrder(v, badIdx, newRoot, epoch, group, o, affected);
    var base := Rerooted(v, badIdx, newRoot);
    RecoveredIssue(base, o.commit, order, certs, Suffix(epoch), k);
    ReissuesOne(v, badIdx, epoch, o.timeline.events[|base.events| + 1 + k].body, order[k]);
  }

  lemma ReissuesOne(v: Ledger, badIdx: nat, epoch: int, e: Body, identity: string)
    requires identity in IssuedTo(v.events, badIdx)
    requires e.typ == Issue && e.payload == IssuePayload(identity + Suffix(epoch), identity, "")
    ensures Reissues(v, badIdx, epoch, e, identity + Suffix(epoch))
  {
  }

  /** Then revocations of the blast radius, and nothing else. */
  lemma OutcomeRevokes(v: Ledger, badIdx: nat, newRoot: nat, epoch: int, group: PubKey, o: Outcome,
                       affected: set<string>, at: nat)
    requires Recovered(v, badIdx, newRoot, epoch, group, o) && IsBlastRadius(v.events, badIdx, affected)
    requires |Rerooted(v, badIdx, newRoot).events| + |o.issued| < at < |o.timeline.events| - 1
    ensures var e := o.timeline.events[at].body;
            e.typ == Revoke && e.payload.CertPayload? && e.payload.certId in affected
  {
    var order, certs := OutcomeOrder(v, badIdx, newRoot, epoch, group, o, affected);
    RecoveredRevoke(Rerooted(v, badIdx, newRoot), o.commit, order, certs, Suffix(epoch), at);
  }

  /** recoverRollback: the rerooted fork and the blast radius. */
  method RecoverRollback(tl: Timeline, badIdx: nat, newRoot: nat)
    returns (fork: Result<Timeline>, affected: set<string>, identities: set<string>)
    ensures fork.Ok? <==> RolledBack(tl.View(), badIdx).Some?
    ensures fork.Ok? ==> fresh(fork.value) && fork.value.View() == Rerooted(tl.View(), badIdx, newRoot)
    ensures fork.Ok? ==> IsBlastRadius(tl.events, badIdx, affected) && identities == IssuedTo(tl.events, badIdx)
  {
    affected, identities := {}, {};
    fork := Rollback(tl, badIdx);
    if fork.Ok? {
      fork.value.key, fork.value.pub := Some(newRoot), Pub(newRoot);
      fork.value.council := tl.council;
      affected, identities := InvalidationSet(tl, badIdx);
    }
  }

  /** reissueOnFork: one certificate per identity, then the revocations; both maps in any order. */
  method ReissueOnFork(fork: Timeline, affected: set<string>, identities: set<string>, suffix: string)
    returns (issued: seq<string>, ghost ids: seq<string>, ghost certs: seq<string>)
    requires fork.key.Some?
    modifies fork`events
    ensures Enumerates(ids, identities) && Enumerates(certs, affected)
    ensures fork.View() == RevokeAll(IssueAll(old(fork.View()), ids, suffix), certs)
    ensures issued == seq(|ids|, i requires 0 <= i < |ids| => ids[i] + suffix)
  {
    var order := OrderOf(identities);
    ids := order;
    issued := [];
    for i := 0 to |order|
      invariant fork.View() == IssueAll(old(fork.View()), order[..i], suffix)
      invariant issued == seq(i, k requires 0 <= k < i => order[k] + suffix)
    {
      assert order[..i + 1][..i] == order[..i];
      var _ := fork.Append(Issue, IssuePayload(order[i] + suffix, order[i], ""), 0);
      issued := issued + [order[i] + suffix];
    }
    assert order[..|order|] == order;
    ghost var mid := fork.View();
    var cids := OrderOf(affected);
    certs := cids;
    for i := 0 to |cids|
      invariant fork.View() == RevokeAll(mid, cids[..i])
    {
      assert cids[..i + 1][..i] == cids[..i];
      var _ := fork.Append(Revoke, CertPayload(cids[i]), 0);
    }
    assert cids[..|cids|] == cids;
  }

  /** The post-recovery checks, on a second roll-back of the original. */
  method Check(tl: Timeline, badIdx: nat, fork: Timeline, affected: set<string>, identities: set<string>)
    returns (checks: Report)
    requires RolledBack(tl.View(), badIdx).Some?
    ensures var pre, post := FoldOf(RolledBack(tl.View(), badIdx).value.events), FoldOf(fork.events);
            checks == Report(NoResurrection(pre, post), MinimalBlast(pre, post, affected, identities))
  {
    var prefix := Rollback(tl, badIdx);
    var pre := Fold(prefix.value.events);
    var post := Fold(fork.events);
    checks := VerifyRecovery(pre, post, affected, identities);
  }

  /** The end of every recovery: the handoff, the re-issuance, the checks and the closing COMMIT. */
  method Publish(tl: Timeline, badIdx: nat, fork: Timeline, fc: FrostCommit, affected: set<string>,
                 identities: set<string>, epoch: int, ghost newRoot: nat, ghost group: PubKey) returns (o: Outcome)
    requires fork != tl && RolledBack(tl.View(), badIdx).Some? && fork.View() == Rerooted(tl.View(), badIdx, newRoot)
    requires IsBlastRadius(tl.events, badIdx, affected) && identities == IssuedTo(tl.events, badIdx)
    requires fc.d == HandoffOf(tl.View(), badIdx, epoch, newRoot, fc.d.payload) && fc.Valid(group, 1)
    modifies fork`events
    ensures o.commit == fc && o.timeline == fork && Recovered(tl.View(), badIdx, newRoot, epoch, group, o)
  {
    ghost var base := fork.View();
    var _ := fork.Append(Recovery, HandoffPayload(fc), 0);
    var issued, order, certs := ReissueOnFork(fork, affected, identities, Suffix(epoch));
    var checks := Check(tl, badIdx, fork, affected, identities);
    ChecksHold(base, fc, fork.View(), order, certs, Suffix(epoch), affected, identities);
    var _ := fork.Append(Commit, CommitPayload(fc.d.epoch, fc.d.checkpoint, fc.d.newPub), 0);
    o := Outcome(fc, fork, issued, checks);
    assert RecoveredInOrder(tl.View(), badIdx, newRoot, epoch, group, o, order, certs, affected);
  }

  /** When the recovered timeline verifies, and what it folds to, whatever the map orders were. */
  lemma RecoveryTail(v: Ledger, badIdx: nat, newRoot: nat, epoch: int, group: PubKey, o: Outcome, affected: set<string>)
    requires Recovered(v, badIdx, newRoot, epoch, group, o) && PrefixTrusted(v, badIdx)
    requires IsBlastRadius(v.events, badIdx, affected)
    ensures badIdx <= |v.events|
    ensures o.timeline.View().Good()
       <==> && v.council == Some(group) && group.Pub?
            && (badIdx > 0 ==> && v.algo == Sha256 && NoCopy(v.events, badIdx)
                               && (v.After(badIdx) == v.Start() || v.events[0].body.typ == Recovery))
    ensures var pre, identities := FoldOf(Rerooted(v, badIdx, newRoot).events), IssuedTo(v.events, badIdx);
            && IsRecoveredState(FoldOf(o.timeline.events), pre, identities, affected, Suffix(epoch))
            && (o.checks.Pass() <==> NoClash(pre, identities, affected, Suffix(epoch)))
  {
    var order, certs, blast :| RecoveredInOrder(v, badIdx, newRoot, epoch, group, o, order, certs, blast);
    BlastRadiusUnique(v.events, badIdx, blast, affected);
    RecoveredVerifiesExactly(v, badIdx, newRoot, o.commit, group, order, certs, Suffix(epoch));
    RecoveredFold(Rerooted(v, badIdx, newRoot), o.commit, order, certs, Suffix(epoch));
  }
}
