// What a recovered timeline is (the tail of council.go): the rolled-back prefix, the
// council's handoff, one re-issuance per affected identity, a revocation per affected
// certificate, and the closing COMMIT. The identities and certificates come in any order.

module Recoveries {
  import opened Wrappers
  import opened Orders
  import opened Decimals
  import opened Events
  import opened Chains
  import opened Timelines
  import opened Rollbacks

  /** What a re-issued certificate's id adds to the identity, given the epoch before. */
  function Suffix(epoch: int): string {
    "-re" + SignedDecimal(epoch + 1)
  }

  function IssueAll(v: Ledger, ids: seq<string>, suffix: string): (w: Ledger)
    ensures w == v.(events := w.events) && v.events <= w.events
  {
    if ids == [] then v
    else
      var id := ids[|ids| - 1];
      IssueAll(v, ids[..|ids| - 1], suffix).Appended(Issue, IssuePayload(id + suffix, id, ""), 0)
  }

  function RevokeAll(v: Ledger, certs: seq<string>): (w: Ledger)
    ensures w == v.(events := w.events) && v.events <= w.events
  {
    if certs == [] then v
    else RevokeAll(v, certs[..|certs| - 1]).Appended(Revoke, CertPayload(certs[|certs| - 1]), 0)
  }

  function HandedOver(base: Ledger, fc: FrostCommit): Ledger {
    base.Appended(Recovery, HandoffPayload(fc), 0)
  }

  function Sealed(v: Ledger, fc: FrostCommit): Ledger {
    v.Appended(Commit, CommitPayload(fc.d.epoch, fc.d.checkpoint, fc.d.newPub), 0)
  }

  function RecoveredLedger(base: Ledger, fc: FrostCommit, ids: seq<string>, certs: seq<string>,
                           suffix: string): Ledger {
    Sealed(RevokeAll(IssueAll(HandedOver(base, fc), ids, suffix), certs), fc)
  }

  lemma {:induction false} IssueAllLength(v: Ledger, ids: seq<string>, suffix: string)
    requires v.key.Some?
    ensures |IssueAll(v, ids, suffix).events| == |v.events| + |ids|
  {
    if ids != [] {
      IssueAllLength(v, ids[..|ids| - 1], suffix);
    }
  }

  lemma {:induction false} IssueAllAt(v: Ledger, ids: seq<string>, suffix: string, i: nat)
    requires v.key.Some? && i < |ids|
    ensures |IssueAll(v, ids, suffix).events| == |v.events| + |ids|
    ensures var e := IssueAll(v, ids, suffix).events[|v.events| + i].body;
            e.typ == Issue && e.payload == IssuePayload(ids[i] + suffix, ids[i], "")
  {
    var n := |ids| - 1;
    IssueAllLength(v, ids, suffix);
    IssueAllLength(v, ids[..n], suffix);
    if i < n {
      IssueAllAt(v, ids[..n], suffix, i);
      assert ids[..n][i] == ids[i];
    }
  }

  lemma {:induction false} RevokeAllLength(v: Ledger, certs: seq<string>)
    requires v.key.Some?
    ensures |RevokeAll(v, certs).events| == |v.events| + |certs|
  {
    if certs != [] {
      RevokeAllLength(v, certs[..|certs| - 1]);
    }
  }

  lemma {:induction false} RevokeAllAt(v: Ledger, certs: seq<string>, i: nat)
    requires v.key.Some? && i < |certs|
    ensures |RevokeAll(v, certs).events| == |v.events| + |certs|
    ensures var e := RevokeAll(v, certs).events[|v.events| + i].body;
            e.typ == Revoke && e.payload == CertPayload(certs[i])
  {
    var n := |certs| - 1;
    RevokeAllLength(v, certs);
    RevokeAllLength(v, certs[..n]);
    if i < n {
      RevokeAllAt(v, certs[..n], i);
      assert certs[..n][i] == certs[i];
    }
  }

  lemma RecoveredLength(base: Ledger, fc: FrostCommit, ids: seq<string>, certs: seq<string>, suffix: string)
    requires base.key.Some?
    ensures |RecoveredLedger(base, fc, ids, certs, suffix).events| == |base.events| + |ids| + |certs| + 2
  {
    IssueAllLength(HandedOver(base, fc), ids, suffix);
    RevokeAllLength(IssueAll(HandedOver(base, fc), ids, suffix), certs);
  }

  /** The recovered ledger, event by event: the prefix and the handoff, the re-issuances, the revocations, and
      the COMMIT. */
  lemma RecoveredEnds(base: Ledger, fc: FrostCommit, ids: seq<string>, certs: seq<string>, suffix: string)
    requires base.key.Some?
    ensures var events, n := RecoveredLedger(base, fc, ids, certs, suffix).events, |base.events|;
            && |events| == n + |ids| + |certs| + 2 && base.events <= events
            && events[n].body.typ == Recovery && events[n].body.payload == HandoffPayload(fc)
            && events[|events| - 1].body.typ == Commit
            && events[|events| - 1].body.payload == CommitPayload(fc.d.epoch, fc.d.checkpoint, fc.d.newPub)
  {
    var handed := HandedOver(base, fc);
    var issued := IssueAll(handed, ids, suffix);
    RecoveredLength(base, fc, ids, certs, suffix);
    assert handed.events <= issued.events <= RevokeAll(issued, certs).events;
  }

  lemma RecoveredIssue(base: Ledger, fc: FrostCommit, ids: seq<string>, certs: seq<string>, suffix: string, i: nat)
    requires base.key.Some? && i < |ids|
    ensures var events, at := RecoveredLedger(base, fc, ids, certs, suffix).events, |base.events| + 1 + i;
            at < |events| && events[at].body.typ == Issue
            && events[at].body.payload == IssuePayload(ids[i] + suffix, ids[i], "")
  {
    var handed := HandedOver(base, fc);
    IssueAllAt(handed, ids, suffix, i);
    RevokeAllLength(IssueAll(handed, ids, suffix), certs);
  }

  lemma RecoveredRevoke(base: Ledger, fc: FrostCommit, ids: seq<string>, certs: seq<string>, suffix: string, at: nat)
    requires base.key.Some?
    requires |base.events| + |ids| < at < |RecoveredLedger(base, fc, ids, certs, suffix).events| - 1
    ensures var e := RecoveredLedger(base, fc, ids, certs, suffix).events[at].body;
            e.typ == Revoke && e.payload.CertPayload? && e.payload.certId in certs
  {
    var handed := HandedOver(base, fc);
    RecoveredLength(base, fc, ids, certs, suffix);
    IssueAllLength(handed, ids, suffix);
    RevokeAllAt(IssueAll(handed, ids, suffix), certs, at - |base.events| - 1 - |ids|);
  }

  /** recoverRollback's fork: the rolled-back prefix under the new root key. */
  function Rerooted(v: Ledger, badIdx: nat, newRoot: nat): Ledger
    requires RolledBack(v, badIdx).Some?
  {
    RolledBack(v, badIdx).value.(key := Some(newRoot), pub := Pub(newRoot), council := v.council)
  }

  /** It keeps the events up to the last copy of the one before badIdx, under the new root's key pair and the
      timeline's own trust anchor. */
  lemma RerootedExactly(v: Ledger, badIdx: nat, newRoot: nat)
    requires RolledBack(v, badIdx).Some?
    ensures var w := Rerooted(v, badIdx, newRoot);
            && badIdx <= |w.events| <= |v.events| && w.events == v.events[..|w.events|]
            && (badIdx == 0 ==> w.events == [])
            && w.key == Some(newRoot) && w.pub == Pub(newRoot) && w.council == v.council
    ensures var n := |Rerooted(v, badIdx, newRoot).events|;
            badIdx > 0 ==> v.events[n - 1] == v.events[badIdx - 1]
                           && forall i :: n <= i < |v.events| ==> v.events[i] != v.events[badIdx - 1]
  {
    if badIdx > 0 {
      LastCopy(v.events, HashOf(v.events[badIdx - 1]));
    }
  }

  lemma {:induction false} LastCopy(events: Link, h: Digest)
    ensures forall i :: LastAt(events, h) < i < |events| ==> HashOf(events[i]) != h
  {
    if events != [] && HashOf(events[|events| - 1]) != h {
      LastCopy(events[..|events| - 1], h);
      assert forall i :: 0 <= i < |events| - 1 ==> events[..|events| - 1][i] == events[i];
    }
  }

  lemma RerootedPrefix(v: Ledger, badIdx: nat, newRoot: nat)
    requires RolledBack(v, badIdx).Some?
    ensures Rerooted(v, badIdx, newRoot).events <= v.events
  {
  }

  /** rollbackCheckpoint: the SHA-256 hash of the last good event. */
  function CheckpointOf(events: Link, badIdx: nat): Option<Digest>
    requires badIdx <= |events|
  {
    if badIdx == 0 then None else Some(HashOf(events[badIdx - 1]))
  }

  // ------------------------------------------------------------- folded state

  function At(s: State, c: string): Option<Cert> {
    if c in s then Some(s[c]) else None
  }

  /** The identity c re-issues, if c carries the suffix. */
  function Stem(c: string, suffix: string): Option<string> {
    if |c| >= |suffix| && c[|c| - |suffix|..] == suffix then Some(c[..|c| - |suffix|]) else None
  }

  lemma StemOf(id: string, suffix: string)
    ensures Stem(id + suffix, suffix) == Some(id)
  {
  }

  lemma StemBack(c: string, suffix: string)
    requires Stem(c, suffix).Some?
    ensures c == Stem(c, suffix).value + suffix
  {
  }

  /** A certificate after re-issuance to the identities: revoked ones stay revoked. */
  function ReissuedAt(pre: State, ids: set<string>, suffix: string, c: string): Option<Cert> {
    if c in pre && pre[c].revoked then Some(pre[c])
    else if Stem(c, suffix).Some? && Stem(c, suffix).value in ids then Some(Cert(Stem(c, suffix).value, false))
    else At(pre, c)
  }

  function RevokedIn(c: Option<Cert>, hit: bool): Option<Cert> {
    if c.Some? && hit then Some(Cert(c.value.identity, true)) else c
  }

  /** The state after recovery: one certificate per identity on top of the prefix, then every
      affected certificate that is present revoked. */
  ghost predicate IsRecoveredState(post: State, pre: State, ids: set<string>, certs: set<string>, suffix: string) {
    forall c: string :: At(post, c) == RevokedIn(ReissuedAt(pre, ids, suffix, c), c in certs)
  }

  lemma StatesEqual(a: State, b: State)
    requires forall c: string :: At(a, c) == At(b, c)
    ensures a == b
  {
    forall c: string ensures c in a <==> c in b {
      assert At(a, c) == At(b, c);
    }
    forall c <- a.Keys ensures a[c] == b[c] {
      assert At(a, c) == At(b, c);
    }
  }

  lemma ReissueStep(s: State, pre: State, ids: set<string>, id: string, suffix: string, c: string)
    requires At(s, c) == ReissuedAt(pre, ids, suffix, c)
    requires At(s, id + suffix) == ReissuedAt(pre, ids, suffix, id + suffix)
    ensures At(Apply(s, Body(Issue, 0, IssuePayload(id + suffix, id, ""), None)), c)
         == ReissuedAt(pre, ids + {id}, suffix, c)
  {
    StemOf(id, suffix);
    if Stem(c, suffix).Some? {
      StemBack(c, suffix);
    }
  }

  lemma {:induction false} IssueAllFold(v: Ledger, ids: seq<string>, suffix: string, c: string)
    requires v.key.Some?
    ensures At(FoldOf(IssueAll(v, ids, suffix).events), c) == ReissuedAt(FoldOf(v.events), Members(ids), suffix, c)
  {
    if ids != [] {
      var front, id := ids[..|ids| - 1], ids[|ids| - 1];
      var w, payload := IssueAll(v, front, suffix), IssuePayload(id + suffix, id, "");
      var pre, s := FoldOf(v.events), FoldOf(w.events);
      IssueAllFold(v, front, suffix, c);
      IssueAllFold(v, front, suffix, id + suffix);
      ReissueStep(s, pre, Members(front), id, suffix, c);
      FoldGrow(w.events, w.Next(Issue, payload, 0));
      assert Apply(s, w.Next(Issue, payload, 0).body) == Apply(s, Body(Issue, 0, payload, None));
      MembersGrow(front, id);
      assert ids == front + [id];
    }
  }

  lemma RevokeStep(s: State, pre: State, hit: bool, last: string, c: string)
    requires At(s, c) == RevokedIn(At(pre, c), hit)
    ensures At(Apply(s, Body(Revoke, 0, CertPayload(last), None)), c) == RevokedIn(At(pre, c), hit || c == last)
  {
  }

  lemma {:induction false} RevokeAllFold(v: Ledger, certs: seq<string>, c: string)
    requires v.key.Some?
    ensures At(FoldOf(RevokeAll(v, certs).events), c) == RevokedIn(At(FoldOf(v.events), c), c in certs)
  {
    if certs != [] {
      var front, last := certs[..|certs| - 1], certs[|certs| - 1];
      var w := RevokeAll(v, front);
      var pre, s := FoldOf(v.events), FoldOf(w.events);
      RevokeAllFold(v, front, c);
      RevokeStep(s, pre, c in front, last, c);
      FoldGrow(w.events, w.Next(Revoke, CertPayload(last), 0));
      assert Apply(s, w.Next(Revoke, CertPayload(last), 0).body) == Apply(s, Body(Revoke, 0, CertPayload(last), None));
      assert certs == front + [last];
    }
  }

  /** Neither the handoff nor the closing COMMIT touches a certificate. */
  lemma BookendsFold(v: Ledger, fc: FrostCommit)
    requires v.key.Some?
    ensures FoldOf(HandedOver(v, fc).events) == FoldOf(v.events) == FoldOf(Sealed(v, fc).events)
  {
    FoldGrow(v.events, v.Next(Recovery, HandoffPayload(fc), 0));
    FoldGrow(v.events, v.Next(Commit, CommitPayload(fc.d.epoch, fc.d.checkpoint, fc.d.newPub), 0));
  }

  /** The recovered timeline folds to the prefix fold plus the re-issuances, minus the blast radius. */
  lemma RecoveredFold(base: Ledger, fc: FrostCommit, ids: seq<string>, certs: seq<string>, suffix: string)
    requires base.key.Some?
    ensures IsRecoveredState(FoldOf(RecoveredLedger(base, fc, ids, certs, suffix).events), FoldOf(base.events),
                             Members(ids), Members(certs), suffix)
  {
    var v := HandedOver(base, fc);
    var w := IssueAll(v, ids, suffix);
    var x := RevokeAll(w, certs);
    BookendsFold(base, fc);
    BookendsFold(x, fc);
    forall c: string
      ensures At(FoldOf(x.events), c) == RevokedIn(ReissuedAt(FoldOf(v.events), Members(ids), suffix, c),
                                                   c in Members(certs))
    {
      IssueAllFold(v, ids, suffix, c);
      RevokeAllFold(w, certs, c);
    }
  }

  /** Neither map's iteration order shows in the folded state. */
  lemma OrderIrrelevant(base: Ledger, fc: FrostCommit, suffix: string, identities: set<string>, affected: set<string>,
                        ids: seq<string>, certs: seq<string>, ids': seq<string>, certs': seq<string>)
    requires base.key.Some? && Enumerates(ids, identities) && Enumerates(ids', identities)
    requires Enumerates(certs, affected) && Enumerates(certs', affected)
    ensures FoldOf(RecoveredLedger(base, fc, ids, certs, suffix).events)
         == FoldOf(RecoveredLedger(base, fc, ids', certs', suffix).events)
  {
    RecoveredFold(base, fc, ids, certs, suffix);
    RecoveredFold(base, fc, ids', certs', suffix);
    StatesEqual(FoldOf(RecoveredLedger(base, fc, ids, certs, suffix).events),
                FoldOf(RecoveredLedger(base, fc, ids', certs', suffix).events));
  }

  /** No re-issued id lands on a good certificate of another identity in the prefix. */
  predicate NoClash(pre: State, ids: set<string>, certs: set<string>, suffix: string) {
    forall id <- ids :: id + suffix in pre && id + suffix !in certs && !pre[id + suffix].revoked
                        ==> pre[id + suffix].identity == id
  }

  /** Recovery never resurrects a certificate, and stays inside its blast radius exactly when no
      re-issued id clashes. */
  lemma ChecksExactly(post: State, pre: State, ids: set<string>, certs: set<string>, suffix: string)
    requires IsRecoveredState(post, pre, ids, certs, suffix)
    ensures NoResurrection(pre, post)
    ensures MinimalBlast(pre, post, certs, ids) <==> NoClash(pre, ids, certs, suffix)
  {
    forall c <- pre.Keys | pre[c].revoked
      ensures c in post && post[c].revoked && post[c].identity == pre[c].identity
    {
      assert At(post, c) == RevokedIn(ReissuedAt(pre, ids, suffix, c), c in certs);
    }
    AdditionsAllowed(post, pre, ids, certs, suffix);
    if NoClash(pre, ids, certs, suffix) {
      forall c <- pre.Keys | c !in certs ensures c in post && post[c] == pre[c] {
        assert At(post, c) == RevokedIn(ReissuedAt(pre, ids, suffix, c), c in certs);
        if Stem(c, suffix).Some? {
          StemBack(c, suffix);
        }
      }
    }
    if MinimalBlast(pre, post, certs, ids) {
      forall id <- ids | id + suffix in pre && id + suffix !in certs && !pre[id + suffix].revoked
        ensures pre[id + suffix].identity == id
      {
        StemOf(id, suffix);
        assert At(post, id + suffix) == RevokedIn(ReissuedAt(pre, ids, suffix, id + suffix), id + suffix in certs);
      }
    }
  }

  lemma AdditionsAllowed(post: State, pre: State, ids: set<string>, certs: set<string>, suffix: string)
    requires IsRecoveredState(post, pre, ids, certs, suffix)
    ensures forall c <- post.Keys :: c !in pre ==> post[c].identity in ids
  {
    forall c <- post.Keys | c !in pre ensures post[c].identity in ids {
      assert At(post, c) == RevokedIn(ReissuedAt(pre, ids, suffix, c), c in certs);
    }
  }

  // ------------------------------------------------------------- verification

  lemma AppendedGood(v: Ledger, typ: EventType, payload: Payload)
    requires v.key.Some? && v.Appended(typ, payload, 0).Good()
    ensures v.Good()
  {
    VerifiesGrow(v.events, v.Next(typ, payload, 0), v.Start(), v.council, v.algo);
  }

  lemma {:induction false} IssueAllGood(v: Ledger, ids: seq<string>, suffix: string)
    requires v.key.Some? && v.start.Some?
    ensures Ready(v) ==> Ready(IssueAll(v, ids, suffix))
    ensures IssueAll(v, ids, suffix).Good() ==> v.Good()
  {
    if ids != [] {
      var front, id := ids[..|ids| - 1], ids[|ids| - 1];
      IssueAllGood(v, front, suffix);
      var w, payload := IssueAll(v, front, suffix), IssuePayload(id + suffix, id, "");
      if Ready(v) {
        AppendedReady(w, Issue, payload, 0);
      }
      if w.Appended(Issue, payload, 0).Good() {
        AppendedGood(w, Issue, payload);
      }
    }
  }

  lemma {:induction false} RevokeAllGood(v: Ledger, certs: seq<string>)
    requires v.key.Some? && v.start.Some?
    ensures Ready(v) ==> Ready(RevokeAll(v, certs))
    ensures RevokeAll(v, certs).Good() ==> v.Good()
  {
    if certs != [] {
      var front, payload := certs[..|certs| - 1], CertPayload(certs[|certs| - 1]);
      RevokeAllGood(v, front);
      var w := RevokeAll(v, front);
      if Ready(v) {
        AppendedReady(w, Revoke, payload, 0);
      }
      if w.Appended(Revoke, payload, 0).Good() {
        AppendedGood(w, Revoke, payload);
      }
    }
  }

  /** The tail verifies exactly when the handoff does. */
  lemma TailGood(base: Ledger, fc: FrostCommit, ids: seq<string>, certs: seq<string>, suffix: string)
    requires base.key.Some? && base.start.Some? && fc.d.newPub == Pub(base.key.value)
    ensures RecoveredLedger(base, fc, ids, certs, suffix).Good() <==> HandedOver(base, fc).Good()
  {
    var v := HandedOver(base, fc);
    var w := IssueAll(v, ids, suffix);
    var x := RevokeAll(w, certs);
    IssueAllGood(v, ids, suffix);
    RevokeAllGood(w, certs);
    var payload := CommitPayload(fc.d.epoch, fc.d.checkpoint, fc.d.newPub);
    if v.Good() {
      AppendedReady(x, Commit, payload, 0);
    }
    if x.Appended(Commit, payload, 0).Good() {
      AppendedGood(x, Commit, payload);
    }
  }

  /** The council's handoff verifies on a fork exactly when the fork itself does, the council is
      the fork's trust anchor, and the descriptor names the fork's head. */
  lemma HandoffGood(base: Ledger, fc: FrostCommit, group: PubKey)
    requires base.key.Some? && fc.d.newPub == Pub(base.key.value) && fc.Valid(group, 1)
    ensures HandedOver(base, fc).Good()
       <==> base.Good() && base.council == Some(group) && group.Pub? && fc.d.checkpoint == base.Head()
  {
    var e := base.Next(Recovery, HandoffPayload(fc), 0);
    VerifiesGrow(base.events, e, base.Start(), base.council, base.algo);
    assert (base.events + [e])[..|base.events|] == base.events;
  }

  /** No event of the bad region repeats the checkpoint event. */
  predicate NoCopy(events: Link, badIdx: nat)
    requires 0 < badIdx <= |events|
  {
    forall j :: badIdx <= j < |events| ==> events[j] != events[badIdx - 1]
  }

  /** When a rolled-back prefix verifies on its own. */
  lemma RolledBackGood(v: Ledger, badIdx: nat, newRoot: nat)
    requires 0 < badIdx <= |v.events| && Verifies(v.events, v.Start(), v.council, v.algo, badIdx)
    ensures Rerooted(v, badIdx, newRoot).Good()
       <==> NoCopy(v.events, badIdx) && (v.After(badIdx) == v.Start() || v.events[0].body.typ == Recovery)
    ensures Rerooted(v, badIdx, newRoot).Head() == Some(DigestOf(v.algo, v.events[badIdx - 1]))
  {
    var base, cut := Rerooted(v, badIdx, newRoot), CutAt(v.events, badIdx);
    assert base.events == v.events[..cut];
    LastAtExactly(v.events, badIdx - 1);
    if cut == badIdx {
      assert base.events[..cut] == v.events[..cut];
      VerifiesPrefix(v.events, base.events, v.Start(), v.council, v.algo, cut);
      StartMatters(base.events, v.Start(), v.After(cut), v.council, v.algo);
    } else if base.Good() {
      NoRepeat(base.events, base.Start(), base.council, base.algo, badIdx - 1, cut - 1);
    }
  }

  /** The timeline Recover returns verifies exactly when the council is the timeline's trust
      anchor and, unless it recovers from genesis, the chain links by SHA-256, the bad region
      does not repeat the checkpoint event, and the key after the prefix is the start key again
      (or the chain opens with a recovery). */
  lemma RecoveredVerifiesExactly(v: Ledger, badIdx: nat, newRoot: nat, fc: FrostCommit, group: PubKey,
                                 ids: seq<string>, certs: seq<string>, suffix: string)
    requires badIdx <= |v.events| && RolledBack(v, badIdx).Some?
    requires Verifies(v.events, v.Start(), v.council, v.algo, badIdx)
    requires fc.Valid(group, 1) && fc.d.newPub == Pub(newRoot) && fc.d.checkpoint == CheckpointOf(v.events, badIdx)
    ensures RecoveredLedger(Rerooted(v, badIdx, newRoot), fc, ids, certs, suffix).Good()
       <==> && v.council == Some(group) && group.Pub?
            && (badIdx > 0 ==> && v.algo == Sha256 && NoCopy(v.events, badIdx)
                               && (v.After(badIdx) == v.Start() || v.events[0].body.typ == Recovery))
  {
    var base := Rerooted(v, badIdx, newRoot);
    TailGood(base, fc, ids, certs, suffix);
    HandoffGood(base, fc, group);
    if badIdx > 0 {
      RolledBackGood(v, badIdx, newRoot);
    }
  }

  /** For instance: one rotation before the bad index, and the recovered timeline fails. */
  lemma RotatedPrefixFails(fc: FrostCommit, group: PubKey, ids: seq<string>, certs: seq<string>, suffix: string)
    requires fc.Valid(group, 1) && fc.d.newPub == Pub(3)
    requires fc.d.checkpoint == CheckpointOf(NewLedger(1, Sha256).Rotated(2, 0).events, 1)
    ensures var v := NewLedger(1, Sha256).Rotated(2, 0).(council := Some(group));
            && Verifies(v.events, v.Start(), v.council, v.algo, 1) && RolledBack(v, 1).Some?
            && !RecoveredLedger(Rerooted(v, 1, 3), fc, ids, certs, suffix).Good()
  {
    var u := NewLedger(1, Sha256);
    AppendedReady(u, KeyRotate, RotatePayload(Pub(2)), 0);
    var v := u.Rotated(2, 0).(council := Some(group));
    CouncilIrrelevant(v.events, v.Start(), None, v.council, v.algo);
    assert v.After(0) == Pub(1) && v.After(1) == Pub(2);
    RecoveredVerifiesExactly(v, 1, 3, fc, group, ids, certs, suffix);
  }

  /** And on a dual-hash chain every recovery with a prefix fails: the checkpoint is a SHA-256 hash. */
  lemma DualPrefixFails(v: Ledger, badIdx: nat, newRoot: nat, fc: FrostCommit, group: PubKey,
                        ids: seq<string>, certs: seq<string>, suffix: string)
    requires v.algo == DualHash && 0 < badIdx <= |v.events|
    requires Verifies(v.events, v.Start(), v.council, v.algo, badIdx)
    requires fc.Valid(group, 1) && fc.d.newPub == Pub(newRoot) && fc.d.checkpoint == CheckpointOf(v.events, badIdx)
    ensures !RecoveredLedger(Rerooted(v, badIdx, newRoot), fc, ids, certs, suffix).Good()
  {
    RecoveredVerifiesExactly(v, badIdx, newRoot, fc, group, ids, certs, suffix);
  }

  // ------------------------------------------------------------------- epochs

  lemma LastEpochGrow(events: Link, e: Event)
    ensures LastEpoch(events + [e]) ==
            if e.body.typ == Commit && EpochOf(e.body.payload) > LastEpoch(events) then EpochOf(e.body.payload)
            else LastEpoch(events)
  {
    assert (events + [e])[..|events|] == events;
  }

  lemma {:induction false} IssueAllEpoch(v: Ledger, ids: seq<string>, suffix: string)
    requires v.key.Some?
    ensures LastEpoch(IssueAll(v, ids, suffix).events) == LastEpoch(v.events)
  {
    if ids != [] {
      var front, id := ids[..|ids| - 1], ids[|ids| - 1];
      IssueAllEpoch(v, front, suffix);
      var w := IssueAll(v, front, suffix);
      LastEpochGrow(w.events, w.Next(Issue, IssuePayload(id + suffix, id, ""), 0));
    }
  }

  lemma {:induction false} RevokeAllEpoch(v: Ledger, certs: seq<string>)
    requires v.key.Some?
    ensures LastEpoch(RevokeAll(v, certs).events) == LastEpoch(v.events)
  {
    if certs != [] {
      var front := certs[..|certs| - 1];
      RevokeAllEpoch(v, front);
      var w := RevokeAll(v, front);
      LastEpochGrow(w.events, w.Next(Revoke, CertPayload(certs[|certs| - 1]), 0));
    }
  }

  lemma BookendsEpoch(v: Ledger, fc: FrostCommit)
    requires v.key.Some?
    ensures LastEpoch(HandedOver(v, fc).events) == LastEpoch(v.events)
    ensures LastEpoch(Sealed(v, fc).events)
          == if fc.d.epoch > LastEpoch(v.events) then fc.d.epoch else LastEpoch(v.events)
  {
    LastEpochGrow(v.events, v.Next(Recovery, HandoffPayload(fc), 0));
    LastEpochGrow(v.events, v.Next(Commit, CommitPayload(fc.d.epoch, fc.d.checkpoint, fc.d.newPub), 0));
  }

  /** The recovered epoch is the committed one unless the prefix held a higher. */
  lemma RecoveredEpoch(base: Ledger, fc: FrostCommit, ids: seq<string>, certs: seq<string>, suffix: string)
    requires base.key.Some?
    ensures LastEpoch(RecoveredLedger(base, fc, ids, certs, suffix).events)
         == if fc.d.epoch > LastEpoch(base.events) then fc.d.epoch else LastEpoch(base.events)
  {
    var v := HandedOver(base, fc);
    var w := IssueAll(v, ids, suffix);
    var x := RevokeAll(w, certs);
    BookendsEpoch(base, fc);
    IssueAllEpoch(v, ids, suffix);
    RevokeAllEpoch(w, certs);
    BookendsEpoch(x, fc);
  }

  lemma PrefixTrans(a: Link, b: Link, c: Link)
    requires a <= b <= c
    ensures a <= c
  {
  }

  /** The recovered timeline extends the handoff. */
  lemma RecoveredExtends(base: Ledger, fc: FrostCommit, ids: seq<string>, certs: seq<string>, suffix: string)
    requires base.key.Some?
    ensures HandedOver(base, fc).events <= RecoveredLedger(base, fc, ids, certs, suffix).events
  {
    var v := HandedOver(base, fc);
    var w := IssueAll(v, ids, suffix);
    var x := RevokeAll(w, certs);
    PrefixTrans(v.events, w.events, x.events);
    PrefixTrans(v.events, x.events, Sealed(x, fc).events);
  }
}
