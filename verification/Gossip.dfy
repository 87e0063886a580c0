// The observer half of ctlog.go: signed tree heads, GossipNode.Observe over whole
// runs, and the gossip handler of api.go, which rebuilds the node on every request.

module Gossip {
  import opened Wrappers
  import opened MerkleTree
  import opened CtVerify

  /** A signature is idealised as the statement it signs and the key that signed it. */
  datatype Signature = Signed(key: nat, treeSize: nat, timestamp: int, root: Option<Digest>) | Unsigned

  datatype SignedTreeHead = SignedTreeHead(treeSize: nat, timestamp: int, root: Option<Digest>, signature: Signature)
  {
    predicate Verifies(pub: nat) {
      signature == Signed(pub, treeSize, timestamp, root)
    }

    /** The head commits to this list of leaves. */
    predicate HeadOf(leaves: seq<Digest>) {
      |leaves| == treeSize && root == RootOf(leaves)
    }
  }

  function SignSTH(key: nat, root: Option<Digest>, size: nat, ts: int): (sth: SignedTreeHead)
    ensures forall pub :: sth.Verifies(pub) <==> pub == key
  {
    SignedTreeHead(size, ts, root, Signed(key, size, ts, root))
  }

  /** A signature is good for one head: a head altered in any field fails under every key. */
  lemma AlteredHeadFails(sth: SignedTreeHead, altered: SignedTreeHead, pub: nat, other: nat)
    requires sth.Verifies(pub) && altered.signature == sth.signature && altered != sth
    ensures !altered.Verifies(other)
  {
  }

  datatype Alarm = Healthy | SplitBrain | WrongProofStart | Rewrite

  datatype Report = Report(sth: Option<SignedTreeHead>, proof: seq<Digest>, proofFrom: int)

  datatype Verdict = Verdict(accepted: bool, alarm: Alarm)

  /** The head and the verdict after one report. */
  function Step(pub: nat, trusted: Option<SignedTreeHead>, r: Report): (Option<SignedTreeHead>, Verdict) {
    if r.sth.None? || !r.sth.value.Verifies(pub) then (trusted, Verdict(false, Healthy))
    else if trusted.None? || trusted.value.treeSize == 0 then (r.sth, Verdict(true, Healthy))
    else
      var sth, t := r.sth.value, trusted.value;
      if sth.treeSize < t.treeSize then (trusted, Verdict(true, Healthy))
      else if sth.treeSize == t.treeSize then
        (trusted, if sth.root != t.root then Verdict(false, SplitBrain) else Verdict(true, Healthy))
      else if r.proofFrom != t.treeSize then (trusted, Verdict(false, WrongProofStart))
      else if !Accepts(t.root, sth.root, t.treeSize, sth.treeSize, r.proof) then (trusted, Verdict(false, Rewrite))
      else (r.sth, Verdict(true, Healthy))
  }

  /** The trusted head after a run of reports. */
  function Run(pub: nat, trusted: Option<SignedTreeHead>, reports: seq<Report>): Option<SignedTreeHead> {
    if reports == [] then trusted
    else Step(pub, Run(pub, trusted, reports[..|reports| - 1]), reports[|reports| - 1]).0
  }

  class GossipNode {
    const pub: nat
    var trusted: Option<SignedTreeHead>
    var alarm: Alarm

    constructor (pub: nat, trusted: Option<SignedTreeHead>)
      ensures this.pub == pub && this.trusted == trusted && alarm == Healthy
    {
      this.pub, this.trusted, alarm := pub, trusted, Healthy;
    }

    method Observe(r: Report) returns (accepted: bool)
      modifies this
      ensures (trusted, Verdict(accepted, alarm)) == Step(pub, old(trusted), r)
    {
      alarm := Healthy;
      if r.sth.None? || !r.sth.value.Verifies(pub) {
        return false;
      }
      var sth := r.sth.value;
      if trusted.None? || trusted.value.treeSize == 0 {
        trusted := r.sth;
        return true;
      }
      if sth.treeSize < trusted.value.treeSize {
        return true;
      }
      if sth.treeSize == trusted.value.treeSize {
        if sth.root != trusted.value.root {
          alarm := SplitBrain;
          return false;
        }
        return true;
      }
      if r.proofFrom != trusted.value.treeSize {
        alarm := WrongProofStart;
        return false;
      }
      var ok := VerifyConsistency(trusted.value.root, sth.root, trusted.value.treeSize, sth.treeSize, r.proof);
      if !ok {
        alarm := Rewrite;
        return false;
      }
      trusted := r.sth;
      return true;
    }
  }

  // ------------------------------------------------------------ safety of runs

  /** Every head the log key signed in the run is the root of some list of its size. */
  ghost predicate Grounded(pub: nat, reports: seq<Report>) {
    forall k :: 0 <= k < |reports| && reports[k].sth.Some? && reports[k].sth.value.Verifies(pub)
      ==> exists leaves :: reports[k].sth.value.HeadOf(leaves)
  }

  /** A head commits to at most one list. */
  lemma OneList(sth: SignedTreeHead, a: seq<Digest>, b: seq<Digest>)
    requires sth.HeadOf(a) && sth.HeadOf(b)
    ensures a == b
  {
    if a != [] {
      MthInjective(a, b, 0, |a|);
    }
  }

  /** One step adopts only a list that extends the trusted one. */
  lemma StepExtends(pub: nat, trusted: SignedTreeHead, r: Report, a: seq<Digest>, b: seq<Digest>)
    requires trusted.treeSize > 0 && trusted.HeadOf(a)
    requires Step(pub, Some(trusted), r).0.value.HeadOf(b)
    ensures a <= b
  {
    if Step(pub, Some(trusted), r).0 == Some(trusted) {
      OneList(trusted, a, b);
    } else {
      AcceptsExact(a, b, r.proof);
    }
  }

  /** The verdict on a signed head of list b when the head of list a is trusted. A shorter list is stale. Any other is
      accepted exactly when it extends a and, if longer, comes with the log's own proof from |a|; a longer one is then
      trusted. Everything else alarms and leaves the trusted head. */
  lemma VerdictExactly(pub: nat, trusted: SignedTreeHead, r: Report, a: seq<Digest>, b: seq<Digest>)
    requires trusted.HeadOf(a) && a != [] && r.sth.Some? && r.sth.value.HeadOf(b)
    requires r.sth.value.signature == Signed(pub, |b|, r.sth.value.timestamp, RootOf(b))
    ensures var (head, verdict) := Step(pub, Some(trusted), r);
            if |b| < |a| then head == Some(trusted) && verdict == Verdict(true, Healthy)
            else if |b| == |a| then
              head == Some(trusted)
              && verdict == (if a == b then Verdict(true, Healthy) else Verdict(false, SplitBrain))
            else if r.proofFrom != |a| then head == Some(trusted) && verdict == Verdict(false, WrongProofStart)
            else if a <= b && r.proof == ConsPath(b, 0, |b|, |a|, true) then
              head == r.sth && verdict == Verdict(true, Healthy)
            else head == Some(trusted) && verdict == Verdict(false, Rewrite)
  {
    if |b| == |a| {
      if RootOf(a) == RootOf(b) {
        OneList(trusted, a, b);
      }
    } else if |b| > |a| {
      AcceptsExact(a, b, r.proof);
    }
  }

  /** A head that the log key did not sign changes nothing and is no alarm; the first signed head is trusted. */
  lemma FirstVerdict(pub: nat, trusted: Option<SignedTreeHead>, r: Report)
    ensures r.sth.None? || r.sth.value.signature != Signed(pub, r.sth.value.treeSize, r.sth.value.timestamp,
                                                           r.sth.value.root) ==>
              Step(pub, trusted, r) == (trusted, Verdict(false, Healthy))
    ensures r.sth.Some? && r.sth.value.signature == Signed(pub, r.sth.value.treeSize, r.sth.value.timestamp,
                                                           r.sth.value.root)
            && (trusted.None? || trusted.value.treeSize == 0) ==>
              Step(pub, trusted, r) == (r.sth, Verdict(true, Healthy))
  {
  }

  ghost predicate GroundedHead(h: Option<SignedTreeHead>) {
    h.Some? ==> exists leaves :: h.value.HeadOf(leaves)
  }

  lemma {:induction false} RunGrounded(pub: nat, h: Option<SignedTreeHead>, reports: seq<Report>)
    requires Grounded(pub, reports) && GroundedHead(h)
    ensures GroundedHead(Run(pub, h, reports))
    ensures h.Some? ==> Run(pub, h, reports).Some?
  {
    if reports != [] {
      RunGrounded(pub, h, reports[..|reports| - 1]);
    }
  }

  /** Over every run: once positive, the trusted size never falls, and the list trusted at any later
      point extends the list trusted at any earlier point. */
  lemma {:induction false} TrustOnlyExtends(pub: nat, h: Option<SignedTreeHead>, reports: seq<Report>, i: nat,
                                            a: seq<Digest>, b: seq<Digest>)
    requires Grounded(pub, reports) && GroundedHead(h) && i <= |reports|
    requires var early := Run(pub, h, reports[..i]);
             early.Some? && early.value.treeSize > 0 && early.value.HeadOf(a)
    requires var late := Run(pub, h, reports); late.Some? && late.value.HeadOf(b)
    ensures |a| <= |b| && a <= b
    decreases |reports|
  {
    if i == |reports| {
      assert reports[..i] == reports;
      OneList(Run(pub, h, reports).value, a, b);
    } else {
      var before, last := reports[..|reports| - 1], reports[|reports| - 1];
      assert before[..i] == reports[..i];
      RunGrounded(pub, h, before);
      RunSome(pub, h, before, i);
      var mid := Run(pub, h, before).value;
      var m :| mid.HeadOf(m);
      TrustOnlyExtends(pub, h, before, i, a, m);
      StepExtends(pub, mid, last, m, b);
    }
  }

  lemma {:induction false} RunSome(pub: nat, h: Option<SignedTreeHead>, reports: seq<Report>, i: nat)
    requires i <= |reports| && Run(pub, h, reports[..i]).Some?
    ensures Run(pub, h, reports).Some?
    decreases |reports|
  {
    if i == |reports| {
      assert reports[..i] == reports;
    } else {
      assert reports[..|reports| - 1][..i] == reports[..i];
      RunSome(pub, h, reports[..|reports| - 1], i);
    }
  }

  // ---------------------------------------------------------- no false alarms

  /** A report of one growing log: its head at some size, with the log's own proof from the
      current trusted size. Reports the log key did not sign are allowed too. */
  predicate FromLog(pub: nat, log: seq<Digest>, trusted: Option<SignedTreeHead>, r: Report) {
    r.sth.Some? && r.sth.value.Verifies(pub) ==>
      var sth := r.sth.value;
      && sth.treeSize <= |log| && sth.HeadOf(log[..sth.treeSize])
      && (trusted.Some? && 0 < trusted.value.treeSize < sth.treeSize ==>
            && r.proofFrom == trusted.value.treeSize
            && r.proof == ConsPath(log[..sth.treeSize], 0, sth.treeSize, trusted.value.treeSize, true))
  }

  predicate HeadIn(log: seq<Digest>, h: Option<SignedTreeHead>) {
    h.Some? ==> h.value.treeSize <= |log| && h.value.HeadOf(log[..h.value.treeSize])
  }

  lemma HonestStep(pub: nat, log: seq<Digest>, h: Option<SignedTreeHead>, r: Report)
    requires HeadIn(log, h) && FromLog(pub, log, h, r)
    ensures Step(pub, h, r).1.alarm == Healthy && HeadIn(log, Step(pub, h, r).0)
    ensures r.sth.Some? && r.sth.value.Verifies(pub) ==> Step(pub, h, r).1.accepted
  {
    if h.Some? && r.sth.Some? && r.sth.value.Verifies(pub) {
      var n, m := h.value.treeSize, r.sth.value.treeSize;
      if 0 < n < m {
        assert log[..m][..n] == log[..n];
        AcceptsExact(log[..n], log[..m], r.proof);
      }
    }
  }

  /** Report k comes from the log, for the head trusted when it arrives. */
  ghost predicate HonestAt(pub: nat, log: seq<Digest>, h: Option<SignedTreeHead>, reports: seq<Report>, k: nat)
    requires k < |reports|
  {
    FromLog(pub, log, Run(pub, h, reports[..k]), reports[k])
  }

  predicate HealthyAt(pub: nat, h: Option<SignedTreeHead>, reports: seq<Report>, k: nat)
    requires k < |reports|
  {
    Step(pub, Run(pub, h, reports[..k]), reports[k]).1.alarm == Healthy
  }

  /** A run fed only by one growing log never alarms, at any of its steps. */
  lemma {:induction false} HonestRun(pub: nat, log: seq<Digest>, h: Option<SignedTreeHead>, reports: seq<Report>)
    requires HeadIn(log, h)
    requires forall k :: 0 <= k < |reports| ==> HonestAt(pub, log, h, reports, k)
    ensures HeadIn(log, Run(pub, h, reports))
    ensures forall k :: 0 <= k < |reports| ==> HealthyAt(pub, h, reports, k)
  {
    if reports != [] {
      var before := reports[..|reports| - 1];
      forall k | 0 <= k < |before| ensures HonestAt(pub, log, h, before, k) {
        assert HonestAt(pub, log, h, reports, k) && reports[..k] == before[..k];
      }
      HonestRun(pub, log, h, before);
      assert HonestAt(pub, log, h, reports, |before|);
      HonestStep(pub, log, Run(pub, h, before), reports[|reports| - 1]);
      forall k | 0 <= k < |reports| ensures HealthyAt(pub, h, reports, k) {
        if k < |before| {
          assert HealthyAt(pub, h, before, k) && before[..k] == reports[..k];
        }
      }
    }
  }

  // -------------------------------------------------------------- the handler

  /** The tenant's stored head: api.go keeps no signature and starts at size 0 with no root. */
  class CtTenant {
    var ctSize: nat
    var ctRoot: Option<Digest>

    constructor ()
      ensures ctSize == 0 && ctRoot == None
    {
      ctSize, ctRoot := 0, None;
    }

    method HandleGossip(pub: nat, r: Report) returns (v: Verdict)
      modifies this
      ensures ((ctSize, ctRoot), v) == HandlerStep(pub, (old(ctSize), old(ctRoot)), r)
    {
      var node := new GossipNode(pub, Some(SignedTreeHead(ctSize, 0, ctRoot, Unsigned)));
      var accepted := node.Observe(r);
      if accepted && r.sth.value.treeSize > ctSize {
        ctSize, ctRoot := r.sth.value.treeSize, r.sth.value.root;
      }
      v := Verdict(accepted, node.alarm);
    }
  }

  function HandlerStep(pub: nat, head: (nat, Option<Digest>), r: Report): ((nat, Option<Digest>), Verdict) {
    var v := Step(pub, Some(SignedTreeHead(head.0, 0, head.1, Unsigned)), r).1;
    (if v.accepted && r.sth.value.treeSize > head.0 then (r.sth.value.treeSize, r.sth.value.root) else head, v)
  }

  function HandlerRun(pub: nat, reports: seq<Report>): (nat, Option<Digest>) {
    if reports == [] then (0, None)
    else HandlerStep(pub, HandlerRun(pub, reports[..|reports| - 1]), reports[|reports| - 1]).0
  }

  /** What a head says: before any entry is trusted, nothing. */
  function HeadValue(h: Option<SignedTreeHead>): (nat, Option<Digest>) {
    if h.None? || h.value.treeSize == 0 then (0, None) else (h.value.treeSize, h.value.root)
  }

  /** Rebuilding the node from (ctSize, ctRoot) on every request is the same as one long-lived node:
      the same trusted head after every run, and the same verdict on the next report. */
  lemma {:induction false} HandlerIsLongLivedNode(pub: nat, reports: seq<Report>, next: Report)
    ensures HandlerRun(pub, reports) == HeadValue(Run(pub, None, reports))
    ensures HandlerStep(pub, HandlerRun(pub, reports), next).1 == Step(pub, Run(pub, None, reports), next).1
  {
    if reports != [] {
      HandlerIsLongLivedNode(pub, reports[..|reports| - 1], reports[|reports| - 1]);
    }
  }
}
