// One organisation's timeline behind the API (api.go): the appends of issue, revoke and
// detection, and the gate that adopts a recovery fork in place of the current chain.

module Adoption {
  import opened Wrappers
  import opened Events
  import opened Chains
  import opened Timelines
  import opened Recoveries
  import opened Councils

  const QUORUM := 3

  /** The submitted timeline: absent, not a timeline, or parsed. */
  datatype Upload = Missing | Unparsable | Parsed(v: Ledger)

  datatype Request =
    | IssueReq(certId: string, identity: string, via: string, ts: int)
    | RevokeReq(certId: string, ts: int)
    | VerdictReq(detected: bool, minBad: int, ts: int)
    | RecoverReq(fork: Upload, commit: Option<FrostCommit>)

  datatype Reply = Accepted | Refused(code: nat)

  type Counters = map<string, nat>

  function CountOf(c: Counters, name: string): nat {
    if name in c then c[name] else 0
  }

  function Bump(c: Counters, name: string): Counters {
    c[name := CountOf(c, name) + 1]
  }

  /** An organisation at one moment. */
  datatype Org = Org(ledger: Ledger, detected: bool, counters: Counters)

  /** The index of the first RECOVERY event, or the length when there is none. */
  function FirstRecovery(events: Link): (n: nat)
    ensures n <= |events|
    ensures forall i :: 0 <= i < n ==> events[i].body.typ != Recovery
    ensures n < |events| ==> events[n].body.typ == Recovery
  {
    if events == [] then 0
    else
      var n := FirstRecovery(events[..|events| - 1]);
      if n == |events| - 1 && events[n].body.typ != Recovery then n + 1 else n
  }

  /** When the gate adopts a fork: the submitted commit is a handoff of the store's council, the fork
      verifies under the trust anchor in its own upload, its events before the first handoff are this
      chain's own, and its epoch advances. The commit is not compared with the fork. */
  predicate Adoptable(cur: Link, council: Option<PubKey>, fork: Ledger, commit: FrostCommit) {
    && council.Some? && council.value.Pub? && commit.Valid(council.value, QUORUM) && fork.Good()
    && var idx := FirstRecovery(fork.events);
       idx < |fork.events| && idx <= |cur| && fork.events[..idx] == cur[..idx]
       && LastEpoch(fork.events) > LastEpoch(cur)
  }

  predicate Adopts(o: Org, council: Option<PubKey>, req: Request) {
    req.RecoverReq? && req.fork.Parsed? && req.commit.Some?
    && Adoptable(o.ledger.events, council, req.fork.v, req.commit.value)
  }

  /** An append that fails leaves the organisation alone. */
  function Appending(o: Org, typ: EventType, payload: Payload, ts: int, name: string): Org {
    if o.ledger.key.None? then o
    else o.(ledger := o.ledger.Appended(typ, payload, ts), counters := Bump(Bump(o.counters, name), "events"))
  }

  function Handle(o: Org, council: Option<PubKey>, req: Request): Org {
    match req
    case IssueReq(c, i, via, ts) =>
      if c == "" || i == "" then o else Appending(o, Issue, IssuePayload(c, i, via), ts, "issues")
    case RevokeReq(c, ts) =>
      if c == "" then o else Appending(o, Revoke, CertPayload(c), ts, "revokes")
    case VerdictReq(detected, minBad, ts) =>
      if !detected then o.(detected := false)
      else if o.detected then o
      else
        var bad := if minBad < 0 then |o.ledger.events| else minBad;
        Org(o.ledger.Appended(Detected, EvidencePayload(bad), ts), true, Bump(Bump(o.counters, "detections"), "events"))
    case RecoverReq(_, _) =>
      if Adopts(o, council, req) then Org(req.fork.v, false, Bump(o.counters, "recoveries")) else o
  }

  class Tenant {
    var tl: Timeline
    var detected: bool
    var counters: Counters

    constructor (tl: Timeline)
      ensures this.tl == tl && View() == Org(tl.View(), false, map[])
    {
      this.tl, detected, counters := tl, false, map[];
    }

    function View(): Org
      reads this, tl
    {
      Org(tl.View(), detected, counters)
    }

    method AppendCounted(typ: EventType, payload: Payload, ts: int, name: string) returns (ok: bool)
      modifies this`counters, tl`events
      ensures View() == Appending(old(View()), typ, payload, ts, name)
      ensures ok <==> tl.key.Some?
    {
      var h := tl.Append(typ, payload, ts);
      if h.Err? {
        return false;
      }
      counters := Bump(Bump(counters, name), "events");
      return true;
    }

    method HandleIssue(req: Request, council: Option<PubKey>) returns (r: Reply)
      requires req.IssueReq?
      modifies this`counters, tl`events
      ensures View() == Handle(old(View()), council, req)
      ensures r.Accepted? <==> req.certId != "" && req.identity != "" && tl.key.Some?
      ensures r.Accepted? ==>
                && |tl.events| == |old(tl.events)| + 1 && old(tl.events) <= tl.events
                && var e := tl.events[|old(tl.events)|].body;
                   e.typ == Issue && e.payload == IssuePayload(req.certId, req.identity, req.via) && e.ts == req.ts
      ensures r.Refused? ==> tl.events == old(tl.events) && counters == old(counters)
      ensures counters.Keys == old(counters.Keys) + if r.Accepted? then {"issues", "events"} else {}
      ensures forall n <- counters.Keys ::
                counters[n] == (if n in old(counters) then old(counters)[n] else 0)
                               + if r.Accepted? && n in {"issues", "events"} then 1 else 0
    {
      if req.certId == "" || req.identity == "" {
        return Refused(400);
      }
      var ok := AppendCounted(Issue, IssuePayload(req.certId, req.identity, req.via), req.ts, "issues");
      return if ok then Accepted else Refused(500);
    }

    method HandleRevoke(req: Request, council: Option<PubKey>) returns (r: Reply)
      requires req.RevokeReq?
      modifies this`counters, tl`events
      ensures View() == Handle(old(View()), council, req)
      ensures r.Accepted? <==> req.certId != "" && tl.key.Some?
      ensures r.Accepted? ==>
                && |tl.events| == |old(tl.events)| + 1 && old(tl.events) <= tl.events
                && var e := tl.events[|old(tl.events)|].body;
                   e.typ == Revoke && e.payload == CertPayload(req.certId) && e.ts == req.ts
      ensures r.Refused? ==> tl.events == old(tl.events) && counters == old(counters)
      ensures counters.Keys == old(counters.Keys) + if r.Accepted? then {"revokes", "events"} else {}
      ensures forall n <- counters.Keys ::
                counters[n] == (if n in old(counters) then old(counters)[n] else 0)
                               + if r.Accepted? && n in {"revokes", "events"} then 1 else 0
    {
      if req.certId == "" {
        return Refused(400);
      }
      var ok := AppendCounted(Revoke, CertPayload(req.certId), req.ts, "revokes");
      return if ok then Accepted else Refused(500);
    }

    /** One fleet verdict: evidence is appended on the rising edge alone. */
    method Watch(req: Request, council: Option<PubKey>)
      requires req.VerdictReq?
      modifies this`counters, this`detected, tl`events
      ensures View() == Handle(old(View()), council, req)
      ensures detected == req.detected
      ensures req.detected && !old(detected) && tl.key.Some? ==>
                && |tl.events| == |old(tl.events)| + 1 && old(tl.events) <= tl.events
                && var e := tl.events[|old(tl.events)|].body;
                   e.typ == Detected && e.ts == req.ts
                   && e.payload == EvidencePayload(if req.minBad < 0 then |old(tl.events)| else req.minBad)
      ensures !req.detected || old(detected) || tl.key.None? ==> tl.events == old(tl.events)
      ensures counters.Keys == old(counters.Keys)
                               + if req.detected && !old(detected) then {"detections", "events"} else {}
      ensures forall n <- counters.Keys ::
                counters[n] == (if n in old(counters) then old(counters)[n] else 0)
                               + if req.detected && !old(detected) && n in {"detections", "events"} then 1 else 0
    {
      if req.detected && !detected {
        var bad := if req.minBad < 0 then |tl.events| else req.minBad;
        var _ := tl.Append(Detected, EvidencePayload(bad), req.ts);
        detected := true;
        counters := Bump(Bump(counters, "detections"), "events");
      } else if !req.detected {
        detected := false;
      }
    }

    method HandleRecover(req: Request, council: Option<PubKey>) returns (r: Reply)
      requires req.RecoverReq?
      modifies this
      ensures View() == Handle(old(View()), council, req)
      ensures r.Accepted? <==> Adopts(old(View()), council, req)
      ensures r.Accepted? <==>
                && council.Some? && council.value.Pub? && req.commit.Some? && req.fork.Parsed?
                && var c, fork := req.commit.value, req.fork.v.events;
                   && c.sig == Signed(council.value, HandoffMsg(c.d)) && |c.members| >= 3 && c.d.newPub.Pub?
                   && req.fork.v.Good() && LastEpoch(fork) > LastEpoch(old(tl.events))
                   && exists i :: 0 <= i < |fork| && fork[i].body.typ == Recovery && i <= |old(tl.events)|
                                  && (forall j :: 0 <= j < i ==> fork[j].body.typ != Recovery)
                                  && fork[..i] == old(tl.events)[..i]
      ensures r.Accepted? ==> tl.View() == req.fork.v && !detected
      ensures r.Refused? ==> View() == old(View())
      ensures counters.Keys == old(counters.Keys) + if r.Accepted? then {"recoveries"} else {}
      ensures forall n <- counters.Keys ::
                counters[n] == (if n in old(counters) then old(counters)[n] else 0)
                               + if r.Accepted? && n in {"recoveries"} then 1 else 0
      ensures r.Refused? ==> tl == old(tl) && r.code == if req.fork.Missing? || req.commit.None? then 400 else 422
    {
      if req.commit.None? || req.fork.Missing? {
        return Refused(400);
      }
      if council.None? || !council.value.Pub? {
        return Refused(422);
      }
      if !req.commit.value.Valid(council.value, QUORUM) {
        return Refused(422);
      }
      if req.fork.Unparsable? {
        return Refused(422);
      }
      var fork := new Timeline.Of(req.fork.v);
      var ok := fork.Verify();
      if !ok {
        return Refused(422);
      }
      var descends := Descends(fork.events, tl.events);
      if !descends {
        return Refused(422);
      }
      var next := ScanLastEpoch(fork.events);
      var now := ScanLastEpoch(tl.events);
      if next <= now {
        return Refused(422);
      }
      tl := fork;
      detected := false;
      counters := Bump(counters, "recoveries");
      return Accepted;
    }

    /** The fork has a handoff, and the events before the first one are the current chain's, compared by hash. */
    method Descends(fork: Link, cur: Link) returns (ok: bool)
      ensures ok <==> var idx := FirstRecovery(fork);
                      idx < |fork| && idx <= |cur| && fork[..idx] == cur[..idx]
    {
      var idx := -1;
      var n := 0;
      while n < |fork| && idx < 0
        invariant n <= |fork|
        invariant idx < 0 ==> forall i :: 0 <= i < n ==> fork[i].body.typ != Recovery
        invariant idx >= 0 ==> idx == FirstRecovery(fork) < |fork|
        decreases |fork| - n, if idx < 0 then 1 else 0
      {
        if fork[n].body.typ == Recovery {
          idx := n;
        } else {
          n := n + 1;
        }
      }
      if idx < 0 || |cur| < idx {
        return false;
      }
      for i := 0 to idx
        invariant fork[..i] == cur[..i]
      {
        if HashOf(cur[i]) != HashOf(fork[i]) {
          assert fork[..idx][i] != cur[..idx][i];
          return false;
        }
        assert fork[..i + 1] == fork[..i] + [fork[i]] && cur[..i + 1] == cur[..i] + [cur[i]];
      }
      return true;
    }
  }

  /** After an accepted revocation the certificate, if the chain knows it, is revoked, and no other one changes. */
  lemma RevocationTakesHold(o: Org, council: Option<PubKey>, c: string, ts: int, id: string)
    requires c != "" && o.ledger.key.Some?
    ensures var before, after := FoldOf(o.ledger.events), FoldOf(Handle(o, council, RevokeReq(c, ts)).ledger.events);
            && before.Keys == after.Keys
            && (id in before ==> after[id] == Cert(before[id].identity, before[id].revoked || id == c))
  {
    FoldGrow(o.ledger.events, o.ledger.Next(Revoke, CertPayload(c), ts));
  }

  /** After an accepted issuance the certificate is good for that identity, unless it was revoked before; no other one
      changes. */
  lemma IssuanceTakesHold(o: Org, council: Option<PubKey>, c: string, identity: string, via: string, ts: int,
                          id: string)
    requires c != "" && identity != "" && o.ledger.key.Some?
    ensures var before := FoldOf(o.ledger.events);
            var after := FoldOf(Handle(o, council, IssueReq(c, identity, via, ts)).ledger.events);
            && after.Keys == before.Keys + {c}
            && (id in after ==>
                  var kept := id != c || (c in before && before[c].revoked);
                  after[id] == if kept then before[id] else Cert(identity, false))
  {
    FoldGrow(o.ledger.events, o.ledger.Next(Issue, IssuePayload(c, identity, via), ts));
  }

  // -------------------------------------------------------------------- runs

  /** An organisation after a sequence of requests, in the order the lock let them through. */
  function Serve(o: Org, council: Option<PubKey>, reqs: seq<Request>): Org {
    if reqs == [] then o else Handle(Serve(o, council, reqs[..|reqs| - 1]), council, reqs[|reqs| - 1])
  }

  function Adoptions(o: Org, council: Option<PubKey>, reqs: seq<Request>): nat {
    if reqs == [] then 0
    else
      var front := reqs[..|reqs| - 1];
      Adoptions(o, council, front) + (if Adopts(Serve(o, council, front), council, reqs[|reqs| - 1]) then 1 else 0)
  }

  /** How many of the leading events survive: each adoption may replace all but its shared prefix. */
  function Surviving(o: Org, council: Option<PubKey>, reqs: seq<Request>): nat {
    if reqs == [] then |o.ledger.events|
    else
      var front, req := reqs[..|reqs| - 1], reqs[|reqs| - 1];
      var n := Surviving(o, council, front);
      if Adopts(Serve(o, council, front), council, req) && FirstRecovery(req.fork.v.events) < n
      then FirstRecovery(req.fork.v.events) else n
  }

  /** An adopted chain is the previous one before its first RECOVERY; any other request extends
      the chain by at most one event, and only an adoption changes the epoch, upwards. */
  lemma HandleKeeps(o: Org, council: Option<PubKey>, req: Request)
    ensures var a, b := o.ledger.events, Handle(o, council, req).ledger.events;
            if Adopts(o, council, req)
            then var n := FirstRecovery(b); n < |b| && n <= |a| && b[..n] == a[..n] && LastEpoch(b) > LastEpoch(a)
            else a <= b && |b| <= |a| + 1 && LastEpoch(b) == LastEpoch(a)
  {
    var a, b := o.ledger.events, Handle(o, council, req).ledger.events;
    if |b| == |a| + 1 && !Adopts(o, council, req) {
      LastEpochGrow(a, b[|a|]);
    }
  }

  /** Over every interleaving the epoch never falls, and each adoption raises it. */
  lemma {:induction false} EpochsRise(o: Org, council: Option<PubKey>, reqs: seq<Request>)
    ensures LastEpoch(Serve(o, council, reqs).ledger.events) >= LastEpoch(o.ledger.events) + Adoptions(o, council, reqs)
  {
    if reqs != [] {
      var front := reqs[..|reqs| - 1];
      EpochsRise(o, council, front);
      HandleKeeps(Serve(o, council, front), council, reqs[|reqs| - 1]);
    }
  }

  lemma {:induction false} PrefixSurvives(o: Org, council: Option<PubKey>, reqs: seq<Request>)
    ensures var n, b := Surviving(o, council, reqs), Serve(o, council, reqs).ledger.events;
            n <= |o.ledger.events| && n <= |b| && b[..n] == o.ledger.events[..n]
  {
    if reqs != [] {
      var front, req := reqs[..|reqs| - 1], reqs[|reqs| - 1];
      PrefixSurvives(o, council, front);
      var mid := Serve(o, council, front);
      HandleKeeps(mid, council, req);
      var m, n, b := Surviving(o, council, front), Surviving(o, council, reqs), Handle(mid, council, req).ledger.events;
      SharedPrefix(mid.ledger.events, o.ledger.events, m, n);
      if Adopts(mid, council, req) {
        SharedPrefix(b, mid.ledger.events, FirstRecovery(b), n);
      } else {
        SharedPrefix(b, mid.ledger.events, |mid.ledger.events|, n);
      }
    }
  }

  lemma SharedPrefix(a: Link, b: Link, m: nat, n: nat)
    requires n <= m <= |a| && m <= |b| && a[..m] == b[..m]
    ensures a[..n] == b[..n]
  {
    assert a[..n] == a[..m][..n] && b[..n] == b[..m][..n];
  }

  /** A certificate revoked within the surviving prefix stays revoked, for the same identity, over
      every interleaving of issue, revoke, detection and recovery. */
  lemma RevokedForGood(o: Org, council: Option<PubKey>, reqs: seq<Request>, n: nat, id: string)
    requires n <= Surviving(o, council, reqs) && n <= |o.ledger.events|
    requires var s := FoldOf(o.ledger.events[..n]); id in s && s[id].revoked
    ensures var s := FoldOf(Serve(o, council, reqs).ledger.events);
            id in s && s[id] == FoldOf(o.ledger.events[..n])[id]
  {
    PrefixSurvives(o, council, reqs);
    var m, b := Surviving(o, council, reqs), Serve(o, council, reqs).ledger.events;
    SharedPrefix(b, o.ledger.events, m, n);
    RevokedStays(b, n, id);
  }

  // ------------------------------------------------------- who authorised what

  /** The handoff in a RECOVERY event is signed by the council, with at least min members named. */
  predicate AuthorisedBy(e: Event, council: PubKey, min: int) {
    e.body.payload.HandoffPayload? && e.body.payload.fc.Valid(council, min)
  }

  /** A RECOVERY event of an adopted fork carries a handoff of the store's council if and only if the
      upload names that council as its trust anchor (and the event names enough members). */
  lemma AuthorisedExactly(cur: Link, store: PubKey, fork: Ledger, commit: FrostCommit, i: nat, min: int)
    requires Adoptable(cur, Some(store), fork, commit)
    requires i < |fork.events| && fork.events[i].body.typ == Recovery
    ensures fork.events[i].body.payload.HandoffPayload?
    ensures AuthorisedBy(fork.events[i], store, min)
       <==> fork.council == Some(store) && |fork.events[i].body.payload.fc.members| >= min
  {
    assert EventOk(fork.events, fork.Start(), fork.council, fork.algo, i);
  }

  /** A one-event recovery from genesis under some other council, sealed at a later epoch. */
  function OtherFork(cur: Link, other: nat, root: nat): Ledger {
    var base := NewLedger(root, Sha256).(council := Some(Pub(other)));
    Sealed(HandedOver(base, OtherHandoff(cur, other, root)), OtherHandoff(cur, other, root))
  }

  function OtherHandoff(cur: Link, other: nat, root: nat): FrostCommit {
    var d := Descriptor(LastEpoch(cur) + 1, None, LastEpoch(cur), Pub(root), 0);
    FrostCommit(d, Signed(Pub(other), HandoffMsg(d)), ["M1"])
  }

  /** An upload that names another council: whatever the chain, and with any commit the store's council
      ever signed, a fork is adopted whose recovery another key signed. */
  lemma OtherCouncilAdopted(cur: Link, store: PubKey, commit: FrostCommit, other: nat, root: nat)
    requires store.Pub? && commit.Valid(store, QUORUM) && Pub(other) != store
    ensures var fork := OtherFork(cur, other, root);
            && Adoptable(cur, Some(store), fork, commit)
            && fork.events[0].body.typ == Recovery && !AuthorisedBy(fork.events[0], store, 1)
  {
    var base, fc := NewLedger(root, Sha256).(council := Some(Pub(other))), OtherHandoff(cur, other, root);
    var fork := OtherFork(cur, other, root);
    RecoveredIsSealed(base, fc, "");
    TailGood(base, fc, [], [], "");
    HandoffGood(base, fc, Pub(other));
    RecoveredEpoch(base, fc, [], [], "");
    RecoveredExtends(base, fc, [], [], "");
    HandoffIsFirst(base, fc, fork.events);
  }

  lemma RecoveredIsSealed(base: Ledger, fc: FrostCommit, suffix: string)
    ensures RecoveredLedger(base, fc, [], [], suffix) == Sealed(HandedOver(base, fc), fc)
  {
  }

  /** The chain's trust anchor is the store's council, and it authorised every recovery in the chain. */
  predicate Authorised(o: Org, store: PubKey) {
    o.ledger.council == Some(store) && AllAuthorised(o.ledger.events, store)
  }

  predicate AllAuthorised(events: Link, store: PubKey) {
    forall i :: 0 <= i < |events| && events[i].body.typ == Recovery ==> AuthorisedBy(events[i], store, 1)
  }

  /** A request whose upload, if it has one, names the store's council. */
  predicate NamesCouncil(req: Request, store: PubKey) {
    req.RecoverReq? && req.fork.Parsed? ==> req.fork.v.council == Some(store)
  }

  lemma HandleAuthorised(o: Org, store: PubKey, req: Request)
    requires Authorised(o, store)
    ensures NamesCouncil(req, store) ==> Authorised(Handle(o, Some(store), req), store)
    ensures Adopts(o, Some(store), req) && !NamesCouncil(req, store) ==>
              !AllAuthorised(Handle(o, Some(store), req).ledger.events, store)
  {
    if Adopts(o, Some(store), req) {
      var fork := req.fork.v;
      forall i | 0 <= i < |fork.events| && fork.events[i].body.typ == Recovery
        ensures AuthorisedBy(fork.events[i], store, 1) <==> fork.council == Some(store)
      {
        AuthorisedExactly(o.ledger.events, store, fork, req.commit.value, i, 1);
        assert EventOk(fork.events, fork.Start(), fork.council, fork.algo, i);
      }
      assert fork.events[FirstRecovery(fork.events)].body.typ == Recovery;
    }
  }

  /** Over every interleaving in which each upload names the store's council, every RECOVERY event in
      the chain is one the council signed. It may be an old one: see NewlyAuthorisedExactly. */
  lemma {:induction false} OnlyCouncilRecovers(o: Org, store: PubKey, reqs: seq<Request>)
    requires Authorised(o, store) && forall req <- reqs :: NamesCouncil(req, store)
    ensures Authorised(Serve(o, Some(store), reqs), store)
  {
    if reqs != [] {
      var front := reqs[..|reqs| - 1];
      OnlyCouncilRecovers(o, store, front);
      HandleAuthorised(Serve(o, Some(store), front), store, reqs[|reqs| - 1]);
    }
  }

  // ------------------------------------------------------- old and new handoffs

  /** A RECOVERY event whose handoff is for an epoch above the given one. */
  predicate HandoffAbove(e: Event, epoch: int) {
    e.body.typ == Recovery && e.body.payload.HandoffPayload? && e.body.payload.fc.d.epoch > epoch
  }

  predicate SomeHandoffAbove(events: Link, epoch: int) {
    exists i :: 0 <= i < |events| && HandoffAbove(events[i], epoch)
  }

  /** An adoption rests on a handoff the store's council signed for an epoch above any given one, the
      chain's own for instance, if and only if the upload names the council and holds a handoff above it. */
  lemma NewlyAuthorisedExactly(cur: Link, store: PubKey, fork: Ledger, commit: FrostCommit, epoch: int)
    requires Adoptable(cur, Some(store), fork, commit)
    ensures (exists i :: 0 <= i < |fork.events| && HandoffAbove(fork.events[i], epoch)
                         && AuthorisedBy(fork.events[i], store, 1))
       <==> fork.council == Some(store) && SomeHandoffAbove(fork.events, epoch)
  {
    forall i | 0 <= i < |fork.events| && HandoffAbove(fork.events[i], epoch)
      ensures AuthorisedBy(fork.events[i], store, 1) <==> fork.council == Some(store)
    {
      AuthorisedExactly(cur, store, fork, commit, i, 1);
      assert EventOk(fork.events, fork.Start(), fork.council, fork.algo, i);
    }
    if fork.council == Some(store) && SomeHandoffAbove(fork.events, epoch) {
      var i :| 0 <= i < |fork.events| && HandoffAbove(fork.events[i], epoch);
      assert AuthorisedBy(fork.events[i], store, 1);
    }
  }

  /** A chain cut after its first RECOVERY and closed by a COMMIT at the next epoch, under the key that
      RECOVERY handed over. */
  function CutAndSealed(v: Ledger, k: nat): Ledger
    requires FirstRecovery(v.events) < |v.events|
  {
    var base := v.(events := v.events[..FirstRecovery(v.events) + 1], key := Some(k), pub := Pub(k), rotations := []);
    base.Appended(Commit, CommitPayload(LastEpoch(v.events) + 1, None, Pub(k)), 0)
  }

  lemma CutIsReady(v: Ledger, k: nat)
    requires v.Good() && v.start.Some? && FirstRecovery(v.events) < |v.events|
    requires v.After(FirstRecovery(v.events) + 1) == Pub(k)
    ensures CutAndSealed(v, k).Good()
  {
    var n := FirstRecovery(v.events) + 1;
    var prefix := v.events[..n];
    var base := v.(events := prefix, key := Some(k), pub := Pub(k), rotations := []);
    assert prefix[..n] == v.events[..n];
    VerifiesPrefix(v.events, prefix, v.Start(), v.council, v.algo, n);
    PubAfterPrefix(v.events, prefix, v.Start(), n);
    AppendedReady(base, Commit, CommitPayload(LastEpoch(v.events) + 1, None, Pub(k)), 0);
  }

  lemma FirstRecoveryIs(events: Link, n: nat)
    requires n < |events| && events[n].body.typ == Recovery && forall i :: 0 <= i < n ==> events[i].body.typ != Recovery
    ensures FirstRecovery(events) == n
  {
  }

  /** The other way in which an upload brings no new handoff: it names the council, yet its only RECOVERY is
      the chain's own old one, and the key that one handed over signs the new epoch. The gate adopts it. */
  lemma OldHandoffAdopted(v: Ledger, store: PubKey, k: nat, commit: FrostCommit)
    requires v.Good() && v.start.Some? && v.council == Some(store) && store.Pub? && commit.Valid(store, QUORUM)
    requires FirstRecovery(v.events) < |v.events| && v.After(FirstRecovery(v.events) + 1) == Pub(k)
    ensures var fork, n := CutAndSealed(v, k), FirstRecovery(v.events);
            && fork.council == Some(store) && Adoptable(v.events, Some(store), fork, commit)
            && fork.events[..n + 1] == v.events[..n + 1]
            && forall i :: 0 <= i < |fork.events| && fork.events[i].body.typ == Recovery ==> i == n
  {
    var fork, n := CutAndSealed(v, k), FirstRecovery(v.events);
    var prefix := v.events[..n + 1];
    CutIsReady(v, k);
    assert fork.events[..n + 1] == prefix && fork.events[..n] == prefix[..n];
    assert fork.events == prefix + [fork.events[n + 1]];
    LastEpochGrow(prefix, fork.events[n + 1]);
    LastEpochPrefix(v.events, n + 1);
    FirstRecoveryIs(fork.events, n);
  }

  /** With it every certificate first issued after that RECOVERY leaves the fold, revoked or not. */
  lemma OldHandoffForgets(v: Ledger, k: nat, id: string)
    requires FirstRecovery(v.events) < |v.events| && id !in FoldOf(v.events[..FirstRecovery(v.events) + 1])
    ensures id !in FoldOf(CutAndSealed(v, k).events)
  {
    var prefix := v.events[..FirstRecovery(v.events) + 1];
    var fork := CutAndSealed(v, k);
    assert fork.events == prefix + [fork.events[|prefix|]];
    FoldGrow(prefix, fork.events[|prefix|]);
  }

  /** A RECOVERY in a verifying fork continues the chain itself exactly when its handoff names the chain's
      head at that index as its checkpoint. */
  lemma CheckpointNamesPrefix(cur: Ledger, fork: Ledger, i: nat)
    requires cur.Good() && fork.Good() && cur.algo == fork.algo && i <= |cur.events|
    requires i < |fork.events| && fork.events[i].body.typ == Recovery
    ensures fork.events[i].body.payload.HandoffPayload?
    ensures fork.events[..i] == cur.events[..i]
       <==> fork.events[i].body.payload.fc.d.checkpoint == HeadOf(cur.events[..i], cur.algo)
  {
    assert EventOk(fork.events, fork.Start(), fork.council, fork.algo, i);
    var a, b := fork.events[..i], cur.events[..i];
    if HeadOf(a, fork.algo) == HeadOf(b, cur.algo) {
      assert a[..i] == fork.events[..i] && b[..i] == cur.events[..i];
      VerifiesPrefix(fork.events, a, fork.Start(), fork.council, fork.algo, i);
      VerifiesPrefix(cur.events, b, cur.Start(), cur.council, cur.algo, i);
      HeadDeterminesChain(a, b, fork.Start(), cur.Start(), fork.council, cur.council, cur.algo);
    }
  }

  /** So the revocations that a later recovery surely keeps, beyond those before the chain's first one, are
      those before an index whose head some RECOVERY of the upload names. */
  lemma RevocationsBeforeCheckpoint(cur: Ledger, fork: Ledger, i: nat, id: string)
    requires cur.Good() && fork.Good() && cur.algo == fork.algo && i <= |cur.events|
    requires i < |fork.events| && fork.events[i].body.typ == Recovery && fork.events[i].body.payload.HandoffPayload?
    requires fork.events[i].body.payload.fc.d.checkpoint == HeadOf(cur.events[..i], cur.algo)
    requires id in FoldOf(cur.events[..i]) && FoldOf(cur.events[..i])[id].revoked
    ensures id in FoldOf(fork.events) && FoldOf(fork.events)[id] == FoldOf(cur.events[..i])[id]
  {
    CheckpointNamesPrefix(cur, fork, i);
    RevokedStays(fork.events, i, id);
  }

  /** The highest epoch a chain was handed over for, at least 0. */
  function LastHandoff(events: Link): int {
    if events == [] then 0
    else
      var before, e := LastHandoff(events[..|events| - 1]), events[|events| - 1];
      if HandoffAbove(e, before) then e.body.payload.fc.d.epoch else before
  }

  /** The highest epoch that was committed or handed over. */
  function TopEpoch(events: Link): int {
    if LastHandoff(events) > LastEpoch(events) then LastHandoff(events) else LastEpoch(events)
  }

  lemma {:induction false} HandoffsCounted(events: Link, epoch: int)
    requires SomeHandoffAbove(events, epoch)
    ensures LastHandoff(events) > epoch
    decreases |events|
  {
    var i :| 0 <= i < |events| && HandoffAbove(events[i], epoch);
    if i < |events| - 1 {
      assert HandoffAbove(events[..|events| - 1][i], epoch);
      HandoffsCounted(events[..|events| - 1], epoch);
    }
  }

  lemma {:induction false} TopHandoff(events: Link) returns (i: int)
    ensures -1 <= i < |events|
    ensures i < 0 ==> LastHandoff(events) == 0
    ensures i >= 0 ==> HandoffAbove(events[i], LastHandoff(events) - 1)
    ensures i >= 0 ==> events[i].body.payload.fc.d.epoch == LastHandoff(events)
  {
    i := -1;
    if events != [] {
      var front := events[..|events| - 1];
      if HandoffAbove(events[|events| - 1], LastHandoff(front)) {
        i := |events| - 1;
      } else {
        i := TopHandoff(front);
      }
    }
  }

  /** A request that, when it is adopted, names the council and brings a handoff above every epoch of the
      chain so far. Both can be read off the upload and the chain before the call. */
  predicate BringsHandoff(o: Org, store: PubKey, req: Request) {
    NamesCouncil(req, store)
    && (Adopts(o, Some(store), req) ==> SomeHandoffAbove(req.fork.v.events, TopEpoch(o.ledger.events)))
  }

  predicate AllBringHandoffs(o: Org, store: PubKey, reqs: seq<Request>) {
    forall i :: 0 <= i < |reqs| ==> BringsHandoff(Serve(o, Some(store), reqs[..i]), store, reqs[i])
  }

  /** Handoffs of the council for ever higher epochs, all above the given one. */
  predicate Acts(acts: seq<FrostCommit>, store: PubKey, epoch: int) {
    && (forall i :: 0 <= i < |acts| ==> acts[i].Valid(store, 1) && acts[i].d.epoch > epoch)
    && (forall i, j :: 0 <= i < j < |acts| ==> acts[i].d.epoch < acts[j].d.epoch)
  }

  /** An append that is not a handoff leaves the top epoch. */
  lemma AppendKeepsTop(o: Org, council: Option<PubKey>, req: Request)
    requires !Adopts(o, council, req)
    ensures TopEpoch(Handle(o, council, req).ledger.events) == TopEpoch(o.ledger.events)
  {
    var a, b := o.ledger.events, Handle(o, council, req).ledger.events;
    if |b| == |a| + 1 {
      LastEpochGrow(a, b[|a|]);
      assert b[..|a|] == a;
    }
  }

  /** An adoption that brings a handoff brings one of the council's, and the top epoch is then at least its. */
  lemma AdoptionActs(o: Org, store: PubKey, req: Request) returns (act: FrostCommit)
    requires Adopts(o, Some(store), req) && BringsHandoff(o, store, req)
    ensures act.Valid(store, 1) && act.d.epoch > TopEpoch(o.ledger.events)
    ensures act.d.epoch <= TopEpoch(Handle(o, Some(store), req).ledger.events)
  {
    var fork := req.fork.v;
    HandoffsCounted(fork.events, TopEpoch(o.ledger.events));
    var i := TopHandoff(fork.events);
    LastEpochIsHighest(o.ledger.events);
    AuthorisedExactly(o.ledger.events, store, fork, req.commit.value, i, 1);
    assert EventOk(fork.events, fork.Start(), fork.council, fork.algo, i);
    act := fork.events[i].body.payload.fc;
  }

  /** Over every interleaving in which each adopted upload names the council and brings a handoff above every
      epoch so far, there are as many council handoffs, for ever higher epochs, as adoptions: each
      recovery is a new act of the council. */
  lemma {:induction false} EachRecoveryIsAnAct(o: Org, store: PubKey, reqs: seq<Request>)
      returns (acts: seq<FrostCommit>)
    requires AllBringHandoffs(o, store, reqs)
    ensures |acts| == Adoptions(o, Some(store), reqs) && Acts(acts, store, TopEpoch(o.ledger.events))
    ensures TopEpoch(Serve(o, Some(store), reqs).ledger.events) >= TopEpoch(o.ledger.events)
    ensures acts != [] ==> acts[|acts| - 1].d.epoch <= TopEpoch(Serve(o, Some(store), reqs).ledger.events)
  {
    acts := [];
    if reqs != [] {
      var front, req := reqs[..|reqs| - 1], reqs[|reqs| - 1];
      FrontBringsHandoffs(o, store, reqs);
      acts := EachRecoveryIsAnAct(o, store, front);
      var mid := Serve(o, Some(store), front);
      if Adopts(mid, Some(store), req) {
        var act := AdoptionActs(mid, store, req);
        acts := acts + [act];
      } else {
        AppendKeepsTop(mid, Some(store), req);
      }
    }
  }

  lemma FrontBringsHandoffs(o: Org, store: PubKey, reqs: seq<Request>)
    requires reqs != [] && AllBringHandoffs(o, store, reqs)
    ensures var front, req := reqs[..|reqs| - 1], reqs[|reqs| - 1];
            AllBringHandoffs(o, store, front) && BringsHandoff(Serve(o, Some(store), front), store, req)
  {
    var front := reqs[..|reqs| - 1];
    forall i | 0 <= i < |front| ensures BringsHandoff(Serve(o, Some(store), front[..i]), store, front[i]) {
      assert front[..i] == reqs[..i] && front[i] == reqs[i];
      assert BringsHandoff(Serve(o, Some(store), reqs[..i]), store, reqs[i]);
    }
    assert BringsHandoff(Serve(o, Some(store), reqs[..|front|]), store, reqs[|front|]);
  }

  // ----------------------------------------------- recoveries that are adopted

  lemma {:induction false} LastEpochPrefix(events: Link, n: nat)
    requires n <= |events|
    ensures LastEpoch(events[..n]) <= LastEpoch(events)
    decreases |events|
  {
    if n == |events| {
      assert events[..n] == events;
    } else {
      var before := events[..|events| - 1];
      assert before[..n] == events[..n];
      LastEpochPrefix(before, n);
    }
  }

  lemma FirstRecoveryBefore(events: Link, n: nat)
    requires n < |events| && events[n].body.typ == Recovery
    ensures FirstRecovery(events) <= n
  {
  }

  lemma HandoffIsFirst(base: Ledger, fc: FrostCommit, b: Link)
    requires base.key.Some? && HandedOver(base, fc).events <= b
    ensures FirstRecovery(b) <= |base.events| < |b| && base.events <= b
  {
    var n, handed := |base.events|, HandedOver(base, fc).events;
    assert b[n] == handed[n];
    FirstRecoveryBefore(b, n);
    PrefixTrans(base.events, handed, b);
  }

  /** A timeline that extends a handoff over a prefix of the chain descends from the chain. */
  lemma Descent(a: Link, b: Link, cur: Link, k: nat)
    requires a <= b && a <= cur && k <= |a|
    ensures b[..k] == cur[..k]
  {
    assert b[..k] == a[..k] == cur[..k];
  }

  lemma LedgerIsAdoptable(cur: Link, base: Ledger, fc: FrostCommit, w: Ledger, group: PubKey)
    requires base.key.Some? && base.events <= cur && HandedOver(base, fc).events <= w.events
    requires LastEpoch(w.events) == if fc.d.epoch > LastEpoch(base.events) then fc.d.epoch else LastEpoch(base.events)
    requires group.Pub? && fc.Valid(group, 1)
    ensures Adoptable(cur, Some(group), w, fc) <==> w.Good() && |fc.members| >= QUORUM && fc.d.epoch > LastEpoch(cur)
  {
    LastEpochPrefix(cur, |base.events|);
    assert cur[..|base.events|] == base.events;
    HandoffIsFirst(base, fc, w.events);
    Descent(base.events, w.events, cur, FirstRecovery(w.events));
  }

  /** The timeline a council hands back passes the gate of the same organisation exactly when it
      verifies, a quorum signed, and the council's epoch is not behind the chain's. */
  lemma RecoveredIsAdoptable(v: Ledger, badIdx: nat, newRoot: nat, epoch: int, group: PubKey, o: Outcome)
    requires Recovered(v, badIdx, newRoot, epoch, group, o) && group.Pub?
    ensures Adoptable(v.events, Some(group), o.timeline.View(), o.commit)
       <==> o.timeline.View().Good() && |o.commit.members| >= QUORUM && epoch >= LastEpoch(v.events)
  {
    var order, certs, affected :| RecoveredInOrder(v, badIdx, newRoot, epoch, group, o, order, certs, affected);
    var base, suffix := Rerooted(v, badIdx, newRoot), Suffix(epoch);
    RecoveredExtends(base, o.commit, order, certs, suffix);
    RecoveredEpoch(base, o.commit, order, certs, suffix);
    RerootedPrefix(v, badIdx, newRoot);
    LedgerIsAdoptable(v.events, base, o.commit, o.timeline.View(), group);
  }
}
