// What a chain of events means: which key is current where, when an event verifies,
// the fold to certificate state, and what a verified chain determines (timeline.go,
// lastEpoch of councilnet.go).

module Chains {
  import opened Wrappers
  import opened Events

  type Link = seq<Event>

  /** The verification key current after the first n events (pubForPrefix at n - 1). */
  function PubAfter(events: Link, start: PubKey, n: nat): PubKey
    requires n <= |events|
  {
    if n == 0 then start
    else
      var pub, e := PubAfter(events, start, n - 1), events[n - 1].body;
      if e.typ == KeyRotate && RotatedKey(e.payload).Some? then RotatedKey(e.payload).value
      else if e.typ == Recovery && HandedKey(e.payload).Some? then HandedKey(e.payload).value
      else pub
  }

  function HeadOf(events: Link, algo: Algo): Option<Digest> {
    if events == [] then None else Some(DigestOf(algo, events[|events| - 1]))
  }

  /** A handoff event: the council's signature over exactly this position of the chain. */
  predicate HandoffOk(e: Event, council: Option<PubKey>, before: Option<Digest>) {
    && council.Some? && council.value.Pub? && e.body.payload.HandoffPayload?
    && e.body.payload.fc.Valid(council.value, 1) && e.body.payload.fc.d.checkpoint == before
  }

  /** What walkVerify demands of event i, given the events before it. */
  predicate EventOk(events: Link, start: PubKey, council: Option<PubKey>, algo: Algo, i: nat)
    requires i < |events|
  {
    var e := events[i];
    && e.body.parent == HeadOf(events[..i], algo)
    && (if e.body.typ == Recovery
        then HandoffOk(e, council, HeadOf(events[..i], algo)) && SignedBy(e.body.payload.fc.d.newPub, e)
        else SignedBy(PubAfter(events, start, i), e))
    && (e.body.typ == KeyRotate ==> RotatedKey(e.body.payload).Some?)
  }

  predicate Verifies(events: Link, start: PubKey, council: Option<PubKey>, algo: Algo, n: nat)
    requires n <= |events|
  {
    forall i :: 0 <= i < n ==> EventOk(events, start, council, algo, i)
  }

  /** The first index among the first n whose event does not verify, or -1 when all do. */
  predicate IsFirstBad(events: Link, start: PubKey, council: Option<PubKey>, algo: Algo, n: nat, bad: int)
    requires n <= |events|
  {
    if bad < 0 then bad == -1 && Verifies(events, start, council, algo, n)
    else bad < n && !EventOk(events, start, council, algo, bad) && Verifies(events, start, council, algo, bad)
  }

  /** walkVerify, with the key carried along. */
  method WalkVerify(events: Link, start: PubKey, council: Option<PubKey>, algo: Algo, n: nat) returns (bad: int)
    requires n <= |events|
    ensures IsFirstBad(events, start, council, algo, n, bad)
    ensures -1 <= bad < n && (bad >= 0 ==> !EventOk(events, start, council, algo, bad))
    ensures forall i :: 0 <= i < (if bad < 0 then n else bad) ==> EventOk(events, start, council, algo, i)
  {
    var pub := start;
    for i := 0 to n
      invariant pub == PubAfter(events, start, i)
      invariant Verifies(events, start, council, algo, i)
    {
      var e := events[i];
      var before := if i == 0 then None else Some(DigestOf(algo, events[i - 1]));
      assert before == HeadOf(events[..i], algo);
      if i == 0 && e.body.parent != None {
        return i;
      }
      if i > 0 && e.body.parent != before {
        return i;
      }
      if e.body.typ == Recovery {
        if council.None? || !council.value.Pub? {
          return i;
        }
        if !e.body.payload.HandoffPayload? || !e.body.payload.fc.Valid(council.value, 1) {
          return i;
        }
        if e.body.payload.fc.d.checkpoint != before {
          return i;
        }
        pub := e.body.payload.fc.d.newPub;
      }
      if e.sig != Signed(pub, EventMsg(e.body)) {
        return i;
      }
      if e.body.typ == KeyRotate {
        if RotatedKey(e.body.payload).None? {
          return i;
        }
        pub := RotatedKey(e.body.payload).value;
      }
    }
    return -1;
  }

  /** pubForPrefix: parsing alone, the prefix having been verified. */
  method PubForPrefix(events: Link, start: PubKey, idx: nat) returns (pub: PubKey)
    requires idx < |events|
    ensures pub == PubAfter(events, start, idx + 1)
  {
    pub := start;
    for i := 0 to idx + 1
      invariant pub == PubAfter(events, start, i)
    {
      var e := events[i].body;
      if e.typ == KeyRotate {
        if RotatedKey(e.payload).Some? {
          pub := RotatedKey(e.payload).value;
        }
      } else if e.typ == Recovery {
        if HandedKey(e.payload).Some? {
          pub := HandedKey(e.payload).value;
        }
      }
    }
  }

  // --------------------------------------------------------------- locality

  lemma {:induction false} PubAfterPrefix(a: Link, b: Link, start: PubKey, n: nat)
    requires n <= |a| && n <= |b| && a[..n] == b[..n]
    ensures PubAfter(a, start, n) == PubAfter(b, start, n)
    decreases n
  {
    if n > 0 {
      assert a[..n - 1] == a[..n][..n - 1] && b[..n - 1] == b[..n][..n - 1];
      assert a[n - 1] == a[..n][n - 1] && b[n - 1] == b[..n][n - 1];
      PubAfterPrefix(a, b, start, n - 1);
    }
  }

  /** Whether event i verifies depends on the events up to i alone. */
  lemma EventOkPrefix(a: Link, b: Link, start: PubKey, council: Option<PubKey>, algo: Algo, i: nat)
    requires i < |a| && i < |b| && a[..i + 1] == b[..i + 1]
    ensures EventOk(a, start, council, algo, i) == EventOk(b, start, council, algo, i)
  {
    assert a[..i] == a[..i + 1][..i] && b[..i] == b[..i + 1][..i];
    assert a[i] == a[..i + 1][i] && b[i] == b[..i + 1][i];
    PubAfterPrefix(a, b, start, i);
  }

  lemma VerifiesPrefix(a: Link, b: Link, start: PubKey, council: Option<PubKey>, algo: Algo, n: nat)
    requires n <= |a| && n <= |b| && a[..n] == b[..n]
    ensures Verifies(a, start, council, algo, n) == Verifies(b, start, council, algo, n)
  {
    forall i | 0 <= i < n
      ensures EventOk(a, start, council, algo, i) == EventOk(b, start, council, algo, i)
    {
      assert a[..i + 1] == a[..n][..i + 1] && b[..i + 1] == b[..n][..i + 1];
      EventOkPrefix(a, b, start, council, algo, i);
    }
  }

  /** One more event verifies on top of a chain that verifies. */
  lemma VerifiesGrow(events: Link, e: Event, start: PubKey, council: Option<PubKey>, algo: Algo)
    ensures Verifies(events + [e], start, council, algo, |events| + 1)
       <==> Verifies(events, start, council, algo, |events|) && EventOk(events + [e], start, council, algo, |events|)
  {
    var more := events + [e];
    assert more[..|events|] == events[..|events|];
    VerifiesPrefix(events, more, start, council, algo, |events|);
    if Verifies(more, start, council, algo, |events| + 1) {
      assert Verifies(more, start, council, algo, |events|);
    }
  }

  // ------------------------------------------- what a verified chain determines

  /** A verified chain is determined by its head: same link algorithm and same head digest, same
      events and same length, whatever keys each was verified under. */
  lemma {:induction false} HeadDeterminesChain(a: Link, b: Link, startA: PubKey, startB: PubKey,
                                               councilA: Option<PubKey>, councilB: Option<PubKey>, algo: Algo)
    requires Verifies(a, startA, councilA, algo, |a|) && Verifies(b, startB, councilB, algo, |b|)
    requires HeadOf(a, algo) == HeadOf(b, algo)
    ensures a == b
    decreases |a|
  {
    if a != [] {
      var m, n := |a| - 1, |b| - 1;
      assert a[m] == b[n];
      assert EventOk(a, startA, councilA, algo, m) && EventOk(b, startB, councilB, algo, n);
      assert a[..m][..m] == a[..m] && b[..n][..n] == b[..n];
      VerifiesPrefix(a, a[..m], startA, councilA, algo, m);
      VerifiesPrefix(b, b[..n], startB, councilB, algo, n);
      assert Verifies(a, startA, councilA, algo, m) && Verifies(b, startB, councilB, algo, n);
      HeadDeterminesChain(a[..m], b[..n], startA, startB, councilA, councilB, algo);
      assert a == a[..m] + [a[m]] && b == b[..n] + [b[n]];
    }
  }

  /** So is one determined by its last event, whatever the two link algorithms. */
  lemma {:induction false} LastEventDetermines(a: Link, b: Link, startA: PubKey, startB: PubKey,
                                               councilA: Option<PubKey>,
                                               councilB: Option<PubKey>, algoA: Algo, algoB: Algo)
    requires Verifies(a, startA, councilA, algoA, |a|) && Verifies(b, startB, councilB, algoB, |b|)
    requires a != [] && b != [] && a[|a| - 1] == b[|b| - 1]
    ensures a == b
    decreases |a|
  {
    var m, n := |a| - 1, |b| - 1;
    assert EventOk(a, startA, councilA, algoA, m) && EventOk(b, startB, councilB, algoB, n);
    assert a == a[..m] + [a[m]] && b == b[..n] + [b[n]];
    if m > 0 {
      assert a[..m][m - 1] == b[..n][n - 1];
      assert a[..m][..m] == a[..m] && b[..n][..n] == b[..n];
      VerifiesPrefix(a, a[..m], startA, councilA, algoA, m);
      VerifiesPrefix(b, b[..n], startB, councilB, algoB, n);
      assert Verifies(a, startA, councilA, algoA, m) && Verifies(b, startB, councilB, algoB, n);
      LastEventDetermines(a[..m], b[..n], startA, startB, councilA, councilB, algoA, algoB);
    }
  }

  /** Replacing any event but the last of a verifying chain is located at that event or the next. */
  lemma TamperIsLocated(events: Link, start: PubKey, council: Option<PubKey>, algo: Algo, i: nat, e: Event, bad: int)
    requires Verifies(events, start, council, algo, |events|) && i + 1 < |events| && e != events[i]
    requires IsFirstBad(events[i := e], start, council, algo, |events|, bad)
    ensures bad in {i, i + 1}
  {
    var changed := events[i := e];
    forall k | 0 <= k < i ensures EventOk(changed, start, council, algo, k) {
      assert changed[..k + 1] == events[..k + 1];
      EventOkPrefix(changed, events, start, council, algo, k);
    }
    assert EventOk(events, start, council, algo, i + 1);
    assert HeadOf(events[..i + 1], algo) == Some(DigestOf(algo, events[i]));
    assert HeadOf(changed[..i + 1], algo) == Some(DigestOf(algo, e));
    assert !EventOk(changed, start, council, algo, i + 1);
  }

  /** Altering an event of a verifying chain while its signature or its body stays is located exactly there:
      no event, the last included, and no type of event escapes the signature check. */
  lemma AlterationIsLocated(events: Link, start: PubKey, council: Option<PubKey>, algo: Algo, i: nat, e: Event,
                            bad: int)
    requires Verifies(events, start, council, algo, |events|) && i < |events| && e != events[i]
    requires e.sig == events[i].sig || e.body == events[i].body
    requires IsFirstBad(events[i := e], start, council, algo, |events|, bad)
    ensures bad == i
  {
    var changed := events[i := e];
    forall k | 0 <= k < i ensures EventOk(changed, start, council, algo, k) {
      assert changed[..k + 1] == events[..k + 1];
      EventOkPrefix(changed, events, start, council, algo, k);
    }
    assert EventOk(events, start, council, algo, i);
    assert changed[..i] == events[..i];
    PubAfterPrefix(changed, events, start, i);
    assert !EventOk(changed, start, council, algo, i);
  }

  // ------------------------------------------------------- the key in force

  /** The key an event hands the chain to, if it does. */
  predicate HandsTo(e: Body, k: PubKey) {
    && k.Pub?
    && ((e.typ == KeyRotate && e.payload == RotatePayload(k))
        || (e.typ == Recovery && e.payload.HandoffPayload? && e.payload.fc.d.newPub == k)
        || (e.typ == Recovery && e.payload.CommitPayload? && e.payload.newPub == k))
  }

  ghost predicate HandsOver(e: Body) {
    exists k :: HandsTo(e, k)
  }

  /** k is what the last handing-over event among the first n hands over, or the start key without one. */
  ghost predicate InForce(events: Link, start: PubKey, n: nat, k: PubKey)
    requires n <= |events|
  {
    || (k == start && forall j :: 0 <= j < n ==> !HandsOver(events[j].body))
    || (exists i :: 0 <= i < n && HandsTo(events[i].body, k) && forall j :: i < j < n ==> !HandsOver(events[j].body))
  }

  lemma {:induction false} PubIsInForce(events: Link, start: PubKey, n: nat, k: PubKey)
    requires n <= |events|
    ensures InForce(events, start, n, k) <==> k == PubAfter(events, start, n)
  {
    if n > 0 {
      var e := events[n - 1].body;
      var before := PubAfter(events, start, n - 1);
      PubIsInForce(events, start, n - 1, k);
      if HandsOver(e) {
        var given :| HandsTo(e, given);
        assert PubAfter(events, start, n) == given;
        assert HandsTo(events[n - 1].body, k) <==> k == given;
      } else {
        assert RotatedKey(e.payload).Some? ==> !(e.typ == KeyRotate) || HandsTo(e, RotatedKey(e.payload).value);
        assert HandedKey(e.payload).Some? ==> !(e.typ == Recovery) || HandsTo(e, HandedKey(e.payload).value);
        assert PubAfter(events, start, n) == before;
        KeepsInForce(events, start, n, k);
      }
    }
  }

  lemma KeepsInForce(events: Link, start: PubKey, n: nat, k: PubKey)
    requires 0 < n <= |events| && !HandsOver(events[n - 1].body)
    ensures InForce(events, start, n, k) <==> InForce(events, start, n - 1, k)
  {
    if i :| 0 <= i < n && HandsTo(events[i].body, k) && forall j :: i < j < n ==> !HandsOver(events[j].body) {
      assert i != n - 1 by {
        assert HandsTo(events[i].body, k);
      }
      assert 0 <= i < n - 1 && HandsTo(events[i].body, k);
    }
    if i :| 0 <= i < n - 1 && HandsTo(events[i].body, k) && forall j :: i < j < n - 1 ==> !HandsOver(events[j].body) {
      assert 0 <= i < n && HandsTo(events[i].body, k);
    }
  }

  /** The event is linked to the one before it. */
  predicate Linked(events: Link, algo: Algo, i: nat)
    requires i < |events|
  {
    events[i].body.parent == if i == 0 then None else Some(DigestOf(algo, events[i - 1]))
  }

  /** When an event verifies: it is linked to its predecessor and signed with the key in force, or for a RECOVERY with
      the key that the council's signed handoff names for this very position; and a rotation holds a key of the right
      length. */
  lemma EventExactly(events: Link, start: PubKey, council: Option<PubKey>, algo: Algo, i: nat)
    requires i < |events|
    ensures var e := events[i];
            EventOk(events, start, council, algo, i) <==>
            && Linked(events, algo, i)
            && (e.body.typ != Recovery ==>
                  exists k :: InForce(events, start, i, k) && e.sig == Signed(k, EventMsg(e.body)))
            && (e.body.typ == Recovery ==>
                  e.body.payload.HandoffPayload? && council.Some? && council.value.Pub? &&
                  var fc := e.body.payload.fc;
                  && fc.sig == Signed(council.value, HandoffMsg(fc.d)) && fc.members != [] && fc.d.newPub.Pub?
                  && fc.d.checkpoint == e.body.parent && e.sig == Signed(fc.d.newPub, EventMsg(e.body)))
            && (e.body.typ == KeyRotate ==> e.body.payload.RotatePayload? && e.body.payload.newKey.Pub?)
  {
    PubIsInForce(events, start, i, PubAfter(events, start, i));
    forall k | InForce(events, start, i, k) ensures k == PubAfter(events, start, i) {
      PubIsInForce(events, start, i, k);
    }
  }

  // ------------------------------------------------------------------- fold

  datatype Cert = Cert(identity: string, revoked: bool)

  type State = map<string, Cert>

  /** One event's effect: a revoked certificate never comes back. */
  function Apply(s: State, e: Body): State {
    if e.typ == Issue && AsIssue(e.payload).Some? then
      var f := AsIssue(e.payload).value;
      if f.certId in s && s[f.certId].revoked then s else s[f.certId := Cert(f.identity, false)]
    else if e.typ == Revoke && AsRevoke(e.payload).Some? && AsRevoke(e.payload).value in s then
      var id := AsRevoke(e.payload).value;
      s[id := Cert(s[id].identity, true)]
    else s
  }

  function FoldOf(events: Link): State {
    if events == [] then map[] else Apply(FoldOf(events[..|events| - 1]), events[|events| - 1].body)
  }

  method Fold(events: Link) returns (s: State)
    ensures s == FoldOf(events)
  {
    s := map[];
    for i := 0 to |events|
      invariant s == FoldOf(events[..i])
    {
      assert events[..i + 1][..i] == events[..i];
      var e := events[i].body;
      if e.typ == Issue {
        var f := AsIssue(e.payload);
        if f.Some? && !(f.value.certId in s && s[f.value.certId].revoked) {
          s := s[f.value.certId := Cert(f.value.identity, false)];
        }
      } else if e.typ == Revoke {
        var id := AsRevoke(e.payload);
        if id.Some? && id.value in s {
          s := s[id.value := Cert(s[id.value].identity, true)];
        }
      }
    }
    assert events[..|events|] == events;
  }

  lemma FoldGrow(events: Link, e: Event)
    ensures FoldOf(events + [e]) == Apply(FoldOf(events), e.body)
  {
    assert (events + [e])[..|events|] == events;
  }

  /** Revocation is sticky: revoked after a prefix, revoked with the same identity after every extension. */
  lemma {:induction false} RevokedStays(events: Link, n: nat, id: string)
    requires n <= |events| && id in FoldOf(events[..n]) && FoldOf(events[..n])[id].revoked
    ensures id in FoldOf(events) && FoldOf(events)[id] == FoldOf(events[..n])[id]
    decreases |events|
  {
    if n == |events| {
      assert events[..n] == events;
    } else {
      var before := events[..|events| - 1];
      assert before[..n] == events[..n];
      RevokedStays(before, n, id);
    }
  }

  /** Event i issues the certificate. */
  predicate IssuesAt(events: Link, i: int, id: string) {
    0 <= i < |events| && events[i].body.typ == Issue && AsIssue(events[i].body.payload).Some?
    && AsIssue(events[i].body.payload).value.certId == id
  }

  /** Event i revokes it. */
  predicate RevokesAt(events: Link, i: int, id: string) {
    0 <= i < |events| && events[i].body.typ == Revoke && AsRevoke(events[i].body.payload) == Some(id)
  }

  /** Before event n it was issued and later revoked. */
  predicate RevokedBefore(events: Link, n: nat, id: string)
    requires n <= |events|
  {
    exists i, j :: 0 <= i < j < n && IssuesAt(events, i, id) && RevokesAt(events, j, id)
  }

  /** The issuance a certificate keeps: the last one before it was ever revoked. */
  predicate Keeps(events: Link, i: int, id: string) {
    IssuesAt(events, i, id) && !RevokedBefore(events, i, id)
    && forall j :: i < j < |events| && IssuesAt(events, j, id) ==> RevokedBefore(events, j, id)
  }

  /** A certificate is in the folded state when it was issued, and revoked there when a revocation followed. */
  lemma {:induction false} FoldHolds(events: Link, id: string)
    ensures id in FoldOf(events) <==> exists i :: IssuesAt(events, i, id)
    ensures id in FoldOf(events) ==> (FoldOf(events)[id].revoked <==> RevokedBefore(events, |events|, id))
  {
    if events != [] {
      var n := |events| - 1;
      var front := events[..n];
      FoldHolds(front, id);
      FrontIssues(events, id);
      if i :| IssuesAt(front, i, id) {
        assert IssuesAt(events, i, id);
      }
      if IssuesAt(events, n, id) {
        assert !RevokesAt(events, n, id);
      }
    }
  }

  ghost predicate IdentityFrom(events: Link, i: int, id: string) {
    Keeps(events, i, id) && id in FoldOf(events)
    && FoldOf(events)[id].identity == AsIssue(events[i].body.payload).value.identity
  }

  /** Its identity is that of the issuance it keeps. */
  lemma {:induction false} FoldIdentity(events: Link, id: string)
    requires id in FoldOf(events)
    ensures exists i :: IdentityFrom(events, i, id)
  {
    var n := |events| - 1;
    var front := events[..n];
    FoldHolds(events, id);
    FoldHolds(front, id);
    FrontIssues(events, id);
    if IssuesAt(events, n, id) && !(id in FoldOf(front) && FoldOf(front)[id].revoked) {
      assert !RevokedBefore(events, n, id);
      assert IdentityFrom(events, n, id);
    } else {
      FoldIdentity(front, id);
      var i :| IdentityFrom(front, i, id);
      KeepsOn(events, i, id);
      assert IdentityFrom(events, i, id);
    }
  }

  lemma KeepsOn(events: Link, i: int, id: string)
    requires events != [] && Keeps(events[..|events| - 1], i, id)
    requires IssuesAt(events, |events| - 1, id) ==> RevokedBefore(events, |events| - 1, id)
    ensures Keeps(events, i, id)
  {
    var front := events[..|events| - 1];
    FrontIssues(events, id);
    assert i < |front|;
    forall j | i < j < |events| && IssuesAt(events, j, id) ensures RevokedBefore(events, j, id) {
      if j < |front| {
        assert IssuesAt(front, j, id);
      }
    }
  }

  lemma FrontIssues(events: Link, id: string)
    requires events != []
    ensures var front := events[..|events| - 1];
            && (forall i :: i < |front| ==> (IssuesAt(events, i, id) <==> IssuesAt(front, i, id)))
            && (forall i :: i < |front| ==> (RevokesAt(events, i, id) <==> RevokesAt(front, i, id)))
            && (forall n: nat :: n <= |front| ==> (RevokedBefore(events, n, id) <==> RevokedBefore(front, n, id)))
            && (RevokedBefore(events, |events|, id) <==>
                  RevokedBefore(front, |front|, id)
                  || (RevokesAt(events, |front|, id) && exists i :: IssuesAt(front, i, id)))
  {
    var front, n := events[..|events| - 1], |events| - 1;
    assert forall i :: 0 <= i < n ==> events[i] == front[i];
    if RevokesAt(events, n, id) && exists i :: IssuesAt(front, i, id) {
      var i :| IssuesAt(front, i, id);
      assert IssuesAt(events, i, id);
    }
  }

  // ------------------------------------------------------------------ epochs

  /** lastEpoch: the highest epoch of a COMMIT event, at least 0. */
  function LastEpoch(events: Link): int {
    if events == [] then 0
    else
      var before, e := LastEpoch(events[..|events| - 1]), events[|events| - 1].body;
      if e.typ == Commit && EpochOf(e.payload) > before then EpochOf(e.payload) else before
  }

  method ScanLastEpoch(events: Link) returns (e: int)
    ensures e == LastEpoch(events)
  {
    e := 0;
    for i := 0 to |events|
      invariant e == LastEpoch(events[..i])
    {
      assert events[..i + 1][..i] == events[..i];
      if events[i].body.typ == Commit && EpochOf(events[i].body.payload) > e {
        e := EpochOf(events[i].body.payload);
      }
    }
    assert events[..|events|] == events;
  }

  /** It is the highest: no COMMIT has a higher epoch, and unless it is 0 some COMMIT has it. */
  lemma {:induction false} LastEpochIsHighest(events: Link)
    ensures LastEpoch(events) >= 0
    ensures forall i :: 0 <= i < |events| && events[i].body.typ == Commit ==>
                          EpochOf(events[i].body.payload) <= LastEpoch(events)
    ensures LastEpoch(events) == 0 || exists i :: 0 <= i < |events| && events[i].body.typ == Commit
                                                  && EpochOf(events[i].body.payload) == LastEpoch(events)
  {
    if events != [] {
      var front := events[..|events| - 1];
      LastEpochIsHighest(front);
      assert forall i :: 0 <= i < |front| ==> front[i] == events[i];
    }
  }
}
