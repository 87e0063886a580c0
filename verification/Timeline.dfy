// The timeline object of timeline.go: appending, rotating keys, verifying and forking,
// and which keys a run of these operations leaves current where.

module Timelines {
  import opened Wrappers
  import opened Events
  import opened Chains

  /** A private key rotated away, and the index of the rotation event it signed. */
  datatype Rotation = Rotation(at: nat, key: nat)

  /** keyAt: the first rotation at or after idx holds the key, else the live key. */
  function KeyFrom(rotations: seq<Rotation>, idx: nat, live: Option<nat>): Option<nat> {
    if rotations == [] then live
    else if rotations[0].at >= idx then Some(rotations[0].key)
    else KeyFrom(rotations[1..], idx, live)
  }

  /** What a timeline holds at one moment. */
  datatype Ledger = Ledger(events: Link, key: Option<nat>, pub: PubKey, start: Option<PubKey>, council: Option<PubKey>,
                           rotations: seq<Rotation>, algo: Algo)
  {
    function Start(): PubKey {
      if start.Some? then start.value else pub
    }

    function Head(): Option<Digest> {
      HeadOf(events, algo)
    }

    /** The public key current after the first n events. */
    function After(n: nat): PubKey
      requires n <= |events|
    {
      PubAfter(events, Start(), n)
    }

    predicate Good() {
      Verifies(events, Start(), council, algo, |events|)
    }

    function KeyAt(idx: nat): Option<nat> {
      KeyFrom(rotations, idx, key)
    }

    /** The event Append signs, and the ledger it leaves; a read-only ledger stays as it is. */
    function Next(typ: EventType, payload: Payload, ts: int): Event
      requires key.Some?
    {
      SignEvent(key.value, Body(typ, ts, payload, Head()))
    }

    function Appended(typ: EventType, payload: Payload, ts: int): Ledger {
      if key.None? then this else this.(events := events + [Next(typ, payload, ts)])
    }

    function Rotated(newKey: nat, ts: int): Ledger {
      if key.None? then this
      else Appended(KeyRotate, RotatePayload(Pub(newKey)), ts)
           .(rotations := rotations + [Rotation(|events|, key.value)], key := Some(newKey), pub := Pub(newKey))
    }

    /** The copy up to and including event idx. It starts at the key current after that event. */
    function ForkedAt(idx: nat): Ledger
      requires idx < |events|
    {
      Ledger(events[..idx + 1], KeyAt(idx), After(idx + 1), Some(After(idx + 1)), council, [], algo)
    }
  }

  function NewLedger(key: nat, algo: Algo): Ledger {
    Ledger([], Some(key), Pub(key), Some(Pub(key)), None, [], algo)
  }

  /** The last index whose event has the given SHA-256 hash, or -1. */
  function LastAt(events: Link, h: Digest): int
    ensures -1 <= LastAt(events, h) < |events|
    ensures LastAt(events, h) >= 0 ==> HashOf(events[LastAt(events, h)]) == h
  {
    if events == [] then -1
    else if HashOf(events[|events| - 1]) == h then |events| - 1
    else LastAt(events[..|events| - 1], h)
  }

  class Timeline {
    var events: Link
    var key: Option<nat>
    var pub: PubKey
    var start: Option<PubKey>
    var council: Option<PubKey>
    var rotations: seq<Rotation>
    var algo: Algo

    function View(): Ledger
      reads this
    {
      Ledger(events, key, pub, start, council, rotations, algo)
    }

    /** newTimeline. */
    constructor (k: nat, a: Algo)
      ensures View() == NewLedger(k, a)
    {
      events, key, pub, start, council, rotations, algo := [], Some(k), Pub(k), Some(Pub(k)), None, [], a;
    }

    /** A timeline parsed from a file, or the struct literal Fork fills. */
    constructor Of(v: Ledger)
      ensures View() == v
    {
      events, key, pub, start := v.events, v.key, v.pub, v.start;
      council, rotations, algo := v.council, v.rotations, v.algo;
    }

    method Append(typ: EventType, payload: Payload, ts: int) returns (r: Result<Digest>)
      modifies this`events
      ensures View() == old(View()).Appended(typ, payload, ts)
      ensures r == if key.None? then Err("read-only") else Ok(HashOf(old(View()).Next(typ, payload, ts)))
      ensures key.None? ==> events == old(events)
      ensures key.Some? ==>
                var body := Body(typ, ts, payload, HeadOf(old(events), algo));
                events == old(events) + [Event(body, Signed(Pub(key.value), EventMsg(body)))]
    {
      if key.None? {
        return Err("read-only");
      }
      var head := if events == [] then None else Some(DigestOf(algo, events[|events| - 1]));
      var body := Body(typ, ts, payload, head);
      var e := Event(body, Signed(Pub(key.value), EventMsg(body)));
      events := events + [e];
      return Ok(HashOf(e));
    }

    method RotateKey(newKey: nat, ts: int) returns (r: Result<Digest>)
      modifies this
      ensures View() == old(View()).Rotated(newKey, ts)
      ensures r.Err? <==> old(key).None?
      ensures r.Ok? ==> key == Some(newKey) && pub == Pub(newKey) && start == old(start) && council == old(council)
      ensures r.Ok? ==> rotations == old(rotations) + [Rotation(|old(events)|, old(key).value)]
      ensures r.Ok? ==>
                var body := Body(KeyRotate, ts, RotatePayload(Pub(newKey)), HeadOf(old(events), algo));
                events == old(events) + [Event(body, Signed(Pub(old(key).value), EventMsg(body)))]
    {
      if key.None? {
        return Err("read-only");
      }
      r := Append(KeyRotate, RotatePayload(Pub(newKey)), ts);
      if r.Err? {
        return;
      }
      rotations := rotations + [Rotation(|events| - 1, key.value)];
      key, pub := Some(newKey), Pub(newKey);
    }

    method SetCouncilPub(p: PubKey)
      modifies this`council
      ensures View() == old(View()).(council := Some(p))
    {
      council := Some(p);
    }

    method Verify() returns (ok: bool)
      ensures ok == View().Good()
      ensures ok <==> forall i :: 0 <= i < |events| ==> EventOk(events, View().Start(), council, algo, i)
    {
      var bad := LocateBadEvent();
      return bad == -1;
    }

    /** A count past the end means the whole chain. */
    method VerifyPrefix(n: nat) returns (ok: bool)
      ensures ok == Verifies(events, View().Start(), council, algo, if n > |events| then |events| else n)
      ensures ok <==> forall i :: 0 <= i < n && i < |events| ==> EventOk(events, View().Start(), council, algo, i)
    {
      var m := if n > |events| then |events| else n;
      var bad := WalkVerify(events, View().Start(), council, algo, m);
      return bad == -1;
    }

    method LocateBadEvent() returns (bad: int)
      ensures IsFirstBad(events, View().Start(), council, algo, |events|, bad)
      ensures -1 <= bad < |events| && (bad >= 0 ==> !EventOk(events, View().Start(), council, algo, bad))
      ensures forall i :: 0 <= i < (if bad < 0 then |events| else bad) ==>
                EventOk(events, View().Start(), council, algo, i)
    {
      bad := WalkVerify(events, View().Start(), council, algo, |events|);
    }

    method KeyAt(idx: nat) returns (k: Option<nat>)
      ensures k == View().KeyAt(idx)
      ensures k == key || exists i :: 0 <= i < |rotations| && k == Some(rotations[i].key) && rotations[i].at >= idx
                                      && forall j :: 0 <= j < i ==> rotations[j].at < idx
      ensures (forall i :: 0 <= i < |rotations| ==> rotations[i].at < idx) ==> k == key
    {
      for i := 0 to |rotations|
        invariant View().KeyAt(idx) == KeyFrom(rotations[i..], idx, key)
        invariant forall j :: 0 <= j < i ==> rotations[j].at < idx
      {
        if rotations[i].at >= idx {
          return Some(rotations[i].key);
        }
        assert rotations[i..][1..] == rotations[i + 1..];
      }
      return key;
    }

    method Fork(atHash: Digest) returns (r: Result<Timeline>)
      ensures r.Err? <==> forall i :: 0 <= i < |events| ==> HashOf(events[i]) != atHash
      ensures r.Ok? ==> LastAt(events, atHash) >= 0 && fresh(r.value)
                        && r.value.View() == View().ForkedAt(LastAt(events, atHash))
      ensures r.Ok? ==>
                var n := |r.value.events|;
                && 0 < n <= |events| && r.value.events == events[..n] && HashOf(events[n - 1]) == atHash
                && (forall i :: n <= i < |events| ==> HashOf(events[i]) != atHash)
                && r.value.council == council && r.value.algo == algo && r.value.rotations == []
                && r.value.start == Some(r.value.pub) && InForce(events, View().Start(), n, r.value.pub)
    {
      var idx := -1;
      for i := 0 to |events|
        invariant idx == LastAt(events[..i], atHash)
        invariant idx < 0 ==> forall j :: 0 <= j < i ==> HashOf(events[j]) != atHash
        invariant -1 <= idx < i && forall j :: idx < j < i ==> HashOf(events[j]) != atHash
      {
        assert events[..i + 1][..i] == events[..i];
        if HashOf(events[i]) == atHash {
          idx := i;
        }
      }
      assert events[..|events|] == events;
      if idx < 0 {
        return Err("checkpoint not in timeline");
      }
      var k := KeyAt(idx);
      var p := PubForPrefix(events, View().Start(), idx);
      PubIsInForce(events, View().Start(), idx + 1, p);
      var f := new Timeline.Of(Ledger(events[..idx + 1], k, p, Some(p), council, [], algo));
      return Ok(f);
    }
  }

  // ------------------------------------------------------------ key discipline

  datatype Op =
    | AppendOp(typ: EventType, payload: Payload, ts: int)
    | RotateOp(newKey: nat, ts: int)
    | CouncilOp(pub: PubKey)

  /** Append is also open to the two handoff types, which only RotateKey and recovery write. */
  predicate Ordinary(op: Op) {
    op.AppendOp? ==> op.typ != KeyRotate && op.typ != Recovery
  }

  function Step(v: Ledger, op: Op): Ledger {
    match op
    case AppendOp(typ, payload, ts) => v.Appended(typ, payload, ts)
    case RotateOp(newKey, ts) => v.Rotated(newKey, ts)
    case CouncilOp(p) => v.(council := Some(p))
  }

  function Run(v: Ledger, ops: seq<Op>): Ledger {
    if ops == [] then v else Step(Run(v, ops[..|ops| - 1]), ops[|ops| - 1])
  }

  /** Each operation is a call on the timeline. */
  method Perform(tl: Timeline, op: Op)
    modifies tl
    ensures tl.View() == Step(old(tl.View()), op)
  {
    match op
    case AppendOp(typ, payload, ts) => var _ := tl.Append(typ, payload, ts);
    case RotateOp(newKey, ts) => var _ := tl.RotateKey(newKey, ts);
    case CouncilOp(p) => tl.SetCouncilPub(p);
  }

  predicate NoRecovery(events: Link) {
    forall i :: 0 <= i < |events| ==> events[i].body.typ != Recovery
  }

  /** A writable ledger that verifies and whose live key is the one its chain ends under. */
  predicate Ready(v: Ledger) {
    v.key.Some? && v.start.Some? && v.Good() && v.After(|v.events|) == Pub(v.key.value)
  }

  predicate Live(v: Ledger) {
    Ready(v) && NoRecovery(v.events)
  }

  /** Its recorded private keys are moreover the ones that signed each event. */
  predicate Disciplined(v: Ledger) {
    && Live(v) && v.pub == Pub(v.key.value)
    && (forall r <- v.rotations :: r.at < |v.events|)
    && (forall i :: 0 <= i <= |v.events| ==> SignsAt(v, i))
  }

  /** The key recorded for event i is the private half of the public key current before it. */
  predicate SignsAt(v: Ledger, i: nat)
    requires i <= |v.events|
  {
    v.KeyAt(i).Some? && Pub(v.KeyAt(i).value) == v.After(i)
  }

  lemma CouncilIrrelevant(events: Link, start: PubKey, c: Option<PubKey>, d: Option<PubKey>, algo: Algo)
    requires NoRecovery(events) && Verifies(events, start, c, algo, |events|)
    ensures Verifies(events, start, d, algo, |events|)
  {
    forall i | 0 <= i < |events| ensures EventOk(events, start, d, algo, i) {
      assert EventOk(events, start, c, algo, i);
    }
  }

  /** One signed event on a ready ledger: the old keys stand, and the chain verifies one further. */
  lemma AppendedReady(v: Ledger, typ: EventType, payload: Payload, ts: int)
    requires Ready(v) && typ != Recovery && (typ == KeyRotate ==> RotatedKey(payload).Some?)
    ensures var w := v.Appended(typ, payload, ts);
            && w.Good()
            && (forall i :: 0 <= i <= |v.events| ==> w.After(i) == v.After(i))
            && w.After(|w.events|) == if typ == KeyRotate then RotatedKey(payload).value else v.After(|v.events|)
  {
    var w := v.Appended(typ, payload, ts);
    var n := |v.events|;
    forall i | 0 <= i <= n ensures w.After(i) == v.After(i) {
      assert w.events[..i] == v.events[..i];
      PubAfterPrefix(w.events, v.events, v.Start(), i);
    }
    assert w.events[..n] == v.events;
    assert EventOk(w.events, w.Start(), w.council, w.algo, n);
    VerifiesGrow(v.events, w.events[n], v.Start(), v.council, v.algo);
  }

  lemma {:induction false} KeyFromGrow(rotations: seq<Rotation>, r: Rotation, idx: nat, live: Option<nat>)
    ensures r.at >= idx ==> KeyFrom(rotations + [r], idx, live) == KeyFrom(rotations, idx, Some(r.key))
    ensures r.at < idx && (forall s <- rotations :: s.at < idx) ==> KeyFrom(rotations + [r], idx, live) == live
  {
    if rotations != [] {
      assert (rotations + [r])[1..] == rotations[1..] + [r];
      KeyFromGrow(rotations[1..], r, idx, live);
    }
  }

  lemma {:induction false} KeyFromLive(rotations: seq<Rotation>, idx: nat, live: Option<nat>)
    requires forall r <- rotations :: r.at < idx
    ensures KeyFrom(rotations, idx, live) == live
  {
    if rotations != [] {
      KeyFromLive(rotations[1..], idx, live);
    }
  }

  lemma StepLive(v: Ledger, op: Op)
    requires Live(v) && Ordinary(op)
    ensures Live(Step(v, op))
  {
    match op
    case AppendOp(typ, payload, ts) => AppendedReady(v, typ, payload, ts);
    case RotateOp(newKey, ts) => AppendedReady(v, KeyRotate, RotatePayload(Pub(newKey)), ts);
    case CouncilOp(p) => CouncilIrrelevant(v.events, v.Start(), v.council, Some(p), v.algo);
  }

  lemma StepSigns(v: Ledger, op: Op, i: nat)
    requires Disciplined(v) && Ordinary(op) && i <= |Step(v, op).events|
    ensures SignsAt(Step(v, op), i)
  {
    var w, n := Step(v, op), |v.events|;
    match op
    case AppendOp(typ, payload, ts) =>
      AppendedReady(v, typ, payload, ts);
      if i <= n {
        assert SignsAt(v, i);
      } else {
        KeyFromLive(v.rotations, i, v.key);
      }
    case RotateOp(newKey, ts) =>
      AppendedReady(v, KeyRotate, RotatePayload(Pub(newKey)), ts);
      KeyFromGrow(v.rotations, Rotation(n, v.key.value), i, Some(newKey));
      if i <= n {
        assert SignsAt(v, i);
      }
    case CouncilOp(p) =>
      assert SignsAt(v, i);
  }

  /** Every run of appends and rotations from a new timeline verifies in full, and the key
      recorded for each index is the one that signed there. */
  lemma {:induction false} RunDisciplined(key: nat, algo: Algo, ops: seq<Op>)
    requires forall op <- ops :: Ordinary(op)
    ensures Disciplined(Run(NewLedger(key, algo), ops))
  {
    if ops != [] {
      var before := ops[..|ops| - 1];
      RunDisciplined(key, algo, before);
      var v, op := Run(NewLedger(key, algo), before), ops[|ops| - 1];
      StepLive(v, op);
      forall i | 0 <= i <= |Step(v, op).events| ensures SignsAt(Step(v, op), i) {
        StepSigns(v, op, i);
      }
    }
  }

  lemma {:induction false} RunLive(v: Ledger, ops: seq<Op>)
    requires Live(v) && forall op <- ops :: Ordinary(op)
    ensures Live(Run(v, ops))
  {
    if ops != [] {
      RunLive(v, ops[..|ops| - 1]);
      StepLive(Run(v, ops[..|ops| - 1]), ops[|ops| - 1]);
    }
  }

  // -------------------------------------------------------------------- forks

  /** The private key a fork takes is the one its public key asks for exactly when the event it
      branches at does not rotate to another key. */
  lemma ForkKeyMatches(v: Ledger, idx: nat)
    requires Disciplined(v) && idx < |v.events|
    ensures v.KeyAt(idx).Some?
    ensures Pub(v.KeyAt(idx).value) == v.After(idx + 1)
       <==> (v.events[idx].body.typ == KeyRotate ==> RotatedKey(v.events[idx].body.payload) == Some(v.After(idx)))
  {
    assert SignsAt(v, idx) && EventOk(v.events, v.Start(), v.council, v.algo, idx);
  }

  lemma {:induction false} StartReplaced(events: Link, s: PubKey, t: PubKey, council: Option<PubKey>, algo: Algo,
                                         n: nat)
    requires 0 < n <= |events| && events[0].body.typ == Recovery && EventOk(events, s, council, algo, 0)
    ensures PubAfter(events, s, n) == PubAfter(events, t, n)
  {
    if n == 1 {
      assert PubAfter(events, s, 0) == s && PubAfter(events, t, 0) == t;
    } else {
      StartReplaced(events, s, t, council, algo, n - 1);
    }
  }

  /** A verifying prefix verifies from another start key exactly when that is the same key, or
      the prefix opens with a recovery (which brings its own key). */
  lemma StartMatters(events: Link, s: PubKey, t: PubKey, council: Option<PubKey>, algo: Algo)
    requires events != [] && Verifies(events, s, council, algo, |events|)
    ensures Verifies(events, t, council, algo, |events|) <==> s == t || events[0].body.typ == Recovery
  {
    assert EventOk(events, s, council, algo, 0);
    if events[0].body.typ == Recovery {
      forall i | 0 <= i < |events| ensures EventOk(events, t, council, algo, i) {
        assert EventOk(events, s, council, algo, i);
        if i > 0 {
          StartReplaced(events, s, t, council, algo, i);
        }
      }
    } else if Verifies(events, t, council, algo, |events|) {
      assert EventOk(events, t, council, algo, 0);
      assert PubAfter(events, s, 0) == s && PubAfter(events, t, 0) == t;
    }
  }

  /** A fork of a verifying timeline verifies exactly when the key after its branch point is the
      start key again, or the chain opens with a recovery. */
  lemma ForkVerifiesExactly(v: Ledger, idx: nat)
    requires v.Good() && idx < |v.events|
    ensures v.ForkedAt(idx).Good() <==> v.After(idx + 1) == v.Start() || v.events[0].body.typ == Recovery
  {
    var prefix := v.events[..idx + 1];
    assert prefix[..idx + 1] == v.events[..idx + 1];
    VerifiesPrefix(v.events, prefix, v.Start(), v.council, v.algo, idx + 1);
    assert Verifies(prefix, v.Start(), v.council, v.algo, |prefix|);
    StartMatters(prefix, v.Start(), v.After(idx + 1), v.council, v.algo);
  }

  /** A fork of a disciplined timeline is live exactly when its branch event leaves the start key
      current and was signed under it; a fork before the first rotation always is. */
  lemma ForkLiveExactly(v: Ledger, idx: nat)
    requires Disciplined(v) && idx < |v.events|
    ensures Live(v.ForkedAt(idx)) <==> v.After(idx) == v.After(idx + 1) == v.Start()
  {
    var f := v.ForkedAt(idx);
    ForkVerifiesExactly(v, idx);
    assert SignsAt(v, idx);
    assert f.events[..idx + 1] == v.events[..idx + 1];
    if f.Start() == v.Start() {
      PubAfterPrefix(f.events, v.events, v.Start(), idx + 1);
    }
  }

  lemma {:induction false} NoRotation(v: Ledger, n: nat)
    requires n <= |v.events|
    requires forall i :: 0 <= i < n ==> v.events[i].body.typ != KeyRotate && v.events[i].body.typ != Recovery
    ensures v.After(n) == v.Start()
    decreases n
  {
    if n > 0 {
      NoRotation(v, n - 1);
    }
  }

  /** A fork taken before the first rotation keeps verifying, whatever is then done with it. */
  lemma ForkKeepsVerifying(v: Ledger, idx: nat, ops: seq<Op>)
    requires Disciplined(v) && idx < |v.events| && forall op <- ops :: Ordinary(op)
    requires forall i :: 0 <= i <= idx ==> v.events[i].body.typ != KeyRotate
    ensures Run(v.ForkedAt(idx), ops).Good()
  {
    NoRotation(v, idx);
    NoRotation(v, idx + 1);
    ForkLiveExactly(v, idx);
    RunLive(v.ForkedAt(idx), ops);
  }

  /** Outside the exact condition the first event appended to the fork already fails. */
  lemma ForkThenAppendExactly(v: Ledger, idx: nat, typ: EventType, payload: Payload, ts: int)
    requires Disciplined(v) && idx < |v.events| && typ != Recovery && typ != KeyRotate
    ensures v.ForkedAt(idx).Appended(typ, payload, ts).Good() <==> v.After(idx) == v.After(idx + 1) == v.Start()
  {
    var f := v.ForkedAt(idx);
    ForkLiveExactly(v, idx);
    if Live(f) {
      AppendedReady(f, typ, payload, ts);
    } else if f.Appended(typ, payload, ts).Good() {
      assert SignsAt(v, idx);
      var e := f.Next(typ, payload, ts);
      VerifiesGrow(f.events, e, f.Start(), f.council, f.algo);
      var more := f.events + [e];
      assert more[..|f.events|] == f.events[..|f.events|];
      PubAfterPrefix(more, f.events, f.Start(), |f.events|);
      assert false;
    }
  }

  /** For instance: rotate once from a new timeline, fork at the rotation, and the fork fails. */
  lemma ForkAtRotationFails()
    ensures var v := Run(NewLedger(1, Sha256), [RotateOp(2, 0)]);
            v.Good() && |v.events| == 1 && !v.ForkedAt(0).Good()
  {
    var ops := [RotateOp(2, 0)];
    var v := Run(NewLedger(1, Sha256), ops);
    RunDisciplined(1, Sha256, ops);
    assert ops[..0] == [];
    assert v == NewLedger(1, Sha256).Rotated(2, 0);
    ForkVerifiesExactly(v, 0);
    assert v.After(0) == Pub(1) && v.After(1) == Pub(2);
  }

  // ----------------------------------------------------------- no repeated event

  /** No event of a verifying prefix is repeated in it, so the hash names one branch point. */
  lemma {:induction false} NoRepeat(events: Link, start: PubKey, council: Option<PubKey>, algo: Algo, i: nat, j: nat)
    requires i < j < |events| && Verifies(events, start, council, algo, j + 1)
    ensures events[i] != events[j]
    decreases j
  {
    assert EventOk(events, start, council, algo, j) && EventOk(events, start, council, algo, i);
    if events[i] == events[j] && i > 0 {
      assert events[i - 1] == events[j - 1];
      NoRepeat(events, start, council, algo, i - 1, j - 1);
    }
  }
}
