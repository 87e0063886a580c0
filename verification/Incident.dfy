// From a fleet verdict to a recovery: the evidence that the watch appends (api.go) is what
// the council rolls back by (council.go).

module Incidents {
  import opened Wrappers
  import opened Events
  import opened Councils
  import opened Ceremonies
  import opened CouncilSigning
  import opened Adoption

  /** The first bad index a verdict names, or the whole chain when it names none. */
  function FirstBad(req: Request, n: nat): nat
    requires req.VerdictReq?
  {
    if req.minBad >= 0 then req.minBad else n
  }

  /** A first positive verdict, and a recovery from the evidence it leaves: the council recovers at the very
      index the verdict names, and does so when it is willing to. */
  method WatchAndRecover(tenant: Tenant, council: Council, req: Request, store: Option<PubKey>, env: Env, minVotes: int,
                         newRoot: nat, certificate: Option<nat>, nonces: seq<(nat, nat)>, ghost f: seq<int>)
    returns (r: Result<Outcome>)
    requires req.VerdictReq? && req.detected && !tenant.detected && tenant.tl.key.Some?
    requires env.q > 0 && |nonces| >= |council.members|
    modifies tenant`counters, tenant`detected, tenant.tl`events, council`epoch, Holders(council.members)
    ensures |tenant.tl.events| == |old(tenant.tl.events)| + 1
    ensures r.Ok? ==> Recovered(tenant.tl.View(), FirstBad(req, |old(tenant.tl.events)|), newRoot, old(council.epoch),
                                council.group, r.value)
    ensures var bad := FirstBad(req, |old(tenant.tl.events)|);
            PrefixTrusted(tenant.tl.View(), bad) && |Holders(council.members)| >= minVotes
            && old(Fresh(Holders(council.members), IdsOf(Holders(council.members))))
            && WouldRecover(env, f, tenant.tl.View(), bad, old(council.epoch), newRoot, certificate, council.group,
                            minVotes, council.members, IdsOf(Holders(council.members))) ==>
              r.Ok?
  {
    ghost var fresh0 := Fresh(Holders(council.members), IdsOf(Holders(council.members)));
    var evidence := Witness(tenant, req, store);
    assert Fresh(Holders(council.members), IdsOf(Holders(council.members))) == fresh0;
    r := council.Recover(env, tenant.tl, Some(evidence), minVotes, newRoot, certificate, nonces, f);
  }

  /** The evidence that a first positive verdict leaves as the last event. */
  method Witness(tenant: Tenant, req: Request, store: Option<PubKey>) returns (evidence: Event)
    requires req.VerdictReq? && req.detected && !tenant.detected && tenant.tl.key.Some?
    modifies tenant`counters, tenant`detected, tenant.tl`events
    ensures tenant.tl.events == old(tenant.tl.events) + [evidence]
    ensures BadIndexOf(Some(evidence)) == Some(FirstBad(req, |old(tenant.tl.events)|))
  {
    tenant.Watch(req, store);
    evidence := tenant.tl.events[|tenant.tl.events| - 1];
  }
}
