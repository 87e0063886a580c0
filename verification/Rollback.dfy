// Rollback, the blast radius of a bad window, and the post-recovery checks (rollback.go).

module Rollbacks {
  import opened Wrappers
  import opened Events
  import opened Chains
  import opened Timelines
  import opened Graphs

  /** How long a prefix Rollback keeps: up to the last copy of the event before badIdx. */
  function CutAt(events: Link, badIdx: nat): (n: nat)
    requires badIdx <= |events|
    ensures badIdx <= n <= |events|
  {
    if badIdx == 0 then 0
    else
      LastAtMeans(events, badIdx - 1);
      LastAt(events, HashOf(events[badIdx - 1])) + 1
  }

  lemma {:induction false} LastAtMeans(events: Link, i: nat)
    requires i < |events|
    ensures i <= LastAt(events, HashOf(events[i]))
    decreases |events|
  {
    if HashOf(events[|events| - 1]) != HashOf(events[i]) {
      assert events[..|events| - 1][i] == events[i];
      LastAtMeans(events[..|events| - 1], i);
    }
  }

  /** The hash names the event before badIdx itself exactly when the region beyond holds no copy of it. */
  lemma {:induction false} LastAtExactly(events: Link, i: nat)
    requires i < |events|
    ensures LastAt(events, HashOf(events[i])) == i <==> forall j :: i < j < |events| ==> events[j] != events[i]
    decreases |events|
  {
    var before := events[..|events| - 1];
    if i < |events| - 1 {
      assert before[i] == events[i];
      if events[|events| - 1] != events[i] {
        LastAtExactly(before, i);
        forall j | i < j < |events| - 1 ensures before[j] == events[j] {
        }
      }
    }
  }

  /** What Rollback returns; None where the program stops: no key for a new timeline, or an
      index past the end. */
  function RolledBack(v: Ledger, badIdx: nat): Option<Ledger> {
    if badIdx == 0 then
      if v.key.Some? then Some(NewLedger(v.key.value, Sha256)) else None
    else if badIdx > |v.events| then None
    else Some(v.ForkedAt(CutAt(v.events, badIdx) - 1))
  }

  method Rollback(tl: Timeline, badIdx: nat) returns (r: Result<Timeline>)
    ensures r.Ok? <==> RolledBack(tl.View(), badIdx).Some?
    ensures r.Ok? ==> fresh(r.value) && r.value.View() == RolledBack(tl.View(), badIdx).value
    ensures r.Err? <==> badIdx > |tl.events| || (badIdx == 0 && tl.key.None?)
    ensures r.Ok? && badIdx == 0 ==>
              r.value.events == [] && r.value.council == None && r.value.algo == Sha256 && r.value.key == tl.key
    ensures r.Ok? && badIdx > 0 ==>
              var n := |r.value.events|;
              && badIdx <= n <= |tl.events| && r.value.events == tl.events[..n]
              && tl.events[n - 1] == tl.events[badIdx - 1]
              && (forall i :: n <= i < |tl.events| ==> tl.events[i] != tl.events[badIdx - 1])
              && r.value.council == tl.council && r.value.algo == tl.algo
              && InForce(tl.events, tl.View().Start(), n, r.value.pub)
  {
    if badIdx == 0 {
      if tl.key.None? {
        return Err("no signing key");
      }
      var t := new Timeline(tl.key.value, Sha256);
      return Ok(t);
    }
    if badIdx > |tl.events| {
      return Err("index out of range");
    }
    LastAtMeans(tl.events, badIdx - 1);
    r := tl.Fork(HashOf(tl.events[badIdx - 1]));
  }

  // --------------------------------------------------------------- blast radius

  /** The certificate an event issues or revokes. */
  function Touched(e: Body): Option<string> {
    if IssueOf(e).Some? then Some(IssueOf(e).value.certId)
    else if e.typ == Revoke then AsRevoke(e.payload)
    else None
  }

  function Seeds(events: Link, badIdx: nat): set<string> {
    set i | badIdx <= i < |events| && Touched(events[i].body).Some? :: Touched(events[i].body).value
  }

  function IssuedTo(events: Link, badIdx: nat): set<string> {
    set i | badIdx <= i < |events| && IssueOf(events[i].body).Some? :: IssueOf(events[i].body).value.identity
  }

  /** Event e issues a certificate through a member of s. */
  predicate IssuesVia(e: Body, s: set<string>) {
    IssueOf(e).Some? && IssueOf(e).value.via != "" && IssueOf(e).value.via in s
  }

  predicate ViaClosed(events: Link, s: set<string>) {
    forall i :: 0 <= i < |events| && IssuesVia(events[i].body, s) ==> IssueOf(events[i].body).value.certId in s
  }

  /** The least set of certificates that holds the seeds and everything issued through a member. */
  ghost predicate IsBlastRadius(events: Link, badIdx: nat, certs: set<string>) {
    && Seeds(events, badIdx) <= certs && ViaClosed(events, certs)
    && forall s | Seeds(events, badIdx) <= s && ViaClosed(events, s) :: certs <= s
  }

  lemma BlastRadiusUnique(events: Link, badIdx: nat, a: set<string>, b: set<string>)
    requires IsBlastRadius(events, badIdx, a) && IsBlastRadius(events, badIdx, b)
    ensures a == b
  {
  }

  /** Some event of the bad window issues or revokes the certificate. */
  ghost predicate TouchedIn(events: Link, badIdx: nat, c: string) {
    exists i :: badIdx <= i < |events| && (IssuesAt(events, i, c) || RevokesAt(events, i, c))
  }

  /** Some event, anywhere on the timeline, issues c through the other certificate. */
  ghost predicate IssuedThrough(events: Link, via: string, c: string) {
    via != "" && exists i :: IssuesAt(events, i, c) && AsIssue(events[i].body.payload).value.via == via
  }

  /** The first certificate was touched in the bad window, and each next one issued through the one before it. */
  ghost predicate IssuancePath(events: Link, badIdx: nat, path: seq<string>) {
    && path != [] && TouchedIn(events, badIdx, path[0])
    && forall k :: 0 < k < |path| ==> IssuedThrough(events, path[k - 1], path[k])
  }

  ghost predicate ReachedBy(events: Link, badIdx: nat, c: string) {
    exists path :: IssuancePath(events, badIdx, path) && path[|path| - 1] == c
  }

  lemma SeedIsReached(events: Link, badIdx: nat, c: string)
    requires c in Seeds(events, badIdx)
    ensures ReachedBy(events, badIdx, c)
  {
    var i :| badIdx <= i < |events| && Touched(events[i].body) == Some(c);
    assert IssuesAt(events, i, c) || RevokesAt(events, i, c);
    assert IssuancePath(events, badIdx, [c]) && [c][|[c]| - 1] == c;
  }

  lemma ReachGrows(events: Link, badIdx: nat, via: string, c: string)
    requires ReachedBy(events, badIdx, via) && IssuedThrough(events, via, c)
    ensures ReachedBy(events, badIdx, c)
  {
    var path :| IssuancePath(events, badIdx, path) && path[|path| - 1] == via;
    var longer := path + [c];
    assert longer[0] == path[0];
    forall k | 0 < k < |longer| ensures IssuedThrough(events, longer[k - 1], longer[k]) {
      assert k < |path| ==> longer[k] == path[k];
    }
    assert IssuancePath(events, badIdx, longer) && longer[|longer| - 1] == c;
  }

  /** The blast radius is exactly what such a path leads to. */
  lemma BlastRadiusIsReach(events: Link, badIdx: nat, certs: set<string>, c: string)
    requires IsBlastRadius(events, badIdx, certs)
    ensures c in certs <==> ReachedBy(events, badIdx, c)
  {
    if path :| IssuancePath(events, badIdx, path) && path[|path| - 1] == c {
      PathStays(events, badIdx, certs, path);
    }
    var reached := set x | x in certs && ReachedBy(events, badIdx, x);
    forall x | x in Seeds(events, badIdx) ensures x in reached {
      SeedIsReached(events, badIdx, x);
    }
    forall i | 0 <= i < |events| && IssuesVia(events[i].body, reached)
      ensures IssueOf(events[i].body).value.certId in reached
    {
      var f := IssueOf(events[i].body).value;
      assert IssuesAt(events, i, f.certId) && IssuesVia(events[i].body, certs);
      ReachGrows(events, badIdx, f.via, f.certId);
    }
    assert certs <= reached;
  }

  lemma {:induction false} PathStays(events: Link, badIdx: nat, certs: set<string>, path: seq<string>)
    requires IsBlastRadius(events, badIdx, certs) && IssuancePath(events, badIdx, path)
    ensures path[|path| - 1] in certs
    decreases |path|
  {
    var n := |path| - 1;
    if n == 0 {
      var i :| badIdx <= i < |events| && (IssuesAt(events, i, path[0]) || RevokesAt(events, i, path[0]));
      assert Touched(events[i].body) == Some(path[0]);
    } else {
      assert forall k :: 0 <= k < n ==> path[..n][k] == path[k];
      PathStays(events, badIdx, certs, path[..n]);
      assert IssuedThrough(events, path[n - 1], path[n]);
      var i :| IssuesAt(events, i, path[n]) && AsIssue(events[i].body.payload).value.via == path[n - 1];
      assert IssuesVia(events[i].body, certs);
    }
  }

  function CertsIn(nodes: set<Node>): set<string> {
    set n | n in nodes && n.CertNode? :: n.certId
  }

  /** A closed set of nodes holds a set of certificates closed under issuance. */
  lemma ClosedCerts(edges: Edges, events: Link, nodes: set<Node>)
    requires EdgesOf(edges, events) && Closed(edges, nodes)
    ensures ViaClosed(events, CertsIn(nodes))
  {
    forall i | 0 <= i < |events| && IssuesVia(events[i].body, CertsIn(nodes))
      ensures IssueOf(events[i].body).value.certId in CertsIn(nodes)
    {
      var f := IssueOf(events[i].body).value;
      assert MakesEdge(events[i].body, CertNode(f.via), CertNode(f.certId));
      assert CertNode(f.certId) in Successors(edges, CertNode(f.via));
    }
  }

  function AsNodes(certs: set<string>): set<Node> {
    set c | c in certs :: CertNode(c)
  }

  lemma ClosedNodes(edges: Edges, events: Link, s: set<string>)
    requires EdgesOf(edges, events) && ViaClosed(events, s)
    ensures Closed(edges, AsNodes(s))
  {
    forall a, b | a in AsNodes(s) && b in Successors(edges, a) ensures b in AsNodes(s) {
      var i :| 0 <= i < |events| && MakesEdge(events[i].body, a, b);
      assert IssuesVia(events[i].body, s);
    }
  }

  /** One seed's reach: closed under issuance, and inside every such set with the seed in it. */
  method ReachOf(g: SecurityGraph, ghost events: Link, seed: string) returns (certs: set<string>)
    requires EdgesOf(g.edges, events)
    ensures seed in certs && ViaClosed(events, certs)
    ensures forall s | seed in s && ViaClosed(events, s) :: certs <= s
  {
    var nodes := g.Reachable(CertNode(seed));
    certs := CertsIn(nodes);
    ClosedCerts(g.edges, events, nodes);
    forall s | seed in s && ViaClosed(events, s) ensures certs <= s {
      ClosedNodes(g.edges, events, s);
      assert CertNode(seed) in AsNodes(s);
      assert nodes <= AsNodes(s);
    }
  }

  method CollectSeeds(events: Link, badIdx: nat) returns (seeds: set<string>, identities: set<string>)
    requires badIdx <= |events|
    ensures seeds == Seeds(events, badIdx) && identities == IssuedTo(events, badIdx)
  {
    seeds, identities := {}, {};
    for i := badIdx to |events|
      invariant seeds == set k | badIdx <= k < i && Touched(events[k].body).Some? :: Touched(events[k].body).value
      invariant identities == set k | badIdx <= k < i && IssueOf(events[k].body).Some? ::
                                IssueOf(events[k].body).value.identity
    {
      var e := events[i].body;
      if e.typ == Issue && AsIssue(e.payload).Some? {
        seeds := seeds + {AsIssue(e.payload).value.certId};
        identities := identities + {AsIssue(e.payload).value.identity};
      }
      if e.typ == Revoke && AsRevoke(e.payload).Some? {
        seeds := seeds + {AsRevoke(e.payload).value};
      }
    }
  }

  /** InvalidationSet: the certificates touched in the bad window and everything issued through
      them, over the whole timeline and never through an identity; the seeds come in any order. */
  method InvalidationSet(tl: Timeline, badIdx: nat) returns (certs: set<string>, identities: set<string>)
    requires badIdx <= |tl.events|
    ensures IsBlastRadius(tl.events, badIdx, certs)
    ensures identities == IssuedTo(tl.events, badIdx)
    ensures forall id :: id in identities <==>
              exists i :: badIdx <= i < |tl.events| && tl.events[i].body.typ == Issue
                          && AsIssue(tl.events[i].body.payload).Some?
                          && AsIssue(tl.events[i].body.payload).value.identity == id
  {
    var g := BuildGraph(tl.events);
    var seeds: set<string>;
    seeds, identities := CollectSeeds(tl.events, badIdx);
    certs := {};
    var left := seeds;
    while left != {}
      invariant EdgesOf(g.edges, tl.events)
      invariant left <= seeds && seeds - left <= certs && ViaClosed(tl.events, certs)
      invariant forall s | seeds <= s && ViaClosed(tl.events, s) :: certs <= s
      decreases left
    {
      var seed :| seed in left;
      left := left - {seed};
      var more := ReachOf(g, tl.events, seed);
      certs := certs + more;
    }
  }

  // ------------------------------------------------------------------ checks

  datatype Report = Report(p3: bool, p5: bool)
  {
    predicate Pass() {
      p3 && p5
    }
  }

  /** P3: whatever was revoked is still revoked, for the same identity. */
  predicate NoResurrection(pre: State, post: State) {
    forall id <- pre.Keys :: pre[id].revoked ==> id in post && post[id].revoked && post[id].identity == pre[id].identity
  }

  /** P5: certificates outside the affected set are untouched, and additions go to affected identities. */
  predicate MinimalBlast(pre: State, post: State, certs: set<string>, identities: set<string>) {
    && (forall id <- pre.Keys :: id !in certs ==> id in post && post[id] == pre[id])
    && (forall id <- post.Keys :: id !in pre ==> post[id].identity in identities)
  }

  method VerifyRecovery(pre: State, post: State, certs: set<string>, identities: set<string>) returns (r: Report)
    ensures r == Report(NoResurrection(pre, post), MinimalBlast(pre, post, certs, identities))
    ensures r.Pass() <==>
            && (forall id <- pre.Keys :: pre[id].revoked ==> id in post && post[id] == pre[id])
            && (forall id <- pre.Keys :: id !in certs ==> id in post && post[id] == pre[id])
            && (forall id <- post.Keys :: id !in pre ==> post[id].identity in identities)
  {
    r := Report(true, true);
    var left := pre.Keys;
    while left != {}
      invariant left <= pre.Keys
      invariant r.p3 <==> forall id <- pre.Keys - left ::
                            pre[id].revoked ==> id in post && post[id].revoked && post[id].identity == pre[id].identity
      invariant r.p5 <==> forall id <- pre.Keys - left :: id !in certs ==> id in post && post[id] == pre[id]
      decreases left
    {
      var id :| id in left;
      assert pre.Keys - (left - {id}) == (pre.Keys - left) + {id};
      left := left - {id};
      if pre[id].revoked && (id !in post || !post[id].revoked || post[id].identity != pre[id].identity) {
        r := r.(p3 := false);
      }
      if id !in certs && (id !in post || post[id] != pre[id]) {
        r := r.(p5 := false);
      }
    }
    ghost var kept := r.p5;
    left := post.Keys;
    while left != {}
      invariant left <= post.Keys && r.p3 == NoResurrection(pre, post)
      invariant r.p5 <==> kept && forall id <- post.Keys - left :: id !in pre ==> post[id].identity in identities
      decreases left
    {
      var id :| id in left;
      assert post.Keys - (left - {id}) == (post.Keys - left) + {id};
      left := left - {id};
      if id !in pre && post[id].identity !in identities {
        r := r.(p5 := false);
      }
    }
  }
}
